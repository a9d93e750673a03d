/** Integrating a change into a line: plan, resolutions, text merges, and the check of
    paths and contents before the result is recorded. */
module LineIntegration {
  import opened Common
  import WorkingTree
  import opened MergePlan
  import opened Integration
  import opened TextPass

  // ------------------------------------------------ paths of the final plan

  ghost predicate SafePaths(files: seq<FileEntry>) {
    forall f :: f in files ==> WorkingTree.ValidKey(f.path)
  }

  lemma PlannedIsLive(base: Manifest, line: Manifest, incoming: Manifest, plan: Plan, p: Key)
    requires Keyed(base) && Keyed(line) && Keyed(incoming)
    requires Plans(base, line, incoming, plan) && p in PathsOf(plan)
    ensures p in base || p in line || p in incoming
  {
    ChosenIsListed(base, line, incoming, p);
    if p in FilePaths(plan.merged) {
      var f :| f in plan.merged && f.path == p;
      assert Lists(base, line, incoming, f);
    } else {
      var c :| c in plan.conflicts && c.path == p;
      assert Conflicts(base, line, incoming, c) || Top(Live(base, line, incoming), p);
    }
  }

  lemma PlanIsOk(s: Sides, plan: Plan)
    requires Plans(ManifestMap(s.base), ManifestMap(s.line), ManifestMap(s.incoming), plan)
    requires SafePaths(s.base) && SafePaths(s.line) && SafePaths(s.incoming)
    ensures PlanOk(plan)
  {
    ManifestMapExactly(s.base);
    ManifestMapExactly(s.line);
    ManifestMapExactly(s.incoming);
    forall p | p in PathsOf(plan)
      ensures WorkingTree.ValidKey(p)
    {
      PlannedIsLive(ManifestMap(s.base), ManifestMap(s.line), ManifestMap(s.incoming), plan, p);
    }
  }

  lemma ClearedIsManifest(plan: Plan)
    requires PlanOk(plan)
    ensures ManifestOk(plan.merged)
  {
    assert forall f :: f in plan.merged ==> f.path in PathsOf(plan);
  }

  // -------------------------------------------------------- content check

  /** A file found among the generated contents is compared with them and must be no
      link; every other file is verified against the repository. */
  predicate ContentOk(w: World, t: Texts, generated: Generated, f: FileEntry) {
    if f.hash in generated then
      !f.symlink && |generated[f.hash]| == f.bytes && t.hash(generated[f.hash]) == f.hash
    else VerifyFile(w, f)
  }

  ghost predicate Verifies(w: World, t: Texts, generated: Generated, files: seq<FileEntry>) {
    ManifestOk(files) && forall f :: f in files ==> ContentOk(w, t, generated, f)
  }

  /** Checks the paths, then each file's content. */
  method VerifyMerged(w: World, t: Texts, generated: Generated, files: seq<FileEntry>) returns (ok: bool)
    ensures ok <==> Verifies(w, t, generated, files)
  {
    ok := VerifyManifestPaths(files);
    if !ok { return; }
    for i := 0 to |files|
      invariant forall f :: f in files[..i] ==> ContentOk(w, t, generated, f)
    {
      if !ContentOk(w, t, generated, files[i]) {
        assert files[i] in files;
        return false;
      }
      assert files[..i + 1] == files[..i] + [files[i]];
    }
    assert files[..|files|] == files;
  }

  ghost predicate CollisionFree(t: Texts) {
    forall a, b :: t.hash(a) == t.hash(b) ==> a == b
  }

  /** A verified entry names a content of its length. */
  ghost predicate BlobsExist(w: World, t: Texts) {
    forall f :: w.blobOk(f) ==> exists content :: t.hash(content) == f.hash && |content| == f.bytes
  }

  /** A file the text pass merged always passes the content check. */
  lemma MergedFileVerifies(w: World, t: Texts, m: Sources, plan: Plan, merged: seq<FileEntry>, unresolved: seq<Pending>, generated: Generated, f: FileEntry)
    requires CollisionFree(t) && Passed(t, m, plan, |plan.conflicts|, merged, unresolved, generated)
    requires MergedBefore(t, m, plan.conflicts, |plan.conflicts|, f)
    ensures ContentOk(w, t, generated, f)
  {
    var content := MergedHasContent(t, m, plan.conflicts, |plan.conflicts|, f);
    assert t.hash(generated[f.hash]) == f.hash;
  }

  /** A verified file that shares its hash with a generated content is refused exactly
      when it is a link. */
  lemma SharedHashVerifies(w: World, t: Texts, m: Sources, plan: Plan, merged: seq<FileEntry>, unresolved: seq<Pending>, generated: Generated, f: FileEntry)
    requires CollisionFree(t) && BlobsExist(w, t) && Passed(t, m, plan, |plan.conflicts|, merged, unresolved, generated)
    requires VerifyFile(w, f)
    ensures ContentOk(w, t, generated, f) <==> !(f.symlink && SharesHash(t, m, plan.conflicts, f))
  {
    if f.hash in generated {
      var content :| t.hash(content) == f.hash && |content| == f.bytes;
      assert t.hash(generated[f.hash]) == f.hash;
      assert SharesHash(t, m, plan.conflicts, f);
    }
  }

  ghost predicate SharesHash(t: Texts, m: Sources, conflicts: seq<Pending>, f: FileEntry) {
    exists content :: ContentBefore(t, m, conflicts, |conflicts|, content) && t.hash(content) == f.hash
  }

  /** When the check after the text pass accepts: the plan had separate safe paths and
      verified files, so it does exactly when no link among them has the hash of a text
      that the pass generated. */
  lemma AcceptedExactly(w: World, t: Texts, m: Sources, plan: Plan, merged: seq<FileEntry>, unresolved: seq<Pending>, generated: Generated)
    requires CollisionFree(t) && BlobsExist(w, t) && Passed(t, m, plan, |plan.conflicts|, merged, unresolved, generated)
    requires PlanOk(Plan(merged, unresolved)) && forall f :: f in plan.merged ==> VerifyFile(w, f)
    ensures Verifies(w, t, generated, merged) <==>
      forall f :: f in plan.merged && f.symlink ==> !SharesHash(t, m, plan.conflicts, f)
  {
    ClearedIsManifest(Plan(merged, unresolved));
    forall f | f in merged
      ensures ContentOk(w, t, generated, f) <==> f !in plan.merged || !(f.symlink && SharesHash(t, m, plan.conflicts, f))
    {
      if f in plan.merged {
        SharedHashVerifies(w, t, m, plan, merged, unresolved, generated, f);
      } else {
        MergedFileVerifies(w, t, m, plan, merged, unresolved, generated, f);
      }
    }
  }

  // ---------------------------------------------------------- the integration

  datatype Outcome = Unavailable | Blocked(conflicts: seq<Pending>) | Rejected | Integrated(files: seq<FileEntry>)

  /** The plan as it stands after each stage. */
  datatype Stages = Stages(planned: Plan, resolved: Plan, final: Plan, generated: Generated)

  function SourcesOf(s: Sides): Sources {
    Sources(ManifestMap(s.base), ManifestMap(s.line), ManifestMap(s.incoming))
  }

  ghost predicate Staged(w: World, t: Texts, stored: seq<Stored>, s: Sides, x: Stages) {
    && Plans(ManifestMap(s.base), ManifestMap(s.line), ManifestMap(s.incoming), x.planned)
    && Resolves(w, stored, s, x.planned, x.resolved)
    && Passed(t, SourcesOf(s), x.resolved, |x.resolved.conflicts|, x.final.merged, x.final.conflicts, x.generated)
    && (SafeSides(s) ==> PlanOk(x.resolved) && PlanOk(x.final))
  }

  ghost predicate SafeSides(s: Sides) {
    SafePaths(s.base) && SafePaths(s.line) && SafePaths(s.incoming)
  }

  /** A stored resolution fails, or a text that is to be merged cannot be read. */
  ghost predicate Fails(w: World, t: Texts, stored: seq<Stored>, s: Sides, x: Stages) {
    && Plans(ManifestMap(s.base), ManifestMap(s.line), ManifestMap(s.incoming), x.planned)
    && (|| (exists c :: c in x.planned.conflicts && AnswerTo(w, stored, s, c).Failed?)
        || (&& Resolves(w, stored, s, x.planned, x.resolved) && (SafeSides(s) ==> PlanOk(x.resolved))
            && exists i :: 0 <= i < |x.resolved.conflicts| && OutcomeAt(t, SourcesOf(s), x.resolved.conflicts, i).ReadFailed?))
  }

  /** All stages in order.  The path check never refuses a result from safe inputs:
      whatever mix of resolutions and text merges cleared the conflicts, it is a valid
      tree, and only a file's content can still be refused. */
  method Integrate(w: World, t: Texts, stored: seq<Stored>, s: Sides) returns (r: Outcome, x: Stages)
    ensures r.Unavailable? ==> Fails(w, t, stored, s, x)
    ensures !r.Unavailable? ==> Staged(w, t, stored, s, x)
    ensures r.Blocked? ==> r.conflicts == x.final.conflicts != []
    ensures r.Rejected? || r.Integrated? ==> x.final.conflicts == []
    ensures r.Integrated? ==> r.files == x.final.merged && Verifies(w, t, x.generated, r.files)
    ensures r.Rejected? ==> !Verifies(w, t, x.generated, x.final.merged)
    ensures r.Rejected? && SafeSides(s) ==>
      exists f :: f in x.final.merged && !ContentOk(w, t, x.generated, f)
  {
    var planned := PlanMerge(s.base, s.line, s.incoming);
    if SafeSides(s) { PlanIsOk(s, planned); }
    x := Stages(planned, planned, planned, map[]);
    var resolved := ApplyResolutions(w, stored, s, planned);
    if resolved.None? { return Unavailable, x; }
    x := Stages(planned, resolved.value, resolved.value, map[]);
    ManifestMapExactly(s.base);
    var texted, generated, total := ApplyTexts(t, SourcesOf(s), resolved.value);
    if texted.None? { return Unavailable, x; }
    x := Stages(planned, resolved.value, texted.value, generated);
    if x.final.conflicts != [] { return Blocked(x.final.conflicts), x; }
    if SafeSides(s) { ClearedIsManifest(x.final); }
    var ok := VerifyMerged(w, t, generated, x.final.merged);
    return if ok then Integrated(x.final.merged) else Rejected, x;
  }

  // ------------------------------------------------------------- end to end

  /** No side has a file above or below the path. */
  ghost predicate StandsAlone(s: Sides, p: Key) {
    forall f: FileEntry :: f in s.base || f in s.line || f in s.incoming ==> !(f.path < p) && !(p < f.path)
  }

  lemma AloneIsLone(s: Sides, p: Key)
    requires StandsAlone(s, p)
    ensures Lone(Live(ManifestMap(s.base), ManifestMap(s.line), ManifestMap(s.incoming)), p)
  {
    ManifestMapExactly(s.base);
    ManifestMapExactly(s.line);
    ManifestMapExactly(s.incoming);
  }

  /** A file that one side changed or added and the other left as it was is integrated as
      that side has it, whatever becomes of the conflicts. */
  lemma OneSidedChangeArrives(w: World, t: Texts, stored: seq<Stored>, s: Sides, x: Stages, f: FileEntry)
    requires Staged(w, t, stored, s, x) && StandsAlone(s, f.path)
    requires var b, l, i := EntryAt(ManifestMap(s.base), f.path), EntryAt(ManifestMap(s.line), f.path), EntryAt(ManifestMap(s.incoming), f.path);
             (b == l && i == Some(f)) || (b == i && l == Some(f)) || (l == i == Some(f))
    ensures f in x.planned.merged && f in x.resolved.merged && f in x.final.merged
  {
    AloneIsLone(s, f.path);
    DecideExactly(EntryAt(ManifestMap(s.base), f.path), EntryAt(ManifestMap(s.line), f.path), EntryAt(ManifestMap(s.incoming), f.path));
    assert Lists(ManifestMap(s.base), ManifestMap(s.line), ManifestMap(s.incoming), f);
  }

  /** A path both sides changed, and not alike, is a conflict of the plan, and is not
      integrated unless a decision or a text merge has cleared it. */
  lemma TwoSidedChangeConflicts(w: World, t: Texts, stored: seq<Stored>, s: Sides, x: Stages, p: Key)
    requires Staged(w, t, stored, s, x) && StandsAlone(s, p)
    requires var b, l, i := EntryAt(ManifestMap(s.base), p), EntryAt(ManifestMap(s.line), p), EntryAt(ManifestMap(s.incoming), p);
             b != l && b != i && l != i
    ensures exists c :: c in x.planned.conflicts && c.path == p && !c.kind.FileDirectory?
    ensures forall f :: f in x.planned.merged ==> f.path != p
  {
    var b, l, i := EntryAt(ManifestMap(s.base), p), EntryAt(ManifestMap(s.line), p), EntryAt(ManifestMap(s.incoming), p);
    AloneIsLone(s, p);
    DecideExactly(b, l, i);
    var c := Pending(p, Decide(b, l, i).kind);
    assert Conflicts(ManifestMap(s.base), ManifestMap(s.line), ManifestMap(s.incoming), c);
    assert c in x.planned.conflicts;
    forall f | f in x.planned.merged
      ensures f.path != p
    {
      assert Lists(ManifestMap(s.base), ManifestMap(s.line), ManifestMap(s.incoming), f);
    }
  }
}
