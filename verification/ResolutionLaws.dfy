/** What a recorded decision comes to, told from the three sides' files alone. */
module ResolutionLaws {
  import opened Common
  import WorkingTree
  import opened MergePlan
  import opened Integration

  /** The files a conflict is about: the one at its path, or everything under it. */
  predicate InScope(c: Pending, f: FileEntry) {
    if c.kind.FileDirectory? then c.path <= f.path else f.path == c.path
  }

  predicate OnSomeSide(s: Sides, f: FileEntry) {
    f in s.base || f in s.line || f in s.incoming
  }

  /** Some side restricts a file of the conflict differently. */
  ghost predicate Contested(s: Sides, c: Pending, policy: Policy) {
    exists h :: OnSomeSide(s, h) && InScope(c, h) && h.policy != policy
  }

  /** The content of `g`, under its own policy or, where the sides differ, the strictest. */
  ghost predicate Keeps(s: Sides, c: Pending, g: FileEntry, f: FileEntry) {
    && f.path == g.path && f.hash == g.hash && f.bytes == g.bytes && f.executable == g.executable && f.symlink == g.symlink
    && f.policy == if Contested(s, c, g.policy) then Admin else g.policy
  }

  /** Exactly one side's files of the conflict. */
  ghost predicate TakesSide(side: seq<FileEntry>, s: Sides, c: Pending, files: seq<FileEntry>) {
    forall f :: f in files <==> FromSide(side, s, c, f)
  }

  ghost predicate FromSide(side: seq<FileEntry>, s: Sides, c: Pending, f: FileEntry) {
    exists g :: g in side && InScope(c, g) && Keeps(s, c, g, f)
  }

  ghost predicate FromList(chosen: seq<FileEntry>, s: Sides, c: Pending, f: FileEntry) {
    exists g :: g in chosen && Keeps(s, c, g, f)
  }

  ghost predicate Means(d: Decision, replacement: Option<FileEntry>, s: Sides, c: Pending, files: seq<FileEntry>) {
    match d
    case TakeBase => TakesSide(s.base, s, c, files)
    case TakeLine => TakesSide(s.line, s, c, files)
    case TakeIncoming => TakesSide(s.incoming, s, c, files)
    case Delete => files == []
    case Custom =>
      && replacement.Some? && replacement.value.path == c.path && !c.kind.FileDirectory?
      && forall f :: f in files <==> Keeps(s, c, replacement.value, f)
  }

  ghost predicate UniquePaths(s: Sides) {
    DistinctBy(s.base, FilePath) && DistinctBy(s.line, FilePath) && DistinctBy(s.incoming, FilePath)
  }

  // ----------------------------------------------------------- single files

  lemma {:induction false} FindExactly(files: seq<FileEntry>, path: Key)
    requires DistinctBy(files, FilePath)
    ensures forall f :: f in ToList(Find(files, path)) <==> f in files && f.path == path
  {
    if files != [] {
      var rest := files[1..];
      assert files == [files[0]] + rest;
      RestDistinct(files);
      FindExactly(rest, path);
    }
  }

  lemma RestDistinct(files: seq<FileEntry>)
    requires DistinctBy(files, FilePath) && files != []
    ensures DistinctBy(files[1..], FilePath) && forall f :: f in files[1..] ==> f.path != files[0].path
  {
    var rest := files[1..];
    assert forall i :: 0 <= i < |rest| ==> rest[i] == files[i + 1];
    forall i | 0 <= i < |rest|
      ensures rest[i].path != files[0].path
    {
      assert FilePath(files[0]) != FilePath(files[i + 1]);
    }
    forall i, j | 0 <= i < j < |rest|
      ensures FilePath(rest[i]) != FilePath(rest[j])
    {
      assert FilePath(files[i + 1]) != FilePath(files[j + 1]);
    }
  }

  /** The entries looked at are those of the three sides in scope. */
  ghost predicate AreInScope(sides: seq<FileEntry>, s: Sides, c: Pending) {
    forall h :: h in sides <==> OnSomeSide(s, h) && InScope(c, h)
  }

  lemma GuardKeeps(g: FileEntry, sides: seq<FileEntry>, s: Sides, c: Pending, f: FileEntry)
    requires AreInScope(sides, s, c)
    ensures f == Guarded(g, sides) <==> Keeps(s, c, g, f)
  {
    assert (exists side :: side in sides && side.policy != g.policy) <==> Contested(s, c, g.policy);
  }

  lemma GuardAllKeeps(chosen: seq<FileEntry>, sides: seq<FileEntry>, s: Sides, c: Pending)
    requires AreInScope(sides, s, c)
    ensures forall f :: f in GuardAll(chosen, sides) <==> FromList(chosen, s, c, f)
  {
    var r := GuardAll(chosen, sides);
    forall f
      ensures f in r <==> FromList(chosen, s, c, f)
    {
      if f in r {
        var i :| 0 <= i < |r| && r[i] == f;
        GuardKeeps(chosen[i], sides, s, c, f);
        assert chosen[i] in chosen;
      }
      if g :| g in chosen && Keeps(s, c, g, f) {
        var i :| 0 <= i < |chosen| && chosen[i] == g;
        GuardKeeps(g, sides, s, c, f);
        assert r[i] == f;
      }
    }
  }

  lemma TakesExactly(side: seq<FileEntry>, chosen: seq<FileEntry>, sides: seq<FileEntry>, s: Sides, c: Pending)
    requires AreInScope(sides, s, c) && forall g :: g in chosen <==> g in side && InScope(c, g)
    ensures TakesSide(side, s, c, GuardAll(chosen, sides))
  {
    GuardAllKeeps(chosen, sides, s, c);
    forall f
      ensures FromList(chosen, s, c, f) <==> FromSide(side, s, c, f)
    {
      if g :| g in side && InScope(c, g) && Keeps(s, c, g, f) { assert g in chosen; }
      if g :| g in chosen && Keeps(s, c, g, f) { assert g in side && InScope(c, g); }
    }
  }

  lemma FileSides(s: Sides, c: Pending)
    requires UniquePaths(s) && !c.kind.FileDirectory?
    ensures AreInScope(ToList(Find(s.base, c.path)) + ToList(Find(s.line, c.path)) + ToList(Find(s.incoming, c.path)), s, c)
  {
    FindExactly(s.base, c.path);
    FindExactly(s.line, c.path);
    FindExactly(s.incoming, c.path);
  }

  lemma FileMeans(w: World, r: Stored, s: Sides, d: Decision, c: Pending)
    requires UniquePaths(s) && r.path == c.path && !c.kind.FileDirectory? && ResolvedFile(w, r, s, d).Some?
    ensures Means(d, r.replacement, s, c, ResolvedFile(w, r, s, d).value)
  {
    var base, line, incoming := ToList(Find(s.base, c.path)), ToList(Find(s.line, c.path)), ToList(Find(s.incoming, c.path));
    var sides := base + line + incoming;
    FileSides(s, c);
    FindExactly(s.base, c.path);
    FindExactly(s.line, c.path);
    FindExactly(s.incoming, c.path);
    match d
    case TakeBase => TakesExactly(s.base, base, sides, s, c);
    case TakeLine => TakesExactly(s.line, line, sides, s, c);
    case TakeIncoming => TakesExactly(s.incoming, incoming, sides, s, c);
    case Delete =>
    case Custom =>
      GuardAllKeeps([r.replacement.value], sides, s, c);
      OneReplacement(s, c, r.replacement.value);
  }

  lemma OneReplacement(s: Sides, c: Pending, g: FileEntry)
    ensures forall f :: FromList([g], s, c, f) <==> Keeps(s, c, g, f)
  {
    assert g in [g];
  }

  /** A decision about one file is refused exactly when a source is closed to the actor,
      or the replacement is missing, elsewhere, unreadable or does not verify. */
  lemma FileRefusedExactly(w: World, r: Stored, s: Sides, d: Decision, c: Pending)
    requires UniquePaths(s) && r.path == c.path && !c.kind.FileDirectory?
    ensures ResolvedFile(w, r, s, d).None? <==>
      || !w.sourcesOpen
      || Closed(w, s, c)
      || (d.Custom? && (r.replacement.None? || r.replacement.value.path != c.path || !w.mayRead(r.replacement.value)
                        || !WorkingTree.ValidKey(r.replacement.value.path) || !w.blobOk(r.replacement.value)))
  {
    var sides := ToList(Find(s.base, c.path)) + ToList(Find(s.line, c.path)) + ToList(Find(s.incoming, c.path));
    FileSides(s, c);
    ClosedSide(w, sides, s, c);
  }

  lemma ClosedSide(w: World, sides: seq<FileEntry>, s: Sides, c: Pending)
    requires AreInScope(sides, s, c)
    ensures SomeClosed(w, sides) <==> Closed(w, s, c)
  {
  }

  /** Some file of the conflict, on whatever side, is closed to the actor. */
  ghost predicate Closed(w: World, s: Sides, c: Pending) {
    exists h :: OnSomeSide(s, h) && InScope(c, h) && !w.mayRead(h)
  }

  // --------------------------------------------------------------- subtrees

  /** The files a subtree decision chooses, before they are checked. */
  function TreeFiles(r: Stored, s: Sides, d: Decision): seq<FileEntry> {
    var base, line, incoming := Below(s.base, r.path), Below(s.line, r.path), Below(s.incoming, r.path);
    GuardAll(if d.TakeBase? then base else if d.TakeLine? then line else if d.TakeIncoming? then incoming else [], base + line + incoming)
  }

  lemma TreeFilesMean(r: Stored, s: Sides, d: Decision, c: Pending)
    requires r.path == c.path && c.kind.FileDirectory? && !d.Custom?
    ensures Means(d, r.replacement, s, c, TreeFiles(r, s, d))
  {
    var base, line, incoming := Below(s.base, c.path), Below(s.line, c.path), Below(s.incoming, c.path);
    var sides := base + line + incoming;
    TreeSides(s, c);
    match d
    case TakeBase => TakesExactly(s.base, base, sides, s, c);
    case TakeLine => TakesExactly(s.line, line, sides, s, c);
    case TakeIncoming => TakesExactly(s.incoming, incoming, sides, s, c);
    case Delete =>
  }

  lemma TreeMeans(w: World, r: Stored, s: Sides, d: Decision, c: Pending)
    requires r.path == c.path && c.kind.FileDirectory? && ResolvedTree(w, r, s, d).Some?
    ensures Means(d, r.replacement, s, c, ResolvedTree(w, r, s, d).value)
  {
    TreeFilesMean(r, s, d, c);
  }

  lemma TreeSides(s: Sides, c: Pending)
    requires c.kind.FileDirectory?
    ensures AreInScope(Below(s.base, c.path) + Below(s.line, c.path) + Below(s.incoming, c.path), s, c)
  {
  }

  /** A decision about a subtree is refused when it is custom or a source is closed to the
      actor. */
  lemma ClosedTreeIsRefused(w: World, r: Stored, s: Sides, d: Decision, c: Pending)
    requires r.path == c.path && c.kind.FileDirectory? && (d.Custom? || !w.sourcesOpen || Closed(w, s, c))
    ensures ResolvedTree(w, r, s, d).None?
  {
    TreeSides(s, c);
    ClosedSide(w, Below(s.base, c.path) + Below(s.line, c.path) + Below(s.incoming, c.path), s, c);
  }

  /** Otherwise it is refused exactly when the files it means are no valid manifest, or one
      of them does not verify. */
  lemma OpenTreeIsVerified(w: World, r: Stored, s: Sides, d: Decision, c: Pending, files: seq<FileEntry>)
    requires r.path == c.path && c.kind.FileDirectory? && !d.Custom? && w.sourcesOpen && !Closed(w, s, c)
    requires files == TreeFiles(r, s, d)
    ensures Means(d, r.replacement, s, c, files)
    ensures ResolvedTree(w, r, s, d) == if ManifestOk(files) && (forall f :: f in files ==> VerifyFile(w, f)) then Some(files) else None
  {
    TreeSides(s, c);
    ClosedSide(w, Below(s.base, c.path) + Below(s.line, c.path) + Below(s.incoming, c.path), s, c);
    TreeFilesMean(r, s, d, c);
  }

  // ------------------------------------------------------------- in the plan

  predicate Applies(r: Stored, c: Pending) {
    r.resolved && r.current && r.path == c.path && r.kind == c.kind
  }

  /** Exactly one stored record applies. */
  ghost predicate OneRecord(stored: seq<Stored>, c: Pending, r: Stored) {
    exists i :: 0 <= i < |stored| && stored[i] == r && Applies(r, c)
                && forall j :: 0 <= j < |stored| && j != i ==> !Applies(stored[j], c)
  }

  lemma {:induction false} RetainNone<T(!new)>(s: seq<T>, keep: T -> bool)
    requires forall i :: 0 <= i < |s| ==> !keep(s[i])
    ensures Retain(s, keep) == []
  {
    if s != [] { RetainNone(s[..|s| - 1], keep); }
  }

  lemma {:induction false} RetainOne<T(!new)>(s: seq<T>, keep: T -> bool, i: nat)
    requires i < |s| && keep(s[i]) && forall j :: 0 <= j < |s| && j != i ==> !keep(s[j])
    ensures Retain(s, keep) == [s[i]]
  {
    var init := s[..|s| - 1];
    if i == |s| - 1 { RetainNone(init, keep); } else { RetainOne(init, keep, i); }
  }

  lemma OneAnswer(stored: seq<Stored>, c: Pending, r: Stored)
    requires OneRecord(stored, c, r)
    ensures Answers(stored, c) == [r]
  {
    var i :| 0 <= i < |stored| && stored[i] == r && Applies(r, c) && forall j :: 0 <= j < |stored| && j != i ==> !Applies(stored[j], c);
    RetainOne(stored, (x: Stored) => x.resolved && x.path == c.path && x.kind == c.kind && x.current, i);
  }

  lemma NoAnswer(stored: seq<Stored>, c: Pending)
    requires forall i :: 0 <= i < |stored| ==> !Applies(stored[i], c)
    ensures Answers(stored, c) == []
  {
    RetainNone(stored, (x: Stored) => x.resolved && x.path == c.path && x.kind == c.kind && x.current);
  }

  lemma {:induction false} RetainTwo<T(!new)>(s: seq<T>, keep: T -> bool, i: nat, j: nat)
    requires i < j < |s| && keep(s[i]) && keep(s[j])
    ensures |Retain(s, keep)| > 1
  {
    var init := s[..|s| - 1];
    if j < |s| - 1 { RetainTwo(init, keep, i, j); } else { assert init[i] in Retain(init, keep); }
  }

  /** Two current records for one conflict, or one that the actor may not see or that
      holds no decision, stop the integration. */
  lemma UnusableRecordFails(w: World, stored: seq<Stored>, s: Sides, c: Pending, i: nat)
    requires i < |stored| && Applies(stored[i], c)
    requires (exists j :: i < j < |stored| && Applies(stored[j], c)) || (OneRecord(stored, c, stored[i]) && (!stored[i].accessible || stored[i].resolution.None?))
    ensures AnswerTo(w, stored, s, c).Failed?
  {
    if j :| i < j < |stored| && Applies(stored[j], c) {
      RetainTwo(stored, (x: Stored) => x.resolved && x.path == c.path && x.kind == c.kind && x.current, i, j);
    } else {
      OneAnswer(stored, c, stored[i]);
    }
  }

  /** Files at or below a conflict's path can only come from its own answer. */
  lemma OnlyItsOwn(w: World, stored: seq<Stored>, s: Sides, plan: Plan, plan': Plan, c: Pending, f: FileEntry)
    requires PlanOk(plan) && Resolves(w, stored, s, plan, plan') && c in plan.conflicts && c.path <= f.path
    ensures f in plan'.merged <==> AnswerTo(w, stored, s, c).Closed? && f in AnswerTo(w, stored, s, c).files
  {
    if f in plan.merged { PlannedApart(plan, f.path, c); }
    if Answered(w, stored, s, plan.conflicts, f) {
      var d :| d in plan.conflicts && AnswerTo(w, stored, s, d).Closed? && f in AnswerTo(w, stored, s, d).files;
      assert d.path in PathsOf(plan);
      AnswerFits(w, stored, s, d);
      PrefixesCompare(c.path, d.path, f.path);
      SamePathSameConflict(plan, c, d);
    }
  }

  lemma PlannedApart(plan: Plan, p: Key, c: Pending)
    requires Apart(plan) && p in FilePaths(plan.merged) && c in plan.conflicts
    ensures !(c.path <= p)
  {
    assert c.path in ConflictPaths(plan.conflicts) && c.path in PathsOf(plan) && p in PathsOf(plan);
    if c.path <= p { EqualOrNested(c.path, p); }
  }

  lemma SamePathSameConflict(plan: Plan, c: Pending, d: Pending)
    requires Apart(plan) && c in plan.conflicts && d in plan.conflicts && (c.path <= d.path || d.path <= c.path)
    ensures c == d
  {
    assert c.path in PathsOf(plan) && d.path in PathsOf(plan);
    if c.path <= d.path { EqualOrNested(c.path, d.path); } else { EqualOrNested(d.path, c.path); }
    var i: nat :| i < |plan.conflicts| && plan.conflicts[i] == c;
    var j: nat :| j < |plan.conflicts| && plan.conflicts[j] == d;
    if i != j { DifferentPaths(plan.conflicts, i, j); }
  }

  lemma DifferentPaths(conflicts: seq<Pending>, i: nat, j: nat)
    requires DistinctBy(conflicts, ConflictPath) && i < |conflicts| && j < |conflicts| && i != j
    ensures conflicts[i].path != conflicts[j].path
  {
    assert ConflictPath(conflicts[i]) != ConflictPath(conflicts[j]);
  }

  /** The one current record of a conflict decides it: the files of the new plan at or
      below the conflict's path are exactly those its decision names. */
  lemma DecisionIsTaken(w: World, stored: seq<Stored>, s: Sides, plan: Plan, plan': Plan, c: Pending, r: Stored)
    requires PlanOk(plan) && UniquePaths(s) && Resolves(w, stored, s, plan, plan')
    requires c in plan.conflicts && OneRecord(stored, c, r) && !AnswerTo(w, stored, s, c).Failed?
    ensures r.accessible && r.resolution.Some? && c !in plan'.conflicts
    ensures exists files :: Means(r.resolution.value, r.replacement, s, c, files)
                            && forall f: FileEntry :: c.path <= f.path ==> (f in plan'.merged <==> f in files)
  {
    OneAnswer(stored, c, r);
    var d, files := r.resolution.value, AnswerTo(w, stored, s, c).files;
    if c.kind.FileDirectory? { TreeMeans(w, r, s, d, c); } else { FileMeans(w, r, s, d, c); }
    forall f: FileEntry | c.path <= f.path
      ensures f in plan'.merged <==> f in files
    {
      OnlyItsOwn(w, stored, s, plan, plan', c, f);
    }
  }

  /** A conflict without a current record stays, and nothing is merged at its path. */
  lemma UndecidedStays(w: World, stored: seq<Stored>, s: Sides, plan: Plan, plan': Plan, c: Pending)
    requires PlanOk(plan) && Resolves(w, stored, s, plan, plan') && c in plan.conflicts
    requires forall i :: 0 <= i < |stored| ==> !Applies(stored[i], c)
    ensures c in plan'.conflicts && forall f :: f in plan'.merged ==> !(c.path <= f.path)
  {
    NoAnswer(stored, c);
    forall f | f in plan'.merged
      ensures !(c.path <= f.path)
    {
      if c.path <= f.path { OnlyItsOwn(w, stored, s, plan, plan', c, f); }
    }
  }
}
