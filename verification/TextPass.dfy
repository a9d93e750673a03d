/** The text-merge pass over the pending conflicts: which conflicts it merges, which it
    leaves, and the contents it generates. */
module TextPass {
  import opened Common
  import opened MergePlan
  import opened Integration
  import TextMerge

  const FILE_LIMIT: nat := TextMerge.FILE_LIMIT
  const TOTAL_LIMIT: nat := 64 * FILE_LIMIT

  /** Reading three blobs as text and merging them: an error, no merge, or its bytes. */
  datatype TextResult = ReadFailed | NoMerge | MergedText(bytes: Bytes)

  /** What text merging takes from elsewhere. */
  datatype Texts = Texts(merge: (FileEntry, FileEntry, FileEntry) -> TextResult, hash: Bytes -> Bytes)

  ghost predicate Bounded(t: Texts) {
    forall b, l, i :: t.merge(b, l, i).MergedText? ==> |t.merge(b, l, i).bytes| <= FILE_LIMIT
  }

  function Flatten(lines: seq<Bytes>): Bytes {
    if lines == [] then [] else Flatten(lines[..|lines| - 1]) + lines[|lines| - 1]
  }

  /** The function the program uses: three blobs read as text, split into lines, and
      merged by the edits that the line diff finds. */
  ghost predicate MergesText(t: Texts, less: (seq<Bytes>, seq<Bytes>) -> bool,
                             diff: (seq<Bytes>, seq<Bytes>) -> seq<TextMerge.Edit<Bytes>>,
                             text: FileEntry -> Option<seq<Bytes>>) {
    forall b, l, i :: t.merge(b, l, i).MergedText? ==>
      && text(b).Some? && text(l).Some? && text(i).Some?
      && var base := text(b).value;
      && var merged := TextMerge.Merged(TextMerge.Style((line: Bytes) => |line|, less), base, diff(base, text(l).value), diff(base, text(i).value));
      && merged.Some? && t.merge(b, l, i).bytes == Flatten(merged.value)
  }

  lemma {:induction false} WidthIsLength(lines: seq<Bytes>)
    ensures TextMerge.Width((line: Bytes) => |line|, lines) == |Flatten(lines)|
  {
    if lines != [] { WidthIsLength(lines[..|lines| - 1]); }
  }

  /** Merged texts respect the file limit. */
  lemma MergedTextIsBounded(t: Texts, less: (seq<Bytes>, seq<Bytes>) -> bool, diff: (seq<Bytes>, seq<Bytes>) -> seq<TextMerge.Edit<Bytes>>, text: FileEntry -> Option<seq<Bytes>>)
    requires MergesText(t, less, diff, text)
    ensures Bounded(t)
  {
    forall b, l, i | t.merge(b, l, i).MergedText?
      ensures |t.merge(b, l, i).bytes| <= FILE_LIMIT
    {
      var base := text(b).value;
      WidthIsLength(TextMerge.Merged(TextMerge.Style((line: Bytes) => |line|, less), base, diff(base, text(l).value), diff(base, text(i).value)).value);
    }
  }

  predicate Alike(f: FileEntry, base: FileEntry) {
    !f.symlink && f.bytes <= FILE_LIMIT && f.executable == base.executable && f.policy == base.policy
  }

  datatype Sources = Sources(base: Manifest, line: Manifest, incoming: Manifest)

  predicate Eligible(pending: Pending, m: Sources, total: nat) {
    && pending.kind.BothModified?
    && pending.path in m.base && pending.path in m.line && pending.path in m.incoming
    && Alike(m.base[pending.path], m.base[pending.path]) && Alike(m.line[pending.path], m.base[pending.path])
    && Alike(m.incoming[pending.path], m.base[pending.path])
    && total + FILE_LIMIT <= TOTAL_LIMIT
  }

  function Attempt(t: Texts, pending: Pending, m: Sources, total: nat): TextResult {
    if !Eligible(pending, m, total) then NoMerge
    else t.merge(m.base[pending.path], m.line[pending.path], m.incoming[pending.path])
  }

  type Generated = map<Bytes, Bytes>

  // --------------------------------------------- what happens to each conflict

  /** The bytes merged before conflict `i` is looked at. */
  ghost function TotalBefore(t: Texts, m: Sources, conflicts: seq<Pending>, i: nat): nat
    requires i <= |conflicts|
  {
    if i == 0 then 0
    else
      var total := TotalBefore(t, m, conflicts, i - 1);
      var outcome := Attempt(t, conflicts[i - 1], m, total);
      total + if outcome.MergedText? then |outcome.bytes| else 0
  }

  ghost function OutcomeAt(t: Texts, m: Sources, conflicts: seq<Pending>, i: nat): TextResult
    requires i < |conflicts|
  {
    Attempt(t, conflicts[i], m, TotalBefore(t, m, conflicts, i))
  }

  /** Whether one of the first `i` conflicts is `c` and could not be merged. */
  ghost predicate PendingBefore(t: Texts, m: Sources, conflicts: seq<Pending>, i: nat, c: Pending)
    requires i <= |conflicts|
  {
    i > 0 && (PendingBefore(t, m, conflicts, i - 1, c) || (conflicts[i - 1] == c && OutcomeAt(t, m, conflicts, i - 1).NoMerge?))
  }

  /** Whether one of the first `i` conflicts was merged to `content`. */
  ghost predicate ContentBefore(t: Texts, m: Sources, conflicts: seq<Pending>, i: nat, content: Bytes)
    requires i <= |conflicts|
  {
    i > 0 && (ContentBefore(t, m, conflicts, i - 1, content) || OutcomeAt(t, m, conflicts, i - 1) == MergedText(content))
  }

  /** Whether one of the first `i` conflicts was merged into the file `f`: the base entry
      with the merged content of three eligible entries. */
  ghost predicate MergedBefore(t: Texts, m: Sources, conflicts: seq<Pending>, i: nat, f: FileEntry)
    requires i <= |conflicts|
  {
    i > 0 && (MergedBefore(t, m, conflicts, i - 1, f)
              || (OutcomeAt(t, m, conflicts, i - 1).MergedText?
                  && IsMergedFile(t, m, conflicts[i - 1], OutcomeAt(t, m, conflicts, i - 1).bytes, f)))
  }

  predicate IsMergedFile(t: Texts, m: Sources, c: Pending, content: Bytes, f: FileEntry) {
    c.path in m.base && f == m.base[c.path].(hash := t.hash(content), bytes := |content|)
  }

  /** The pass has handled the first `i` conflicts: exactly those that could not be
      merged are left, exactly the merged ones have a file, and exactly their contents
      are kept, each under its hash. */
  ghost predicate Passed(t: Texts, m: Sources, plan: Plan, i: nat, merged: seq<FileEntry>, unresolved: seq<Pending>, generated: Generated) {
    && i <= |plan.conflicts| && plan.merged <= merged
    && (forall c :: c in unresolved <==> PendingBefore(t, m, plan.conflicts, i, c))
    && (forall f :: f in merged <==> f in plan.merged || MergedBefore(t, m, plan.conflicts, i, f))
    && (forall content :: ContentBefore(t, m, plan.conflicts, i, content) ==> t.hash(content) in generated)
    && (forall h :: h in generated ==> t.hash(generated[h]) == h && ContentBefore(t, m, plan.conflicts, i, generated[h]))
  }

  lemma PassNoMerge(t: Texts, m: Sources, plan: Plan, i: nat, merged: seq<FileEntry>, unresolved: seq<Pending>, generated: Generated)
    requires Passed(t, m, plan, i, merged, unresolved, generated) && i < |plan.conflicts|
    requires OutcomeAt(t, m, plan.conflicts, i).NoMerge?
    ensures Passed(t, m, plan, i + 1, merged, unresolved + [plan.conflicts[i]], generated)
  {
  }

  lemma PassMerged(t: Texts, m: Sources, plan: Plan, i: nat, merged: seq<FileEntry>, unresolved: seq<Pending>, generated: Generated, content: Bytes, f: FileEntry)
    requires Passed(t, m, plan, i, merged, unresolved, generated) && i < |plan.conflicts|
    requires OutcomeAt(t, m, plan.conflicts, i) == MergedText(content) && IsMergedFile(t, m, plan.conflicts[i], content, f)
    ensures Passed(t, m, plan, i + 1, merged + [f], unresolved, generated[f.hash := content])
  {
  }

  /** A merged file carries the hash and length of a generated content, and is no link. */
  lemma {:induction false} MergedHasContent(t: Texts, m: Sources, conflicts: seq<Pending>, i: nat, f: FileEntry) returns (content: Bytes)
    requires i <= |conflicts| && MergedBefore(t, m, conflicts, i, f)
    ensures ContentBefore(t, m, conflicts, i, content) && f.hash == t.hash(content) && f.bytes == |content| && !f.symlink
  {
    if MergedBefore(t, m, conflicts, i - 1, f) {
      content := MergedHasContent(t, m, conflicts, i - 1, f);
    } else {
      content := OutcomeAt(t, m, conflicts, i - 1).bytes;
    }
  }

  /** Three entries that differ in content alone, none of them a link or over a MiB. */
  predicate DifferInContent(b: FileEntry, l: FileEntry, i: FileEntry) {
    && !b.symlink && !l.symlink && !i.symlink
    && b.bytes <= 0x10_0000 && l.bytes <= 0x10_0000 && i.bytes <= 0x10_0000
    && b.executable == l.executable == i.executable && b.policy == l.policy == i.policy
  }

  /** A text merge is tried exactly at a conflict of two modifications in which all three
      sides differ in content alone, while less than 63 MiB have been merged. */
  lemma EligibleExactly(pending: Pending, m: Sources, total: nat)
    ensures Eligible(pending, m, total) <==>
      && pending.kind == BothModified
      && pending.path in m.base && pending.path in m.line && pending.path in m.incoming
      && DifferInContent(m.base[pending.path], m.line[pending.path], m.incoming[pending.path])
      && total <= 63 * 0x10_0000
  {
    assert FILE_LIMIT == 0x10_0000 && TOTAL_LIMIT == 64 * 0x10_0000;
  }

  /** Where a file of the pass comes from: a conflict that all three manifests have a
      file for, and the merge of the base's, the line's and the incoming one's content, in
      that order; all but hash and length is the base's. */
  lemma {:induction false} MergedFileIs(t: Texts, m: Sources, conflicts: seq<Pending>, i: nat, f: FileEntry) returns (c: Pending)
    requires i <= |conflicts| && MergedBefore(t, m, conflicts, i, f)
    ensures c in conflicts[..i] && c.kind == BothModified && c.path in m.base && c.path in m.line && c.path in m.incoming
    ensures var b, l, n := m.base[c.path], m.line[c.path], m.incoming[c.path];
            && DifferInContent(b, l, n) && t.merge(b, l, n).MergedText?
            && f.path == b.path && f.policy == b.policy && f.executable == b.executable && !f.symlink
            && f.hash == t.hash(t.merge(b, l, n).bytes) && f.bytes == |t.merge(b, l, n).bytes|
  {
    if MergedBefore(t, m, conflicts, i - 1, f) {
      c := MergedFileIs(t, m, conflicts, i - 1, f);
      assert forall x :: x in conflicts[..i - 1] ==> x in conflicts[..i];
    } else {
      c := conflicts[i - 1];
      assert conflicts[..i][i - 1] == c;
    }
  }

  // --------------------------------------------------------------- the pass

  lemma OneFileFits(merged: seq<FileEntry>, c: Pending, rest: seq<Pending>, f: FileEntry)
    requires PlanOk(Plan(merged, [c] + rest)) && f.path == c.path
    ensures PlanOk(Plan(merged + [f], rest))
  {
    HeadIsValid(merged, c, rest);
    ReplaceKeepsOk(merged, c, rest, [f]);
  }

  lemma MergedTextFits(merged: seq<FileEntry>, todo: seq<Pending>, unresolved: seq<Pending>, f: FileEntry)
    requires todo != [] && PlanOk(Plan(merged, todo + unresolved)) && f.path == todo[0].path
    ensures PlanOk(Plan(merged + [f], todo[1..] + unresolved))
  {
    assert todo + unresolved == [todo[0]] + (todo[1..] + unresolved);
    OneFileFits(merged, todo[0], todo[1..] + unresolved, f);
  }

  lemma StillPending(merged: seq<FileEntry>, todo: seq<Pending>, unresolved: seq<Pending>)
    requires todo != [] && PlanOk(Plan(merged, todo + unresolved))
    ensures PlanOk(Plan(merged, todo[1..] + (unresolved + [todo[0]])))
  {
    var c, rest := todo[0], todo[1..] + unresolved;
    assert todo + unresolved == [c] + rest;
    RotateKeepsOk(merged, c, rest);
    assert rest + [c] == todo[1..] + (unresolved + [c]);
  }

  /** Merges the text of each eligible conflict until the total is used up; fails
      exactly when a source it has to read fails. */
  method ApplyTexts(t: Texts, m: Sources, plan: Plan) returns (r: Option<Plan>, generated: Generated, total: nat)
    requires Keyed(m.base)
    ensures r.None? <==> exists i :: 0 <= i < |plan.conflicts| && OutcomeAt(t, m, plan.conflicts, i).ReadFailed?
    ensures r.Some? ==> Passed(t, m, plan, |plan.conflicts|, r.value.merged, r.value.conflicts, generated)
    ensures r.Some? && PlanOk(plan) ==> PlanOk(r.value)
    ensures Bounded(t) ==> total <= TOTAL_LIMIT
  {
    var merged, unresolved := plan.merged, [];
    generated, total := map[], 0;
    assert Plan(merged, plan.conflicts[0..] + unresolved) == plan;
    for i := 0 to |plan.conflicts|
      invariant Passing(t, m, plan, i, merged, unresolved, generated, total)
      invariant forall j :: 0 <= j < i ==> !OutcomeAt(t, m, plan.conflicts, j).ReadFailed?
    {
      var pending := plan.conflicts[i];
      var outcome := Attempt(t, pending, m, total);
      assert outcome == OutcomeAt(t, m, plan.conflicts, i);
      match outcome
      case ReadFailed =>
        return None, generated, total;
      case MergedText(content) =>
        var file := m.base[pending.path].(hash := t.hash(content), bytes := |content|);
        PassingMerged(t, m, plan, i, merged, unresolved, generated, total, content, file);
        total := total + |content|;
        generated := generated[file.hash := content];
        merged := merged + [file];
      case NoMerge =>
        PassingNoMerge(t, m, plan, i, merged, unresolved, generated, total);
        unresolved := unresolved + [pending];
    }
    assert plan.conflicts[|plan.conflicts|..] + unresolved == unresolved;
    return Some(Plan(merged, unresolved)), generated, total;
  }

  ghost predicate Passing(t: Texts, m: Sources, plan: Plan, i: nat, merged: seq<FileEntry>, unresolved: seq<Pending>, generated: Generated, total: nat) {
    && Passed(t, m, plan, i, merged, unresolved, generated) && total == TotalBefore(t, m, plan.conflicts, i)
    && (PlanOk(plan) ==> PlanOk(Plan(merged, plan.conflicts[i..] + unresolved)))
    && (Bounded(t) ==> total <= TOTAL_LIMIT)
  }

  lemma PassingMerged(t: Texts, m: Sources, plan: Plan, i: nat, merged: seq<FileEntry>, unresolved: seq<Pending>, generated: Generated, total: nat, content: Bytes, f: FileEntry)
    requires Keyed(m.base) && Passing(t, m, plan, i, merged, unresolved, generated, total) && i < |plan.conflicts|
    requires OutcomeAt(t, m, plan.conflicts, i) == MergedText(content) && IsMergedFile(t, m, plan.conflicts[i], content, f)
    ensures Passing(t, m, plan, i + 1, merged + [f], unresolved, generated[f.hash := content], total + |content|)
  {
    PassMerged(t, m, plan, i, merged, unresolved, generated, content, f);
    assert plan.conflicts[i..][0] == plan.conflicts[i] && plan.conflicts[i..][1..] == plan.conflicts[i + 1..];
    if PlanOk(plan) { MergedTextFits(merged, plan.conflicts[i..], unresolved, f); }
  }

  lemma PassingNoMerge(t: Texts, m: Sources, plan: Plan, i: nat, merged: seq<FileEntry>, unresolved: seq<Pending>, generated: Generated, total: nat)
    requires Passing(t, m, plan, i, merged, unresolved, generated, total) && i < |plan.conflicts|
    requires OutcomeAt(t, m, plan.conflicts, i).NoMerge?
    ensures Passing(t, m, plan, i + 1, merged, unresolved + [plan.conflicts[i]], generated, total)
  {
    PassNoMerge(t, m, plan, i, merged, unresolved, generated);
    assert plan.conflicts[i..][0] == plan.conflicts[i] && plan.conflicts[i..][1..] == plan.conflicts[i + 1..];
    if PlanOk(plan) { StillPending(merged, plan.conflicts[i..], unresolved); }
  }
}
