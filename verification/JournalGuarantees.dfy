/** What a journal guarantees, told from trees and journaled bytes alone: at every moment
    of every history each path is as before or as after, and in the end as after. */
module JournalGuarantees {
  import opened Common
  import opened WorkingTree
  import opened Publication
  import opened Transaction

  /** One side of an update: bytes, and the flags it states. */
  datatype Side = Side(bytes: Option<Bytes>, executable: Option<bool>, symlink: Option<bool>)

  function BeforeSide(u: Update): Side {
    Side(u.before, u.beforeExecutable, u.beforeSymlink)
  }

  function AfterSide(u: Update): Side {
    Side(u.after, u.afterExecutable, u.afterSymlink)
  }

  /** The leaf at a path is the one the side describes; without bytes, there is none. */
  predicate LeafIs(t: Tree, p: Path, side: Side) {
    if !IsLeaf(t, p) then side.bytes.None?
    else
      match t[p]
      case File(bytes, executable) =>
        side.bytes == Some(bytes) && side.symlink != Some(true) && (side.executable.Some? ==> side.executable.value == executable)
      case Link(target) =>
        side.bytes == Some(target) && side.symlink != Some(false) && side.executable != Some(true)
  }

  lemma ReadingIsLeaf(t: Tree, plan: Plan, k: Path, side: Side)
    requires CurrentAt(t, plan, k).Some? && CurrentAt(t, plan, k).value.Matches(side.bytes, side.executable, side.symlink)
    ensures LeafIs(t, k, side)
  {
  }

  /** Commit goes ahead only when every path is as its update says it was. */
  lemma CommitExpects(fold: Name -> Name, t: Tree, u: Updates, k: Path)
    requires Committable(fold, t, u) && k in u
    ensures LeafIs(t, k, BeforeSide(u[k])) && ValidKey(k)
  {
    assert KeyAccepted(t, u, k, true);
    ReadingIsLeaf(t, PlanOf(u), k, BeforeSide(u[k]));
  }

  lemma RecoverableExpects(fold: Name -> Name, t: Tree, u: Updates, k: Path)
    requires Validated(fold, t, u) && k in u
    ensures LeafIs(t, k, BeforeSide(u[k])) || LeafIs(t, k, AfterSide(u[k]))
  {
    if IsBefore(CurrentAt(t, PlanOf(u), k), u[k]) {
      ReadingIsLeaf(t, PlanOf(u), k, BeforeSide(u[k]));
    } else {
      ReadingIsLeaf(t, PlanOf(u), k, AfterSide(u[k]));
    }
  }

  lemma DoneIsAfter(t: Tree, u: Updates, k: Path)
    requires WorkDone(t, u) && k in u
    ensures LeafIs(t, k, AfterSide(u[k]))
  {
    assert Finished(t, u, k);
    ReadingIsLeaf(t, PlanOf(u), k, AfterSide(u[k]));
  }

  /** A finished publication leaves each path as its update says, with an unstated
      executable bit as it was, and no other file or link changed or added. */
  lemma FinalLeaves(t: Tree, u: Updates, t': Tree, k: Path)
    requires ValidUpdates(u) && IsFinal(t, u, t')
    ensures k in u ==> LeafIs(t', k, AfterSide(u[k]))
    ensures k in u && u[k].afterExecutable.None? && k in t' && t'[k].File? ==>
      t'[k].executable == (k in t && t[k].File? && t[k].executable)
    ensures k in u && u[k].afterSymlink.None? && k in t' && t'[k].Link? ==> k in t && t[k] == t'[k]
    ensures k !in u && IsLeaf(t', k) ==> k in t && t[k] == t'[k]
  {
    assert NodeAt(t', k) == FinalAt(t, u, k);
    if k in u { assert ValidUpdate(u[k]); }
  }

  /** The records are in place, and nothing else in the metadata directory differs. */
  ghost predicate Installed(meta: Tree, records: Records, meta': Tree) {
    && (forall r :: r in records ==> r in meta' && meta'[r].File? && meta'[r].bytes == records[r])
    && SameElsewhere(meta, records, meta')
  }

  ghost predicate SameElsewhere(meta: Tree, records: Records, meta': Tree) {
    forall p :: p !in records ==> (p in meta' <==> p in meta) && (p in meta ==> meta'[p] == meta[p])
  }

  lemma FinalMetaElsewhere(meta: Tree, records: Records, meta': Tree)
    requires FinalMeta(meta', records) == FinalMeta(meta, records)
    ensures SameElsewhere(meta, records, meta')
  {
    forall p | p !in records
      ensures (p in meta' <==> p in meta) && (p in meta ==> meta'[p] == meta[p])
    {
      var a, b := FinalMeta(meta', records), FinalMeta(meta, records);
      assert p in a <==> p in meta';
      assert p in b <==> p in meta;
      assert p in meta ==> a[p] == b[p];
    }
  }

  /** At every moment of every history of a committed journal, wherever it crashed: each
      journaled path is as before or as after; every other file and link is intact; and
      no record differs before all paths are as after. */
  lemma EveryMoment(fold: Name -> Name, run: seq<Disk>, k: Path)
    requires IsDiskRun(run) && run[0].journal.Some? && Recoverable(fold, run[0])
    ensures var u, records, t, d := run[0].journal.value.working, run[0].journal.value.records, run[0].tree, run[|run| - 1];
            && (k in u ==> LeafIs(d.tree, k, BeforeSide(u[k])) || LeafIs(d.tree, k, AfterSide(u[k])))
            && (k !in u && IsLeaf(t, k) ==> k in d.tree && d.tree[k] == t[k])
            && (k in u && d.meta != run[0].meta ==> LeafIs(d.tree, k, AfterSide(u[k])))
            && SameElsewhere(run[0].meta, records, d.meta)
  {
    var j, d := run[0].journal.value, run[|run| - 1];
    CrashConvergence(fold, run);
    if d.journal.Some? {
      if k in j.working {
        RecoverableExpects(fold, d.tree, j.working, k);
        if d.meta != run[0].meta { DoneIsAfter(d.tree, j.working, k); }
      }
      FinalMetaElsewhere(run[0].meta, j.records, d.meta);
    } else {
      FinalLeaves(run[0].tree, j.working, d.tree, k);
    }
  }

  /** A history that has cleared its journal has put every path into its after state,
      installed every record, and changed nothing else. */
  lemma JournalIsFulfilled(fold: Name -> Name, run: seq<Disk>, k: Path)
    requires IsDiskRun(run) && run[0].journal.Some? && Recoverable(fold, run[0]) && run[|run| - 1].journal.None?
    ensures var u, records, t, d := run[0].journal.value.working, run[0].journal.value.records, run[0].tree, run[|run| - 1];
            && (k in u ==> LeafIs(d.tree, k, AfterSide(u[k])))
            && (k !in u ==> (IsLeaf(d.tree, k) <==> IsLeaf(t, k)) && (IsLeaf(t, k) ==> d.tree[k] == t[k]))
            && Installed(run[0].meta, records, d.meta)
  {
    CrashConvergence(fold, run);
    FinalLeaves(run[0].tree, run[0].journal.value.working, run[|run| - 1].tree, k);
  }

  // ----------------------------------------------------------- portable names

  /** No two entries of one directory have names that fold alike. */
  ghost predicate Portable(fold: Name -> Name, t: Tree) {
    forall p, q :: p in t && q in t ==> !Twins(fold, p, q)
  }

  predicate Twins(fold: Name -> Name, p: Path, q: Path) {
    p != [] && q != [] && p != q && Parent(p) == Parent(q) && fold(p[|p| - 1]) == fold(q[|q| - 1])
  }

  /** An entry of the final tree was there before, or is on the way to a created key. */
  lemma FinalEntry(t: Tree, u: Updates, t': Tree, p: Path) returns (c: Path)
    requires IsFinal(t, u, t') && p in t' && forall k :: k in u ==> ValidKey(k)
    ensures p in t || (Creates(u, c) && 0 < |p| <= |c| && c[..|p|] == p)
  {
    assert NodeAt(t', p) == FinalAt(t, u, p);
    c := p;
    if p !in t && !Creates(u, p) {
      c :| Creates(u, c) && Under(p, c);
    }
  }

  lemma PlannedNotTwin(fold: Name -> Name, t: Tree, u: Updates, c: Path, p: Path, q: Path)
    requires Validated(fold, t, u) && Creates(u, c) && 0 < |p| <= |c| && c[..|p|] == p && q in t
    ensures !Twins(fold, p, q)
  {
    if q != [] && Parent(p) == Parent(q) && fold(p[|p| - 1]) == fold(q[|q| - 1]) {
      assert |q| == |Parent(q)| + 1 && |p| == |Parent(p)| + 1;
      assert Parent(p) == c[..|q| - 1] && p[|p| - 1] == c[|q| - 1];
      assert q == c[..|q|];
    }
  }

  lemma PlannedNotTwins(fold: Name -> Name, u: Updates, b: Path, c: Path, p: Path, q: Path)
    requires AliasFree(fold, u.Keys) && Creates(u, b) && Creates(u, c)
    requires 0 < |p| <= |b| && b[..|p|] == p && 0 < |q| <= |c| && c[..|q|] == q
    ensures !Twins(fold, p, q)
  {
    if Parent(p) == Parent(q) && fold(p[|p| - 1]) == fold(q[|q| - 1]) {
      SameFold(fold, p, q);
    }
  }

  lemma SameFold(fold: Name -> Name, p: Path, q: Path)
    requires p != [] && q != [] && Parent(p) == Parent(q) && fold(p[|p| - 1]) == fold(q[|q| - 1])
    ensures FoldPath(fold, p) == FoldPath(fold, q)
  {
    assert |p| == |Parent(p)| + 1 && |q| == |Parent(q)| + 1;
    assert forall i :: 0 <= i < |p| - 1 ==> p[i] == Parent(p)[i] && q[i] == Parent(q)[i];
  }

  /** Publication keeps a tree portable: no created file or directory is a second spelling
      of another entry, planned or already there. */
  lemma FinalIsPortable(fold: Name -> Name, t: Tree, u: Updates, t': Tree)
    requires Validated(fold, t, u) && IsFinal(t, u, t') && Portable(fold, t)
    ensures Portable(fold, t')
  {
    forall p, q | p in t' && q in t'
      ensures !Twins(fold, p, q)
    {
      var b := FinalEntry(t, u, t', p);
      var c := FinalEntry(t, u, t', q);
      if p in t && q in t {
      } else if q in t {
        PlannedNotTwin(fold, t, u, b, p, q);
      } else if p in t {
        PlannedNotTwin(fold, t, u, c, q, p);
      } else {
        PlannedNotTwins(fold, u, b, c, p, q);
      }
    }
  }

  // ------------------------------------------------------------- guarded names

  predicate Letter(c: char, lower: char, upper: char) {
    c == lower || c == upper
  }

  predicate IsGit(n: Name) {
    |n| == 4 && n[0] == '.' && Letter(n[1], 'g', 'G') && Letter(n[2], 'i', 'I') && Letter(n[3], 't', 'T')
  }

  predicate IsRgit(n: Name) {
    |n| == 5 && n[0] == '.' && Letter(n[1], 'r', 'R') && Letter(n[2], 'g', 'G') && Letter(n[3], 'i', 'I') && Letter(n[4], 't', 'T')
  }

  lemma LowerGit(n: Name)
    ensures Lower(n) == ".git" <==> IsGit(n)
  {
    var l := Lower(n);
    assert |l| == |n|;
    if |n| == 4 {
      assert l == ".git" <==> l[0] == '.' && l[1] == 'g' && l[2] == 'i' && l[3] == 't';
    }
  }

  lemma LowerRgit(n: Name)
    ensures Lower(n) == ".rgit" <==> IsRgit(n)
  {
    var l := Lower(n);
    assert |l| == |n|;
    if |n| == 5 {
      assert l == ".rgit" <==> l[0] == '.' && l[1] == 'r' && l[2] == 'g' && l[3] == 'i' && l[4] == 't';
    }
  }

  /** Working paths are exactly the nonempty ones without an empty, `.` or `..` component,
      a slash inside one, or one that spells the repository's own directories in any case. */
  lemma GuardedNames(p: Path)
    ensures ValidKey(p) <==>
      p != [] && forall i :: 0 <= i < |p| ==>
        p[i] != "" && p[i] != "." && p[i] != ".." && '/' !in p[i] && !IsGit(p[i]) && !IsRgit(p[i])
  {
    forall i | 0 <= i < |p|
      ensures (Lower(p[i]) == ".git" <==> IsGit(p[i])) && (Lower(p[i]) == ".rgit" <==> IsRgit(p[i]))
    {
      LowerGit(p[i]);
      LowerRgit(p[i]);
    }
  }
}
