/** Publication of working updates as a step relation on trees.

    One step is one file-system mutation.  Its guard is what the program has just
    read back from the tree, so a crash followed by a new recovery is nothing but
    a pause between two steps. */
module Publication {
  import opened Common
  import opened WorkingTree

  datatype Step = DeleteLeaf(k: Path) | RemoveDir(c: Path, d: Path) | MakeDir(c: Path, d: Path) | PutLeaf(c: Path)

  /** The key reads as its after state. */
  ghost predicate Finished(t: Tree, u: Updates, k: Path) {
    k in u && IsAfter(CurrentAt(t, PlanOf(u), k), u[k])
  }

  /** All deletions are done. */
  ghost predicate LeavesDone(t: Tree, u: Updates) {
    forall k :: k in u && u[k].after.None? ==> Finished(t, u, k)
  }

  /** All updates are done. */
  ghost predicate WorkDone(t: Tree, u: Updates) {
    forall k :: k in u ==> Finished(t, u, k)
  }

  ghost predicate Due(t: Tree, u: Updates, k: Path) {
    && k in u
    && !Finished(t, u, k)
    && IsBefore(CurrentAt(t, PlanOf(u), k), u[k])
  }

  ghost predicate Enabled(t: Tree, u: Updates, s: Step) {
    match s
    case DeleteLeaf(k) => Due(t, u, k) && u[k].after.None?
    case RemoveDir(c, d) =>
      && LeavesDone(t, u) && Due(t, u, c) && u[c].after.Some?
      && (d == c || Under(c, d)) && d != [] && IsDir(t, d) && IsEmptyDir(t, d)
    case MakeDir(c, d) =>
      && LeavesDone(t, u) && Due(t, u, c) && u[c].after.Some?
      && d != [] && Under(d, c) && d !in t && IsDir(t, Parent(d))
    case PutLeaf(c) =>
      && LeavesDone(t, u) && Due(t, u, c) && u[c].after.Some?
      && c != [] && IsDir(t, Parent(c)) && !IsDir(t, c)
  }

  ghost function Apply(t: Tree, u: Updates, s: Step): Tree
    requires s.PutLeaf? ==> Creates(u, s.c)
  {
    match s
    case DeleteLeaf(k) => t - {k}
    case RemoveDir(_, d) => t - {d}
    case MakeDir(_, d) => t[d := Dir]
    case PutLeaf(c) => t[c := AfterNode(NodeAt(t, c), u[c])]
  }

  // ------------------------------------------------------- tree structure

  lemma UnderTrans(a: Path, b: Path, c: Path)
    requires Under(a, b) && Under(b, c)
    ensures Under(a, c)
  {
    assert c[..|a|] == c[..|b|][..|a|];
  }

  lemma UnderParent(a: Path, b: Path)
    requires b != [] && Under(a, b)
    ensures a == Parent(b) || Under(a, Parent(b))
  {
    assert Parent(b)[..|a|] == b[..|a|];
    if |a| == |b| - 1 { assert a == Parent(b); }
  }

  lemma StepKeepsForm(t: Tree, u: Updates, s: Step)
    requires WellFormed(t) && Enabled(t, u, s)
    ensures WellFormed(Apply(t, u, s))
  {
    var t' := Apply(t, u, s);
    forall p, q | q in t' && Under(p, q)
      ensures IsDir(t', p)
    {
      match s
      case DeleteLeaf(k) =>
        assert IsLeaf(t, k);
      case RemoveDir(_, d) =>
      case MakeDir(_, d) =>
        if q == d { UnderParent(p, d); }
      case PutLeaf(c) =>
        if q == c { UnderParent(p, c); }
    }
    if s.DeleteLeaf? || s.RemoveDir? { assert [] !in t'; }
  }

  lemma StepUntouched(t: Tree, u: Updates, s: Step)
    requires WellFormed(t) && Enabled(t, u, s)
    ensures Untouched(t, Apply(t, u, s), u)
  {
  }

  // ------------------------------------------ validation survives each step

  /** Deleting a tracked leaf leaves every other key as it was. */
  lemma DeleteKeepsCurrent(t: Tree, u: Updates, k: Path, j: Path)
    requires WellFormed(t) && j in u && CurrentAt(t, PlanOf(u), j).Some?
    requires Enabled(t, u, DeleteLeaf(k))
    ensures var c' := CurrentAt(t - {k}, PlanOf(u), j);
            if j == k then c' == Some(ABSENT) else c' == CurrentAt(t, PlanOf(u), j)
  {
    var plan := PlanOf(u);
    var t' := t - {k};
    assert IsLeaf(t, k);
    assert UnsafeParent(t', plan, j) ==> UnsafeParent(t, plan, j);
  }

  lemma RemoveDirKeepsCurrent(t: Tree, u: Updates, c: Path, d: Path, j: Path)
    requires WellFormed(t) && j in u && CurrentAt(t, PlanOf(u), j).Some?
    requires Enabled(t, u, RemoveDir(c, d))
    ensures CurrentAt(t - {d}, PlanOf(u), j) == CurrentAt(t, PlanOf(u), j)
  {
    var plan := PlanOf(u);
    var t' := t - {d};
    assert UnsafeParent(t', plan, j) ==> UnsafeParent(t, plan, j);
  }

  lemma MakeDirKeepsCurrent(fold: Name -> Name, t: Tree, u: Updates, c: Path, d: Path, j: Path)
    requires WellFormed(t) && j in u && CurrentAt(t, PlanOf(u), j).Some?
    requires ShapeOk(fold, PlanOf(u))
    requires Enabled(t, u, MakeDir(c, d))
    ensures CurrentAt(t[d := Dir], PlanOf(u), j) == CurrentAt(t, PlanOf(u), j)
  {
    var plan := PlanOf(u);
    var t' := t[d := Dir];
    assert UnsafeParent(t', plan, j) ==> UnsafeParent(t, plan, j);
    assert c in AfterKeys(plan);
    if plan[j].after {
      assert j in AfterKeys(plan);
      if Under(j, d) { UnderTrans(j, d, c); }
      assert j != d && !Under(j, d);
    }
  }

  lemma PutLeafKeepsCurrent(fold: Name -> Name, t: Tree, u: Updates, c: Path, j: Path)
    requires WellFormed(t) && j in u && CurrentAt(t, PlanOf(u), j).Some?
    requires ShapeOk(fold, PlanOf(u)) && ValidUpdates(u)
    requires Enabled(t, u, PutLeaf(c))
    ensures var t' := Apply(t, u, PutLeaf(c));
            var c' := CurrentAt(t', PlanOf(u), j);
            if j == c then IsAfter(c', u[j])
            else c' == CurrentAt(t, PlanOf(u), j)
  {
    var plan := PlanOf(u);
    var t' := Apply(t, u, PutLeaf(c));
    assert c in AfterKeys(plan) && (plan[j].after <==> j in AfterKeys(plan));
    if Under(c, j) {
      assert Blocks(plan, c, j);
    }
    assert UnsafeParent(t', plan, j) ==> UnsafeParent(t, plan, j);
    assert forall p :: IsLeaf(t, p) && Under(p, j) ==> Blocks(plan, p, j);
  }

  /** A planned prefix is no alternate spelling of any other planned prefix. */
  lemma PlannedEntryIsNoAlias(fold: Name -> Name, plan: Plan, c: Path, d: Path, k: Path)
    requires ShapeOk(fold, plan) && c in plan && k in plan
    requires d != [] && (d == c || Under(d, c)) && |d| <= |k|
    requires Parent(d) == k[..|d| - 1] && fold(d[|d| - 1]) == fold(k[|d| - 1])
    ensures d == k[..|d|]
  {
    var n := |d|;
    assert d == c[..n];
    assert FoldPath(fold, c[..n]) == FoldPath(fold, k[..n]) by {
      forall i | 0 <= i < n
        ensures fold(c[..n][i]) == fold(k[..n][i])
      {
        if i < n - 1 { assert d[i] == Parent(d)[i] == k[i]; }
      }
    }
  }

  lemma StepKeepsExisting(fold: Name -> Name, t: Tree, u: Updates, s: Step)
    requires WellFormed(t) && ShapeOk(fold, PlanOf(u)) && ExistingOk(fold, t, PlanOf(u))
    requires Enabled(t, u, s)
    ensures ExistingOk(fold, Apply(t, u, s), PlanOf(u))
  {
    var plan := PlanOf(u);
    var t' := Apply(t, u, s);
    forall k, q | k in plan && q in t' && q != [] && |q| <= |k|
                  && Parent(q) == k[..|q| - 1] && fold(q[|q| - 1]) == fold(k[|q| - 1])
      ensures q == k[..|q|]
    {
      if s.MakeDir? && q == s.d {
        PlannedEntryIsNoAlias(fold, plan, s.c, q, k);
      } else if s.PutLeaf? && q == s.c {
        PlannedEntryIsNoAlias(fold, plan, s.c, q, k);
      }
    }
    forall k, p | k in plan && IsLeaf(t', p) && Under(p, k)
      ensures p in plan && (plan[p].before || plan[p].after)
    {
      assert IsLeaf(t, p) || (s.PutLeaf? && p == s.c);
    }
  }

  /** A key's reading after a step: unchanged, or its after state. */
  lemma StepKeepsCurrent(fold: Name -> Name, t: Tree, u: Updates, s: Step, j: Path)
    requires WellFormed(t) && ShapeOk(fold, PlanOf(u)) && ValidUpdates(u)
    requires j in u && CurrentAt(t, PlanOf(u), j).Some? && Enabled(t, u, s)
    ensures var c' := CurrentAt(Apply(t, u, s), PlanOf(u), j);
            c' == CurrentAt(t, PlanOf(u), j) || IsAfter(c', u[j])
  {
    match s
    case DeleteLeaf(k) => DeleteKeepsCurrent(t, u, k, j);
    case RemoveDir(c, d) => RemoveDirKeepsCurrent(t, u, c, d, j);
    case MakeDir(c, d) => MakeDirKeepsCurrent(fold, t, u, c, d, j);
    case PutLeaf(c) => PutLeafKeepsCurrent(fold, t, u, c, j);
  }

  lemma StepKeepsValidated(fold: Name -> Name, t: Tree, u: Updates, s: Step)
    requires Validated(fold, t, u) && Enabled(t, u, s)
    ensures Validated(fold, Apply(t, u, s), u)
  {
    StepKeepsForm(t, u, s);
    StepKeepsExisting(fold, t, u, s);
    forall j | j in u
      ensures var c' := CurrentAt(Apply(t, u, s), PlanOf(u), j); IsBefore(c', u[j]) || IsAfter(c', u[j])
    {
      StepKeepsCurrent(fold, t, u, s, j);
    }
  }

  // --------------------------------------------- the target is an invariant

  /** A leaf in the way of a created key is one the plan deletes. */
  lemma LeafAboveCreated(fold: Name -> Name, t: Tree, u: Updates, p: Path, c: Path)
    requires Validated(fold, t, u) && IsLeaf(t, p) && Creates(u, c) && Under(p, c)
    ensures p in u && u[p].after.None?
  {
    var plan := PlanOf(u);
    assert c in AfterKeys(plan);
    assert Blocks(plan, p, c);
    assert plan[p].after <==> p in AfterKeys(plan);
  }

  /** What lies below one created key lies above no other. */
  lemma CreatedDoNotNest(fold: Name -> Name, u: Updates, c: Path, p: Path)
    requires ShapeOk(fold, PlanOf(u)) && Creates(u, c) && Under(c, p)
    ensures !AboveCreated(u, p)
  {
    assert forall a :: Creates(u, a) <==> a in AfterKeys(PlanOf(u));
    forall a | Creates(u, a)
      ensures !Under(p, a)
    {
      if Under(p, a) { UnderTrans(c, p, a); }
    }
  }

  /** Publishing twice writes the same node as publishing once. */
  lemma AfterNodeSettles(now: Option<Node>, u: Update)
    requires u.after.Some? && ValidSide(u.after, u.afterExecutable, u.afterSymlink)
    ensures var n := AfterNode(now, u); !n.Dir? && Observe(n).MatchesAfter(u) && AfterNode(Some(n), u) == n
  {
  }

  lemma RemoveDirKeepsFinal(fold: Name -> Name, t: Tree, u: Updates, c: Path, d: Path, p: Path)
    requires ShapeOk(fold, PlanOf(u)) && WellFormed(t) && Enabled(t, u, RemoveDir(c, d))
    ensures FinalAt(t, u, p) == FinalAt(t - {d}, u, p)
  {
    if p == d && p != c {
      assert BelowCreated(u, p);
      CreatedDoNotNest(fold, u, c, p);
    }
  }

  lemma PutLeafKeepsFinal(t: Tree, u: Updates, c: Path, p: Path)
    requires ValidUpdates(u) && WellFormed(t) && Enabled(t, u, PutLeaf(c))
    ensures FinalAt(t, u, p) == FinalAt(Apply(t, u, PutLeaf(c)), u, p)
  {
    AfterNodeSettles(NodeAt(t, c), u[c]);
  }

  lemma StepKeepsFinal(fold: Name -> Name, t: Tree, u: Updates, s: Step)
    requires Validated(fold, t, u) && Enabled(t, u, s)
    ensures SameFinal(t, Apply(t, u, s), u)
  {
    forall p
      ensures FinalAt(t, u, p) == FinalAt(Apply(t, u, s), u, p)
    {
      match s
      case DeleteLeaf(k) =>
      case RemoveDir(c, d) => RemoveDirKeepsFinal(fold, t, u, c, d, p);
      case MakeDir(c, d) => assert p == d ==> AboveCreated(u, p);
      case PutLeaf(c) => PutLeafKeepsFinal(t, u, c, p);
    }
  }

  /** A validated tree on which every update is done is the target itself. */
  lemma DoneIsFinal(fold: Name -> Name, t: Tree, u: Updates)
    requires Validated(fold, t, u) && WorkDone(t, u)
    ensures IsFinal(t, u, t)
  {
    var plan := PlanOf(u);
    forall p
      ensures NodeAt(t, p) == FinalAt(t, u, p)
    {
      if Creates(u, p) {
        assert IsAfter(CurrentAt(t, plan, p), u[p]);
      } else if AboveCreated(u, p) {
        var c :| Creates(u, c) && Under(p, c);
        assert IsAfter(CurrentAt(t, plan, c), u[c]);
        assert IsDir(t, p);
      } else if BelowCreated(u, p) {
        var c :| Creates(u, c) && Under(c, p);
        assert IsAfter(CurrentAt(t, plan, c), u[c]);
      } else if p in u {
        assert IsAfter(CurrentAt(t, plan, p), u[p]);
      }
    }
  }

  /** The target is one tree. */
  lemma FinalIsUnique(t: Tree, u: Updates, a: Tree, b: Tree)
    requires IsFinal(t, u, a) && IsFinal(t, u, b)
    ensures a == b
  {
    forall p
      ensures NodeAt(a, p) == NodeAt(b, p)
    {
    }
    assert a.Keys == b.Keys by {
      forall p
        ensures p in a <==> p in b
      {
        assert NodeAt(a, p) == NodeAt(b, p);
      }
    }
    forall p | p in a
      ensures a[p] == b[p]
    {
      assert NodeAt(a, p) == NodeAt(b, p);
    }
  }

  // ------------------------------------------------------- whole runs

  /** Some number of steps, with any crashes and restarts in between, lead from
      the first tree to the last. */
  ghost predicate IsRun(u: Updates, run: seq<Tree>) {
    && run != []
    && forall i :: 0 < i < |run| ==> StepBetween(u, run[i - 1], run[i])
  }

  ghost predicate StepBetween(u: Updates, t: Tree, t': Tree) {
    exists s :: Enabled(t, u, s) && t' == Apply(t, u, s)
  }

  ghost predicate Reaches(u: Updates, t: Tree, t': Tree) {
    exists run :: IsRun(u, run) && run[0] == t && run[|run| - 1] == t'
  }

  lemma ReachesSelf(u: Updates, t: Tree)
    ensures Reaches(u, t, t)
  {
    assert IsRun(u, [t]);
  }

  lemma ReachesStep(u: Updates, t: Tree, m: Tree, s: Step)
    requires Reaches(u, t, m) && Enabled(m, u, s)
    ensures Reaches(u, t, Apply(m, u, s))
  {
    var run :| IsRun(u, run) && run[0] == t && run[|run| - 1] == m;
    var run' := run + [Apply(m, u, s)];
    assert StepBetween(u, m, Apply(m, u, s));
    assert IsRun(u, run') by {
      forall i | 0 < i < |run'|
        ensures StepBetween(u, run'[i - 1], run'[i])
      {
        if i < |run| { assert StepBetween(u, run[i - 1], run[i]); }
      }
    }
  }

  lemma ReachesTrans(u: Updates, t: Tree, m: Tree, t': Tree)
    requires Reaches(u, t, m) && Reaches(u, m, t')
    ensures Reaches(u, t, t')
  {
    var a :| IsRun(u, a) && a[0] == t && a[|a| - 1] == m;
    var b :| IsRun(u, b) && b[0] == m && b[|b| - 1] == t';
    var run := a + b[1..];
    assert IsRun(u, run) by {
      forall i | 0 < i < |run|
        ensures StepBetween(u, run[i - 1], run[i])
      {
        if i < |a| {
          assert StepBetween(u, a[i - 1], a[i]);
        } else {
          assert run[i] == b[i - |a| + 1] && run[i - 1] == b[i - |a|];
          assert StepBetween(u, b[i - |a|], b[i - |a| + 1]);
        }
      }
    }
  }

  /** Untracked leaves survive every run, validated or not. */
  lemma {:induction false} RunUntouched(u: Updates, run: seq<Tree>)
    requires IsRun(u, run) && WellFormed(run[0])
    ensures WellFormed(run[|run| - 1]) && Untouched(run[0], run[|run| - 1], u)
  {
    if |run| > 1 {
      var init := run[..|run| - 1];
      RunUntouched(u, init);
      var m := init[|init| - 1];
      assert StepBetween(u, m, run[|run| - 1]);
      var s :| Enabled(m, u, s) && run[|run| - 1] == Apply(m, u, s);
      StepKeepsForm(m, u, s);
      StepUntouched(m, u, s);
    }
  }

  /** Every tree of a validated run still validates and still has the same target. */
  lemma {:induction false} RunKeeps(fold: Name -> Name, u: Updates, run: seq<Tree>)
    requires IsRun(u, run) && Validated(fold, run[0], u)
    ensures Validated(fold, run[|run| - 1], u) && SameFinal(run[0], run[|run| - 1], u)
  {
    if |run| > 1 {
      var init := run[..|run| - 1];
      RunKeeps(fold, u, init);
      var m := init[|init| - 1];
      assert StepBetween(u, m, run[|run| - 1]);
      var s :| Enabled(m, u, s) && run[|run| - 1] == Apply(m, u, s);
      StepKeepsValidated(fold, m, u, s);
      StepKeepsFinal(fold, m, u, s);
      forall p
        ensures FinalAt(run[0], u, p) == FinalAt(run[|run| - 1], u, p)
      {
        assert FinalAt(run[0], u, p) == FinalAt(m, u, p);
      }
    }
  }

  // --------------------------------------- facts the publishing loops need

  /** A finished key stays finished. */
  lemma StepKeepsAfter(fold: Name -> Name, t: Tree, u: Updates, s: Step, j: Path)
    requires WellFormed(t) && ShapeOk(fold, PlanOf(u)) && ValidUpdates(u) && Enabled(t, u, s)
    requires j in u && Finished(t, u, j)
    ensures Finished(Apply(t, u, s), u, j)
  {
    StepKeepsCurrent(fold, t, u, s, j);
  }

  lemma StepKeepsLeavesDone(fold: Name -> Name, t: Tree, u: Updates, s: Step)
    requires WellFormed(t) && ShapeOk(fold, PlanOf(u)) && ValidUpdates(u) && Enabled(t, u, s)
    requires LeavesDone(t, u)
    ensures LeavesDone(Apply(t, u, s), u)
  {
    forall k | k in u && u[k].after.None?
      ensures Finished(Apply(t, u, s), u, k)
    {
      StepKeepsAfter(fold, t, u, s, k);
    }
  }

  ghost predicate OnlyDirsBelow(t: Tree, c: Path) {
    forall p :: p in t && Under(c, p) ==> t[p].Dir? && ValidKey(p)
  }

  /** Once the deletions are done, a directory standing at a created key holds
      nothing but directories. */
  lemma OnlyDirsRemain(fold: Name -> Name, t: Tree, u: Updates, c: Path)
    requires Validated(fold, t, u) && LeavesDone(t, u) && Creates(u, c) && IsDir(t, c)
    ensures OnlyDirsBelow(t, c)
  {
    var plan := PlanOf(u);
    assert CurrentAt(t, plan, c).Some? && Replaceable(t, plan, c);
    forall p | p in t && Under(c, p)
      ensures t[p].Dir?
    {
      if p in u && u[p].after.None? {
        assert IsAfter(CurrentAt(t, plan, p), u[p]);
      }
    }
  }

  /** Once the deletions are done, no leaf is in the way of a created key. */
  lemma WayIsClear(fold: Name -> Name, t: Tree, u: Updates, c: Path, p: Path)
    requires Validated(fold, t, u) && LeavesDone(t, u) && Creates(u, c) && Under(p, c)
    ensures !IsLeaf(t, p)
  {
    if IsLeaf(t, p) {
      LeafAboveCreated(fold, t, u, p, c);
    }
  }
}
