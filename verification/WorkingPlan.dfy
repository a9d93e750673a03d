/** The publishing loops, over a mutable working directory and a crash hook. */
module WorkingPlan {
  import opened Common
  import opened WorkingTree
  import opened Publication

  datatype Outcome = Done | Refused | Crashed

  /** Fires after each mutation; with `Some(n)` it fails on call n + 1. */
  class CrashHook {
    var fuel: Option<nat>

    constructor (fuel: Option<nat>)
      ensures this.fuel == fuel
    {
      this.fuel := fuel;
    }

    method Fire() returns (ok: bool)
      modifies this
      ensures old(fuel).None? ==> ok && fuel.None?
      ensures old(fuel).Some? ==> fuel.Some? && (ok <==> old(fuel).value > 0)
    {
      if fuel.None? { return true; }
      ok := fuel.value > 0;
      if ok { fuel := Some(fuel.value - 1); }
    }
  }

  datatype MakeResult = Made | AlreadyExists | NoParent

  class WorkingDirectory {
    var tree: Tree

    method RemoveFile(p: Path) returns (ok: bool)
      modifies this
      ensures ok <==> IsLeaf(old(tree), p)
      ensures tree == if ok then old(tree) - {p} else old(tree)
    {
      ok := IsLeaf(tree, p);
      if ok { tree := tree - {p}; }
    }

    method RemoveDir(d: Path) returns (ok: bool)
      modifies this
      ensures ok <==> d in old(tree) && old(tree)[d].Dir? && IsEmptyDir(old(tree), d)
      ensures tree == if ok then old(tree) - {d} else old(tree)
    {
      ok := d in tree && tree[d].Dir? && IsEmptyDir(tree, d);
      if ok { tree := tree - {d}; }
    }

    method CreateDir(d: Path) returns (r: MakeResult)
      requires d != []
      modifies this
      ensures r == if !IsDir(old(tree), Parent(d)) then NoParent else if d in old(tree) then AlreadyExists else Made
      ensures tree == if r.Made? then old(tree)[d := Dir] else old(tree)
    {
      if !IsDir(tree, Parent(d)) { return NoParent; }
      if d in tree { return AlreadyExists; }
      tree := tree[d := Dir];
      return Made;
    }

    /** Writes a temporary beside the target and renames it into place. */
    method PublishLeaf(p: Path, bytes: Bytes, executable: Option<bool>, symlink: bool) returns (ok: bool)
      requires p != []
      modifies this
      ensures ok <==> IsDir(old(tree), Parent(p)) && !IsDir(old(tree), p)
      ensures ok && symlink ==> tree == old(tree)[p := Link(bytes)]
      ensures ok && !symlink ==>
        var kept := p in old(tree) && old(tree)[p].File? && old(tree)[p].executable;
        tree == old(tree)[p := File(bytes, if executable.Some? then executable.value else kept)]
      ensures !ok ==> tree == old(tree)
    {
      if !IsDir(tree, Parent(p)) || IsDir(tree, p) { return false; }
      if symlink {
        tree := tree[p := Link(bytes)];
      } else {
        var mode := p in tree && tree[p].File? && tree[p].executable;
        if executable.Some? { mode := executable.value; }
        tree := tree[p := File(bytes, mode)];
      }
      return true;
    }

    // ------------------------------------------------------- inspection

    /** Worklist walk over everything below `d`; links are leaves, never followed. */
    method DirectoryCanBeReplaced(plan: Plan, d: Path) returns (ok: bool)
      requires WellFormed(tree) && IsDir(tree, d)
      ensures ok <==> Replaceable(tree, plan, d)
    {
      var pending := {d};
      var expanded: set<Path> := {};
      while pending != {}
        invariant Scanning(tree, plan, d, pending, expanded)
        decreases tree.Keys + {d} - expanded
      {
        var dir :| dir in pending;
        var entries := Children(tree, dir);
        if p :| p in entries && !EntryOk(tree, plan, p) {
          if dir != d { UnderTrans(d, dir, p); }
          return false;
        }
        var dirs := set p | p in entries && tree[p].Dir?;
        ScanOne(tree, plan, d, pending, expanded, dir, dirs);
        pending := pending - {dir} + dirs;
        expanded := expanded + {dir};
      }
      return true;
    }

    /** Looks at each component of the key in turn, from the root down. */
    method ReadCurrent(plan: Plan, k: Path) returns (r: Option<Current>)
      requires WellFormed(tree)
      ensures r == CurrentAt(tree, plan, k)
    {
      if k !in plan || !ValidKey(k) { return None; }
      var i := 0;
      while i < |k|
        invariant 0 <= i <= |k| && IsDir(tree, k[..i])
      {
        var prefix := k[..i + 1];
        assert if i + 1 == |k| then prefix == k else Under(prefix, k);
        if !IsDir(tree, prefix) {
          WalkStops(tree, k, i);
          if prefix !in tree { return Some(ABSENT); }
          assert IsLeaf(tree, prefix);
          if i + 1 == |k| { return Some(Observe(tree[k])); }
          return if Blocks(plan, prefix, k) then Some(ABSENT) else None;
        }
        i := i + 1;
      }
      assert k[..|k|] == k;
      if plan[k].after {
        var canReplace := DirectoryCanBeReplaced(plan, k);
        if !canReplace { return None; }
      }
      return Some(ABSENT);
    }

    /** The strict recheck before a write: only directories above the key, and no
        directory at it. */
    method WorkingPathOk(k: Path) returns (ok: bool)
      requires WellFormed(tree)
      ensures ok <==> ValidKey(k) && !IsDir(tree, k) && forall p :: Under(p, k) ==> !IsLeaf(tree, p)
    {
      if !ValidKey(k) { return false; }
      for i := 0 to |k|
        invariant forall j :: 0 <= j <= i ==> j < |k| ==> !IsLeaf(tree, k[..j])
        invariant i == |k| ==> !IsDir(tree, k)
      {
        var prefix := k[..i + 1];
        if i + 1 < |k| {
          assert Under(prefix, k);
          if IsLeaf(tree, prefix) { return false; }
        } else {
          assert prefix == k;
          if IsDir(tree, k) { return false; }
        }
      }
      return true;
    }

    /** The frames for a directory's entries, unless one of them is no directory. */
    method ChildStack(p: Path) returns (ok: bool, pushed: seq<Frame>)
      ensures ok ==> ChildFrames(tree, p, {}, pushed)
      ensures !ok ==> exists q :: q in Children(tree, p) && !tree[q].Dir?
    {
      pushed := [];
      var entries := Children(tree, p);
      while entries != {}
        invariant entries <= Children(tree, p)
        invariant ChildFrames(tree, p, entries, pushed)
      {
        var q :| q in entries;
        if !tree[q].Dir? { return false, pushed; }
        ghost var before := pushed;
        pushed := pushed + [Frame(q, false)];
        assert pushed[|before|].path == q;
        assert forall i :: 0 <= i < |before| ==> pushed[i] == before[i];
        entries := entries - {q};
      }
      return true, pushed;
    }

    method RemoveEmptied(u: Updates, c: Path, d: Path, hook: CrashHook, ghost fold: Name -> Name, ghost t0: Tree)
      returns (o: Outcome)
      requires ShapeOk(fold, PlanOf(u)) && ValidUpdates(u) && Creates(u, c) && Clearing(fold, u, c, t0, tree)
      requires d != [] && (d == c || Under(c, d)) && IsDir(tree, d) && IsEmptyDir(tree, d)
      modifies this, hook
      ensures tree == old(tree) - {d} && Clearing(fold, u, c, t0, tree)
      ensures !o.Refused?
      ensures old(hook.fuel).None? ==> o.Done? && hook.fuel.None?
    {
      ClearingStep(fold, u, c, t0, tree, d);
      var removed := RemoveDir(d);
      assert removed;
      var alive := hook.Fire();
      return if alive then Done else Crashed;
    }

    /** Iterative postorder removal; anything but a directory stops it. */
    method RemoveEmptyTree(u: Updates, c: Path, hook: CrashHook, ghost fold: Name -> Name)
      returns (o: Outcome)
      requires WellFormed(tree) && ShapeOk(fold, PlanOf(u)) && ValidUpdates(u)
      requires Due(tree, u, c) && Creates(u, c) && LeavesDone(tree, u)
      requires IsDir(tree, c)
      modifies this, hook
      ensures Clearing(fold, u, c, old(tree), tree)
      ensures o.Done? ==> !IsDir(tree, c)
      ensures OnlyDirsBelow(old(tree), c) ==> !o.Refused?
      ensures old(hook.fuel).None? ==> !o.Crashed? && hook.fuel.None?
    {
      var stack := [Frame(c, false)];
      assert stack[0].path == c;
      ghost var expanded: set<Path> := {};
      ghost var t0 := tree;
      ClearingStarts(fold, u, c, t0);
      while stack != []
        invariant Removing(fold, u, c, t0, tree, expanded, stack)
        invariant old(hook.fuel).None? ==> hook.fuel.None?
        decreases t0.Keys - expanded, |stack|
      {
        o, stack, expanded := RemoveFrame(u, c, stack, hook, fold, t0, expanded);
        if !o.Done? { return; }
      }
      NothingLeft(fold, u, c, t0, tree, expanded);
      return Done;
    }

    /** One frame: its directory is removed, or its entries are pushed. */
    method RemoveFrame(u: Updates, c: Path, stack: seq<Frame>, hook: CrashHook, ghost fold: Name -> Name, ghost t0: Tree, ghost expanded: set<Path>)
      returns (o: Outcome, stack': seq<Frame>, ghost expanded': set<Path>)
      requires ShapeOk(fold, PlanOf(u)) && ValidUpdates(u) && Creates(u, c)
      requires stack != [] && Removing(fold, u, c, t0, tree, expanded, stack)
      modifies this, hook
      ensures Clearing(fold, u, c, t0, tree)
      ensures o.Refused? ==> !OnlyDirsBelow(t0, c)
      ensures o.Done? ==> Removing(fold, u, c, t0, tree, expanded', stack')
      ensures o.Done? ==> (exists p :: p in t0.Keys - expanded && expanded' == expanded + {p}) || (expanded' == expanded && |stack'| < |stack|)
      ensures old(hook.fuel).None? ==> !o.Crashed? && hook.fuel.None?
    {
      var Frame(p, leaving) := stack[|stack| - 1];
      stack', expanded' := stack, expanded;
      KeyBelow(fold, u, c, t0, tree, expanded, stack);
      if !ValidKey(p) { return Refused, stack', expanded'; }
      if leaving {
        o := PopFrame(u, c, stack, hook, fold, t0, expanded);
        stack' := stack[..|stack| - 1];
      } else {
        o, stack' := PushFrames(u, c, stack, fold, t0, expanded);
        expanded' := expanded + {p};
      }
    }

    /** A directory whose children are gone is removed. */
    method PopFrame(u: Updates, c: Path, stack: seq<Frame>, hook: CrashHook, ghost fold: Name -> Name, ghost t0: Tree, ghost expanded: set<Path>)
      returns (o: Outcome)
      requires ShapeOk(fold, PlanOf(u)) && ValidUpdates(u) && Creates(u, c)
      requires stack != [] && stack[|stack| - 1].leaving && Removing(fold, u, c, t0, tree, expanded, stack)
      modifies this, hook
      ensures Clearing(fold, u, c, t0, tree) && !o.Refused?
      ensures o.Done? ==> Removing(fold, u, c, t0, tree, expanded, stack[..|stack| - 1])
      ensures old(hook.fuel).None? ==> o.Done? && hook.fuel.None?
    {
      LeaveFrame(tree, c, expanded, stack);
      o := RemoveEmptied(u, c, stack[|stack| - 1].path, hook, fold, t0);
    }

    /** A directory's own entries go on the stack above its leaving mark. */
    method PushFrames(u: Updates, c: Path, stack: seq<Frame>, ghost fold: Name -> Name, ghost t0: Tree, ghost expanded: set<Path>)
      returns (o: Outcome, stack': seq<Frame>)
      requires stack != [] && !stack[|stack| - 1].leaving && Removing(fold, u, c, t0, tree, expanded, stack)
      ensures !o.Crashed?
      ensures o.Refused? ==> !OnlyDirsBelow(t0, c)
      ensures Clearing(fold, u, c, t0, tree)
      ensures o.Done? ==>
        var p := stack[|stack| - 1].path;
        Removing(fold, u, c, t0, tree, expanded + {p}, stack') && p in t0.Keys - expanded
    {
      var p := stack[|stack| - 1].path;
      stack' := stack;
      assert FrameOk(tree, c, expanded, stack[|stack| - 1]);
      var dirs, pushed := ChildStack(p);
      if !dirs {
        BelowIsBelow(tree, c, p);
        return Refused, stack';
      }
      ExpandFrame(tree, c, expanded, stack, pushed);
      return Done, stack[..|stack| - 1] + [Frame(p, true)] + pushed;
    }

    /** Creates the missing directories above `c`, from the top down. */
    method MakeParents(u: Updates, c: Path, hook: CrashHook, ghost fold: Name -> Name) returns (o: Outcome)
      requires WellFormed(tree) && ShapeOk(fold, PlanOf(u)) && ValidUpdates(u)
      requires Due(tree, u, c) && Creates(u, c) && LeavesDone(tree, u) && !IsDir(tree, c)
      requires forall p :: Under(p, c) ==> !IsLeaf(tree, p)
      modifies this, hook
      ensures Building(fold, u, c, old(tree), tree)
      ensures !o.Refused?
      ensures o.Done? ==> IsDir(tree, Parent(c))
      ensures old(hook.fuel).None? ==> !o.Crashed? && hook.fuel.None?
    {
      ghost var t0 := tree;
      BuildingStarts(fold, u, c, t0);
      for i := 1 to |c|
        invariant Building(fold, u, c, t0, tree) && IsDir(tree, c[..i - 1])
        invariant old(hook.fuel).None? ==> hook.fuel.None?
      {
        var d := c[..i];
        assert Under(d, c) && Parent(d) == c[..i - 1];
        if d !in tree { BuildingStep(fold, u, c, t0, tree, d); }
        var made := CreateDir(d);
        if made.Made? {
          var alive := hook.Fire();
          if !alive { return Crashed; }
        }
        assert IsDir(tree, d);
      }
      return Done;
    }

    /** Clears the way for `c` and writes it. */
    method Replace(u: Updates, c: Path, hook: CrashHook, ghost fold: Name -> Name) returns (o: Outcome)
      requires WellFormed(tree) && ShapeOk(fold, PlanOf(u)) && ValidUpdates(u)
      requires Creates(u, c) && Due(tree, u, c) && LeavesDone(tree, u)
      requires Validated(fold, tree, u) && IsDir(tree, c) ==> OnlyDirsBelow(tree, c)
      modifies this, hook
      ensures Carried(fold, u, old(tree), tree) && LeavesDone(tree, u)
      ensures o.Done? ==> Finished(tree, u, c)
      ensures Validated(fold, old(tree), u) ==> !o.Refused?
      ensures old(hook.fuel).None? ==> !o.Crashed? && hook.fuel.None?
    {
      ghost var t0 := tree;
      if IsDir(tree, c) {
        o := RemoveEmptyTree(u, c, hook, fold);
        if !o.Done? { return; }
      } else {
        ClearingStarts(fold, u, c, t0);
      }
      o := Write(u, c, hook, fold, t0);
    }

    /** Rechecks the path, creates its directories and writes the leaf. */
    method Write(u: Updates, c: Path, hook: CrashHook, ghost fold: Name -> Name, ghost t0: Tree) returns (o: Outcome)
      requires ShapeOk(fold, PlanOf(u)) && ValidUpdates(u) && Creates(u, c)
      requires Clearing(fold, u, c, t0, tree) && !IsDir(tree, c)
      modifies this, hook
      ensures Carried(fold, u, t0, tree) && LeavesDone(tree, u)
      ensures o.Done? ==> Finished(tree, u, c)
      ensures Validated(fold, t0, u) ==> !o.Refused?
      ensures old(hook.fuel).None? ==> !o.Crashed? && hook.fuel.None?
    {
      ghost var t1 := tree;
      if Validated(fold, t1, u) { ClearOfLeaves(fold, t1, u, c); }
      var open := WorkingPathOk(c);
      if !open { return Refused; }
      o := MakeParents(u, c, hook, fold);
      CarriedTrans(fold, u, t0, t1, tree);
      if o.Done? { o := Put(u, c, hook, fold, t0); }
    }

    method Put(u: Updates, c: Path, hook: CrashHook, ghost fold: Name -> Name, ghost t0: Tree) returns (o: Outcome)
      requires ShapeOk(fold, PlanOf(u)) && ValidUpdates(u) && Creates(u, c)
      requires Carried(fold, u, t0, tree) && LeavesDone(tree, u) && Due(tree, u, c)
      requires c != [] && IsDir(tree, Parent(c)) && !IsDir(tree, c)
      modifies this, hook
      ensures Carried(fold, u, t0, tree) && LeavesDone(tree, u) && Finished(tree, u, c)
      ensures !o.Refused?
      ensures old(hook.fuel).None? ==> o.Done? && hook.fuel.None?
    {
      PutStep(fold, u, c, t0, tree);
      var wrote := PublishLeaf(c, u[c].after.value, u[c].afterExecutable, u[c].afterSymlink == Some(true));
      assert wrote && tree == Apply(old(tree), u, PutLeaf(c));
      var alive := hook.Fire();
      return if alive then Done else Crashed;
    }

    /** One iteration of the second publishing loop. */
    method PublishOne(u: Updates, c: Path, hook: CrashHook, ghost fold: Name -> Name) returns (o: Outcome)
      requires WellFormed(tree) && ShapeOk(fold, PlanOf(u)) && ValidUpdates(u)
      requires Creates(u, c) && LeavesDone(tree, u)
      modifies this, hook
      ensures Carried(fold, u, old(tree), tree) && LeavesDone(tree, u)
      ensures o.Done? ==> Finished(tree, u, c)
      ensures Validated(fold, old(tree), u) ==> !o.Refused?
      ensures old(hook.fuel).None? ==> !o.Crashed? && hook.fuel.None?
    {
      ReachesSelf(u, tree);
      var current := ReadCurrent(PlanOf(u), c);
      if current.None? { return Refused; }
      if current.value.MatchesAfter(u[c]) { return Done; }
      if !current.value.MatchesBefore(u[c]) { return Refused; }
      if Validated(fold, tree, u) && IsDir(tree, c) { OnlyDirsRemain(fold, tree, u, c); }
      o := Replace(u, c, hook, fold);
    }

    /** One iteration of the first publishing loop. */
    method DeleteOne(u: Updates, k: Path, hook: CrashHook, ghost fold: Name -> Name) returns (o: Outcome)
      requires WellFormed(tree) && ShapeOk(fold, PlanOf(u)) && ValidUpdates(u)
      requires k in u && u[k].after.None?
      modifies this, hook
      ensures Carried(fold, u, old(tree), tree)
      ensures o.Done? ==> Finished(tree, u, k)
      ensures Validated(fold, old(tree), u) ==> !o.Refused?
      ensures old(hook.fuel).None? ==> !o.Crashed? && hook.fuel.None?
    {
      ReachesSelf(u, tree);
      var current := ReadCurrent(PlanOf(u), k);
      if current.None? { return Refused; }
      if current.value.MatchesAfter(u[k]) { return Done; }
      if !current.value.MatchesBefore(u[k]) { return Refused; }
      DeleteStep(fold, u, k, tree);
      var removed := RemoveFile(k);
      assert removed;
      var alive := hook.Fire();
      if !alive { return Crashed; }
      return Done;
    }

    method DeleteLeaves(u: Updates, hook: CrashHook, ghost fold: Name -> Name) returns (o: Outcome)
      requires WellFormed(tree) && ShapeOk(fold, PlanOf(u)) && ValidUpdates(u)
      modifies this, hook
      ensures Carried(fold, u, old(tree), tree)
      ensures Validated(fold, old(tree), u) ==> !o.Refused?
      ensures o.Done? ==> LeavesDone(tree, u)
      ensures old(hook.fuel).None? ==> !o.Crashed? && hook.fuel.None?
    {
      ReachesSelf(u, tree);
      var pending := set k | k in u && u[k].after.None?;
      while pending != {}
        invariant forall k :: k in pending ==> k in u && u[k].after.None?
        invariant Carried(fold, u, old(tree), tree)
        invariant forall k :: k in u && u[k].after.None? && k !in pending ==> Finished(tree, u, k)
        invariant old(hook.fuel).None? ==> hook.fuel.None?
      {
        var k := Deepest(pending);
        ghost var t1 := tree;
        o := DeleteOne(u, k, hook, fold);
        CarriedTrans(fold, u, old(tree), t1, tree);
        if !o.Done? { return; }
        pending := pending - {k};
      }
      return Done;
    }

    /** Deletions deepest first, then replacements. */
    method Publish(u: Updates, hook: CrashHook, ghost fold: Name -> Name) returns (o: Outcome)
      requires WellFormed(tree) && ShapeOk(fold, PlanOf(u)) && ValidUpdates(u)
      modifies this, hook
      ensures WellFormed(tree) && Reaches(u, old(tree), tree)
      ensures Validated(fold, old(tree), u) ==> !o.Refused?
      ensures o.Done? ==> WorkDone(tree, u)
      ensures old(hook.fuel).None? ==> !o.Crashed? && hook.fuel.None?
    {
      o := DeleteLeaves(u, hook, fold);
      if !o.Done? { return; }
      var pending := set k | k in u && u[k].after.Some?;
      while pending != {}
        invariant forall k :: k in pending ==> Creates(u, k)
        invariant Carried(fold, u, old(tree), tree) && LeavesDone(tree, u)
        invariant forall k :: Creates(u, k) && k !in pending ==> Finished(tree, u, k)
        invariant old(hook.fuel).None? ==> hook.fuel.None?
      {
        var c :| c in pending;
        ghost var t1 := tree;
        o := PublishOne(u, c, hook, fold);
        CarriedTrans(fold, u, old(tree), t1, tree);
        if !o.Done? { return; }
        pending := pending - {c};
      }
      return Done;
    }
  }

  // ------------------------------------------------- facts about the walks

  predicate EntryOk(t: Tree, plan: Plan, p: Path) {
    p in t && ValidKey(p) && (t[p].Dir? || (p in plan && plan[p] == Shape(true, false)))
  }

  /** Directories still to be scanned cover every entry that was not found in order. */
  ghost predicate Scanning(t: Tree, plan: Plan, d: Path, pending: set<Path>, expanded: set<Path>) {
    && (forall p :: p in pending ==> IsDir(t, p) && (p == d || Under(d, p)))
    && (forall p :: p in pending ==> p !in expanded && (p == d || Parent(p) in expanded))
    && (forall p :: p in expanded ==> p == d || (p != [] && Parent(p) in expanded))
    && expanded <= t.Keys + {d}
    && (forall q :: q in t && Under(d, q) ==> EntryOk(t, plan, q) || Covered(pending, q))
  }

  lemma ScanOne(t: Tree, plan: Plan, d: Path, pending: set<Path>, expanded: set<Path>, dir: Path, dirs: set<Path>)
    requires WellFormed(t) && IsDir(t, d) && Scanning(t, plan, d, pending, expanded) && dir in pending
    requires forall p :: p in Children(t, dir) ==> EntryOk(t, plan, p)
    requires forall p :: p in dirs <==> p in Children(t, dir) && t[p].Dir?
    ensures Scanning(t, plan, d, pending - {dir} + dirs, expanded + {dir})
    ensures dir in t.Keys + {d} - expanded
  {
    var pending' := pending - {dir} + dirs;
    forall q | q in t && Under(d, q)
      ensures EntryOk(t, plan, q) || Covered(pending', q)
    {
      if Covered(pending, q) && !EntryOk(t, plan, q) {
        var p :| p in pending && Under(p, q);
        if p == dir { CoverPassesDown(t, plan, dir, q, pending'); }
        assert p in pending' ==> Covered(pending', q);
      }
    }
    forall p | p in dirs
      ensures IsDir(t, p) && Under(d, p) && p !in expanded && Parent(p) == dir
    {
      if dir != d { UnderTrans(d, dir, p); }
      assert Parent(p) == dir && p != d;
    }
  }

  ghost predicate Covered(pending: set<Path>, q: Path) {
    exists p :: p in pending && Under(p, q)
  }

  /** An entry below an expanded directory is one of its good children or is below one. */
  lemma CoverPassesDown(t: Tree, plan: Plan, dir: Path, q: Path, pending: set<Path>)
    requires WellFormed(t) && q in t && Under(dir, q)
    requires forall p :: p in Children(t, dir) ==> EntryOk(t, plan, p)
    requires forall p :: p in Children(t, dir) && t[p].Dir? ==> p in pending
    ensures EntryOk(t, plan, q) || Covered(pending, q)
  {
    var child := q[..|dir| + 1];
    assert Under(dir, child);
    if child == q {
      assert q in Children(t, dir);
    } else {
      assert Under(child, q);
      assert IsDir(t, child) && child in Children(t, dir);
    }
  }

  /** Where the walk leaves the directories, nothing further along the key exists. */
  lemma WalkStops(t: Tree, k: Path, i: nat)
    requires WellFormed(t) && i < |k| && IsDir(t, k[..i]) && !IsDir(t, k[..i + 1])
    ensures forall p :: IsLeaf(t, p) && Under(p, k) ==> p == k[..i + 1]
    ensures i + 1 < |k| ==> k !in t
  {
    var prefix := k[..i + 1];
    if i + 1 < |k| { assert Under(prefix, k); }
    forall p | Under(p, k) && |p| <= i
      ensures IsDir(t, p)
    {
      assert k[..i][..|p|] == p;
      assert p == k[..i] || Under(p, k[..i]);
    }
    forall p | IsLeaf(t, p) && Under(p, k)
      ensures p == prefix
    {
      if |p| > i + 1 { BetweenIsUnder(k, i + 1, p); }
    }
  }

  lemma BetweenIsUnder(k: Path, n: nat, p: Path)
    requires n < |p| && Under(p, k)
    ensures Under(k[..n], p)
  {
    assert p[..n] == k[..n];
  }

  // ------------------------------------------------ the postorder stack

  datatype Frame = Frame(path: Path, leaving: bool)

  ghost predicate CoveredFrom(stack: seq<Frame>, i: int, q: Path) {
    exists j :: i <= j < |stack| && 0 <= j && (q == stack[j].path || Under(stack[j].path, q))
  }

  /** Every frame is a directory at or below `c`; what is left below a directory
      being left is at or below a frame nearer the top. */
  ghost predicate StackOk(t: Tree, c: Path, expanded: set<Path>, stack: seq<Frame>) {
    && (forall i :: 0 <= i < |stack| ==> FrameOk(t, c, expanded, stack[i]))
    && (forall i, j :: 0 <= i < j < |stack| ==> stack[i].path != stack[j].path)
    && (forall p :: p in expanded ==> p == c || (p != [] && Parent(p) in expanded))
    && (forall i, q :: 0 <= i < |stack| && stack[i].leaving && q in t && Under(stack[i].path, q)
                       ==> CoveredFrom(stack, i + 1, q))
    && (c in t ==> CoveredFrom(stack, 0, c))
  }

  ghost predicate Removing(fold: Name -> Name, u: Updates, c: Path, t0: Tree, t: Tree, expanded: set<Path>, stack: seq<Frame>) {
    Clearing(fold, u, c, t0, t) && StackOk(t, c, expanded, stack) && expanded <= t0.Keys
  }

  /** An unsafe name below `c` is an entry that is no planned directory. */
  lemma KeyBelow(fold: Name -> Name, u: Updates, c: Path, t0: Tree, t: Tree, expanded: set<Path>, stack: seq<Frame>)
    requires stack != [] && Removing(fold, u, c, t0, t, expanded, stack)
    ensures Clearing(fold, u, c, t0, t)
    ensures OnlyDirsBelow(t0, c) ==> ValidKey(stack[|stack| - 1].path)
  {
    assert FrameOk(t, c, expanded, stack[|stack| - 1]);
  }

  lemma NothingLeft(fold: Name -> Name, u: Updates, c: Path, t0: Tree, t: Tree, expanded: set<Path>)
    requires Removing(fold, u, c, t0, t, expanded, [])
    ensures Clearing(fold, u, c, t0, t) && c !in t
  {
    NoFrames(c);
    assert c in t ==> CoveredFrom([], 0, c);
  }

  lemma NoFrames(q: Path)
    ensures !CoveredFrom([], 0, q)
  {
  }

  ghost predicate FrameOk(t: Tree, c: Path, expanded: set<Path>, f: Frame) {
    && f.path != [] && (f.path == c || Under(c, f.path)) && f.path in t && t[f.path].Dir?
    && (f.leaving <==> f.path in expanded)
    && (f.path == c || Parent(f.path) in expanded)
  }

  ghost predicate ChildFrames(t: Tree, p: Path, rest: set<Path>, pushed: seq<Frame>) {
    && (forall i :: 0 <= i < |pushed| ==>
          !pushed[i].leaving && pushed[i].path in Children(t, p) && pushed[i].path !in rest && t[pushed[i].path].Dir?)
    && (forall i, j :: 0 <= i < j < |pushed| ==> pushed[i].path != pushed[j].path)
    && (forall q :: q in Children(t, p) && q !in rest ==> exists i :: 0 <= i < |pushed| && pushed[i].path == q)
  }

  lemma LeaveFrame(t: Tree, c: Path, expanded: set<Path>, stack: seq<Frame>)
    requires WellFormed(t) && StackOk(t, c, expanded, stack) && stack != [] && stack[|stack| - 1].leaving
    ensures IsEmptyDir(t, stack[|stack| - 1].path)
    ensures StackOk(t - {stack[|stack| - 1].path}, c, expanded, stack[..|stack| - 1])
  {
    var top := |stack| - 1;
    var p := stack[top].path;
    assert forall q :: !CoveredFrom(stack, |stack|, q);
    assert IsEmptyDir(t, p);
    var t', stack' := t - {p}, stack[..top];
    forall i, q | 0 <= i <= top && q in t' && CoveredFrom(stack, i, q)
      ensures CoveredFrom(stack', i, q)
    {
      var j :| i <= j < |stack| && (q == stack[j].path || Under(stack[j].path, q));
      assert j < top && stack'[j] == stack[j];
    }
  }

  lemma BelowIsBelow(t: Tree, c: Path, p: Path)
    requires p == c || Under(c, p)
    ensures forall q :: q in Children(t, p) ==> Under(c, q)
  {
    forall q | q in Children(t, p)
      ensures Under(c, q)
    {
      if p != c { UnderTrans(c, p, q); }
    }
  }

  ghost function Expanded(stack: seq<Frame>, pushed: seq<Frame>): (r: seq<Frame>)
    requires stack != []
  {
    stack[..|stack| - 1] + [Frame(stack[|stack| - 1].path, true)] + pushed
  }

  lemma ExpandFrames(t: Tree, c: Path, expanded: set<Path>, stack: seq<Frame>, pushed: seq<Frame>, i: nat)
    requires WellFormed(t) && StackOk(t, c, expanded, stack) && stack != [] && !stack[|stack| - 1].leaving
    requires ChildFrames(t, stack[|stack| - 1].path, {}, pushed)
    requires i < |Expanded(stack, pushed)|
    ensures FrameOk(t, c, expanded + {stack[|stack| - 1].path}, Expanded(stack, pushed)[i])
    ensures i >= |stack| ==> Expanded(stack, pushed)[i] == pushed[i - |stack|]
                             && Parent(Expanded(stack, pushed)[i].path) == stack[|stack| - 1].path
    ensures i < |stack| ==> Expanded(stack, pushed)[i].path == stack[i].path
  {
    var top := |stack| - 1;
    var p := stack[top].path;
    assert FrameOk(t, c, expanded, stack[top]);
    if i > top {
      BelowIsBelow(t, c, p);
      var q := pushed[i - top - 1].path;
      assert Parent(q) == p && Parent(q) !in expanded;
    } else {
      assert FrameOk(t, c, expanded, stack[i]);
    }
  }

  lemma ExpandCovers(t: Tree, c: Path, expanded: set<Path>, stack: seq<Frame>, pushed: seq<Frame>, i: nat, q: Path)
    requires WellFormed(t) && StackOk(t, c, expanded, stack) && stack != [] && !stack[|stack| - 1].leaving
    requires ChildFrames(t, stack[|stack| - 1].path, {}, pushed)
    requires var stack' := Expanded(stack, pushed);
             i < |stack'| && stack'[i].leaving && q in t && Under(stack'[i].path, q)
    ensures CoveredFrom(Expanded(stack, pushed), i + 1, q)
  {
    var top := |stack| - 1;
    var p := stack[top].path;
    var stack' := Expanded(stack, pushed);
    if i < top {
      assert CoveredFrom(stack, i + 1, q);
      var j :| i + 1 <= j < |stack| && (q == stack[j].path || Under(stack[j].path, q));
      assert stack'[j].path == stack[j].path;
    } else {
      assert i == top;
      var child := q[..|p| + 1];
      assert Under(p, child) && (child == q || Under(child, q));
      assert child in Children(t, p);
      var k :| 0 <= k < |pushed| && pushed[k].path == child;
      assert stack'[top + 1 + k] == pushed[k];
    }
  }

  lemma ExpandDistinct(t: Tree, c: Path, expanded: set<Path>, stack: seq<Frame>, pushed: seq<Frame>, i: nat, j: nat)
    requires WellFormed(t) && StackOk(t, c, expanded, stack) && stack != [] && !stack[|stack| - 1].leaving
    requires ChildFrames(t, stack[|stack| - 1].path, {}, pushed)
    requires i < j < |Expanded(stack, pushed)|
    ensures Expanded(stack, pushed)[i].path != Expanded(stack, pushed)[j].path
  {
    ExpandFrames(t, c, expanded, stack, pushed, i);
    ExpandFrames(t, c, expanded, stack, pushed, j);
    assert FrameOk(t, c, expanded, stack[|stack| - 1]);
    if i < |stack| { assert FrameOk(t, c, expanded, stack[i]); }
  }

  lemma ExpandFrame(t: Tree, c: Path, expanded: set<Path>, stack: seq<Frame>, pushed: seq<Frame>)
    requires WellFormed(t) && StackOk(t, c, expanded, stack) && stack != [] && !stack[|stack| - 1].leaving
    requires ChildFrames(t, stack[|stack| - 1].path, {}, pushed)
    ensures StackOk(t, c, expanded + {stack[|stack| - 1].path}, Expanded(stack, pushed))
  {
    var stack' := Expanded(stack, pushed);
    var expanded' := expanded + {stack[|stack| - 1].path};
    assert FrameOk(t, c, expanded, stack[|stack| - 1]);
    forall i | 0 <= i < |stack'|
      ensures FrameOk(t, c, expanded', stack'[i])
    {
      ExpandFrames(t, c, expanded, stack, pushed, i);
    }
    forall i, j | 0 <= i < j < |stack'|
      ensures stack'[i].path != stack'[j].path
    {
      ExpandDistinct(t, c, expanded, stack, pushed, i, j);
    }
    forall i, q | 0 <= i < |stack'| && stack'[i].leaving && q in t && Under(stack'[i].path, q)
      ensures CoveredFrom(stack', i + 1, q)
    {
      ExpandCovers(t, c, expanded, stack, pushed, i, q);
    }
    forall p | p in expanded'
      ensures p == c || (p != [] && Parent(p) in expanded')
    {
      if p in expanded {
        assert p == c || (p != [] && Parent(p) in expanded);
      } else {
        assert p == stack[|stack| - 1].path;
      }
    }
    if c in t { ExpandStillCovers(stack, pushed, c); }
  }

  lemma ExpandStillCovers(stack: seq<Frame>, pushed: seq<Frame>, c: Path)
    requires stack != [] && CoveredFrom(stack, 0, c)
    ensures CoveredFrom(Expanded(stack, pushed), 0, c)
  {
    var j :| 0 <= j < |stack| && (c == stack[j].path || Under(stack[j].path, c));
    assert Expanded(stack, pushed)[j].path == stack[j].path;
  }

  // ------------------------------------- what clearing a directory preserves

  /** `t` is what is left of `t0` while the directory at the created key `c` goes. */
  ghost predicate Clearing(fold: Name -> Name, u: Updates, c: Path, t0: Tree, t: Tree) {
    && Carried(fold, u, t0, t) && t.Keys <= t0.Keys
    && LeavesDone(t, u) && Due(t, u, c)
    && (OnlyDirsBelow(t0, c) ==> OnlyDirsBelow(t, c))
  }

  /** Validation and finished keys carry over from `t0` to `t`. */
  ghost predicate KeepsKnown(fold: Name -> Name, u: Updates, t0: Tree, t: Tree) {
    && (Validated(fold, t0, u) ==> Validated(fold, t, u))
    && (forall k :: k in u && Finished(t0, u, k)
                    ==> Finished(t, u, k))
  }

  lemma ClearingStarts(fold: Name -> Name, u: Updates, c: Path, t: Tree)
    requires WellFormed(t) && Due(t, u, c) && LeavesDone(t, u)
    ensures Clearing(fold, u, c, t, t)
  {
    ReachesSelf(u, t);
  }

  lemma ClearingStep(fold: Name -> Name, u: Updates, c: Path, t0: Tree, t: Tree, d: Path)
    requires ShapeOk(fold, PlanOf(u)) && ValidUpdates(u) && Creates(u, c)
    requires Clearing(fold, u, c, t0, t)
    requires d != [] && (d == c || Under(c, d)) && IsDir(t, d) && IsEmptyDir(t, d)
    ensures Clearing(fold, u, c, t0, t - {d})
  {
    var s := Step.RemoveDir(c, d);
    assert Enabled(t, u, s);
    CarriedStep(fold, u, t0, t, s);
    StepKeepsLeavesDone(fold, t, u, s);
    RemoveDirKeepsCurrent(t, u, c, d, c);
  }

  /** Validation and finished keys both survive a step. */
  lemma StepKeepsKnown(fold: Name -> Name, t: Tree, u: Updates, s: Step)
    requires WellFormed(t) && ShapeOk(fold, PlanOf(u)) && ValidUpdates(u) && Enabled(t, u, s)
    ensures KeepsKnown(fold, u, t, Apply(t, u, s))
  {
    if Validated(fold, t, u) { StepKeepsValidated(fold, t, u, s); }
    forall k | k in u && Finished(t, u, k)
      ensures Finished(Apply(t, u, s), u, k)
    {
      StepKeepsAfter(fold, t, u, s, k);
    }
  }

  /** `t` is `t0` with directories added above the created key `c`. */
  ghost predicate Building(fold: Name -> Name, u: Updates, c: Path, t0: Tree, t: Tree) {
    && Carried(fold, u, t0, t)
    && LeavesDone(t, u) && Due(t, u, c) && !IsDir(t, c)
    && (forall p :: Under(p, c) ==> !IsLeaf(t, p))
  }

  lemma BuildingStarts(fold: Name -> Name, u: Updates, c: Path, t: Tree)
    requires WellFormed(t) && Due(t, u, c) && LeavesDone(t, u) && !IsDir(t, c)
    requires forall p :: Under(p, c) ==> !IsLeaf(t, p)
    ensures Building(fold, u, c, t, t)
  {
    ReachesSelf(u, t);
  }

  lemma BuildingStep(fold: Name -> Name, u: Updates, c: Path, t0: Tree, t: Tree, d: Path)
    requires ShapeOk(fold, PlanOf(u)) && ValidUpdates(u) && Creates(u, c)
    requires Building(fold, u, c, t0, t)
    requires d != [] && Under(d, c) && d !in t && IsDir(t, Parent(d))
    ensures Building(fold, u, c, t0, t[d := Dir])
  {
    var s := Step.MakeDir(c, d);
    assert Enabled(t, u, s);
    CarriedStep(fold, u, t0, t, s);
    StepKeepsLeavesDone(fold, t, u, s);
    MakeDirKeepsCurrent(fold, t, u, c, d, c);
  }

  lemma ClearOfLeaves(fold: Name -> Name, t: Tree, u: Updates, c: Path)
    requires Validated(fold, t, u) && LeavesDone(t, u) && Creates(u, c)
    ensures forall p :: Under(p, c) ==> !IsLeaf(t, p)
  {
    forall p | Under(p, c)
      ensures !IsLeaf(t, p)
    {
      WayIsClear(fold, t, u, c, p);
    }
  }

  lemma PutStep(fold: Name -> Name, u: Updates, c: Path, t0: Tree, t: Tree)
    requires ShapeOk(fold, PlanOf(u)) && ValidUpdates(u) && Creates(u, c)
    requires Carried(fold, u, t0, t) && LeavesDone(t, u) && Due(t, u, c)
    requires c != [] && IsDir(t, Parent(c)) && !IsDir(t, c)
    ensures var t' := Apply(t, u, PutLeaf(c));
            && Carried(fold, u, t0, t') && LeavesDone(t', u)
            && Finished(t', u, c)
    ensures c in t ==> !Observe(t[c]).MatchesAfter(u[c])
  {
    var s := PutLeaf(c);
    CarriedStep(fold, u, t0, t, s);
    StepKeepsLeavesDone(fold, t, u, s);
    PutLeafKeepsCurrent(fold, t, u, c, c);
  }

  lemma DeleteStep(fold: Name -> Name, u: Updates, k: Path, t: Tree)
    requires ShapeOk(fold, PlanOf(u)) && ValidUpdates(u) && Enabled(t, u, DeleteLeaf(k))
    requires WellFormed(t)
    ensures IsLeaf(t, k) && Carried(fold, u, t, t - {k})
    ensures Finished(t - {k}, u, k)
  {
    ReachesSelf(u, t);
    CarriedStep(fold, u, t, t, DeleteLeaf(k));
    DeleteKeepsCurrent(t, u, k, k);
  }

  /** What one stretch of publication owes the next. */
  ghost predicate Carried(fold: Name -> Name, u: Updates, t0: Tree, t: Tree) {
    WellFormed(t) && Reaches(u, t0, t) && KeepsKnown(fold, u, t0, t)
  }

  lemma CarriedStep(fold: Name -> Name, u: Updates, t0: Tree, t: Tree, s: Step)
    requires ShapeOk(fold, PlanOf(u)) && ValidUpdates(u) && Carried(fold, u, t0, t) && Enabled(t, u, s)
    ensures Carried(fold, u, t0, Apply(t, u, s))
  {
    StepKeepsForm(t, u, s);
    ReachesStep(u, t0, t, s);
    StepKeepsKnown(fold, t, u, s);
  }

  lemma CarriedTrans(fold: Name -> Name, u: Updates, t0: Tree, t1: Tree, t2: Tree)
    requires Carried(fold, u, t0, t1) && Carried(fold, u, t1, t2)
    ensures Carried(fold, u, t0, t2)
  {
    ReachesTrans(u, t0, t1, t2);
  }

  method Deepest(s: set<Path>) returns (k: Path)
    requires s != {}
    ensures k in s && forall j :: j in s ==> |j| <= |k|
  {
    DeepestExists(s);
    k :| k in s && forall j :: j in s ==> |j| <= |k|;
  }

  /** A finite nonempty set of paths has a deepest member. */
  lemma {:induction false} DeepestExists(s: set<Path>)
    requires s != {}
    ensures exists k :: k in s && forall j :: j in s ==> |j| <= |k|
  {
    var k :| k in s;
    var rest := s - {k};
    if rest != {} {
      DeepestExists(rest);
      var m :| m in rest && forall j :: j in rest ==> |j| <= |m|;
      var best := if |m| < |k| then k else m;
      assert best in s && forall j :: j in s ==> |j| <= |best|;
    } else {
      assert s == {k};
    }
  }
}
