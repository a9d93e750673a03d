/** The iterative depth-first walk shared by graph validation and history order:
    a stack of entries, each either to be entered or to be left. */
module DepthFirst {
  import opened Graph

  datatype Visit<K> = Visit(id: K, leaving: bool)

  /** Index of the nearest entry being left below position `j`, or -1. */
  function Nearest<K>(stack: seq<Visit<K>>, j: nat): (i: int)
    requires j <= |stack|
    ensures -1 <= i < j && (i >= 0 ==> stack[i].leaving)
    ensures forall k :: i < k < j ==> !stack[k].leaving
  {
    if j == 0 then -1 else if stack[j - 1].leaving then j - 1 else Nearest(stack, j - 1)
  }

  lemma {:induction false} NearestLocal<K>(a: seq<Visit<K>>, b: seq<Visit<K>>, j: nat)
    requires j <= |a| && j <= |b| && a[..j] == b[..j]
    ensures Nearest(a, j) == Nearest(b, j)
  {
    if j > 0 {
      assert a[j - 1] == a[..j][j - 1] == b[..j][j - 1] == b[j - 1];
      assert a[..j - 1] == a[..j][..j - 1] && b[..j - 1] == b[..j][..j - 1];
      NearestLocal(a, b, j - 1);
    }
  }

  /** Every entry but the lowest was pushed as a parent of the nearest open node. */
  ghost predicate Chained<K>(g: Parents<K>, stack: seq<Visit<K>>) {
    && (forall i :: 0 <= i < |stack| && stack[i].leaving ==> stack[i].id in g)
    && (forall j :: 0 < j < |stack| ==> Nearest(stack, j) >= 0 && stack[j].id in g[stack[Nearest(stack, j)].id])
  }

  ghost predicate Above<K>(stack: seq<Visit<K>>, i: int, x: K) {
    exists j :: i < j < |stack| && 0 <= j && stack[j].id == x
  }

  /** The parents of an open node are finished or still on the stack above it. */
  ghost predicate Covered<K(!new)>(g: Parents<K>, stack: seq<Visit<K>>, done: seq<K>) {
    forall i, x :: 0 <= i < |stack| && stack[i].leaving && stack[i].id in g && x in g[stack[i].id]
                   ==> x in done || Above(stack, i, x)
  }

  ghost predicate IsOpen<K>(stack: seq<Visit<K>>, x: K) {
    exists i :: 0 <= i < |stack| && stack[i].leaving && stack[i].id == x
  }

  /** Open nodes are pairwise different and none is finished yet. */
  ghost predicate OpenApart<K(!new)>(stack: seq<Visit<K>>, done: seq<K>) {
    && (forall i, j :: 0 <= i < j < |stack| && stack[i].leaving && stack[j].leaving ==> stack[i].id != stack[j].id)
    && (forall x :: IsOpen(stack, x) ==> x !in done)
  }

  ghost predicate Walking<K(!new)>(g: Parents<K>, stack: seq<Visit<K>>, done: seq<K>) {
    && Chained(g, stack) && Covered(g, stack, done) && OpenApart(stack, done)
    && Distinct(done) && ParentsFirst(g, done) && forall x :: x in done ==> x in g
  }

  // ------------------------------------------------------------- the chain

  /** An open node lower on the stack descends from every open node above it. */
  lemma {:induction false} ChainReaches<K(!new)>(g: Parents<K>, stack: seq<Visit<K>>, i: nat, j: nat)
    requires Chained(g, stack) && i <= j < |stack| && stack[i].leaving && stack[j].leaving
    ensures Reaches(g, stack[i].id, stack[j].id)
    decreases j
  {
    if i == j {
      ReachesSelf(g, stack[i].id);
    } else {
      var m := Nearest(stack, j);
      ChainReaches(g, stack, i, m);
      ReachesParent(g, stack[m].id, stack[j].id);
      ReachesTrans(g, stack[i].id, stack[m].id, stack[j].id);
    }
  }

  /** Meeting an open node again is a cycle. */
  lemma OpenAgainIsCycle<K(!new)>(g: Parents<K>, stack: seq<Visit<K>>)
    requires Chained(g, stack) && stack != []
    requires var top := stack[|stack| - 1]; !top.leaving && IsOpen(stack, top.id)
    ensures exists x :: OnCycle(g, x)
  {
    var t := |stack| - 1;
    var i :| 0 <= i < |stack| && stack[i].leaving && stack[i].id == stack[t].id;
    var m := Nearest(stack, t);
    ChainReaches(g, stack, i, m);
    CycleThroughEdge(g, stack[m].id, stack[t].id);
  }

  // ---------------------------------------------------------------- moves

  lemma PopChained<K>(g: Parents<K>, stack: seq<Visit<K>>)
    requires Chained(g, stack) && stack != []
    ensures Chained(g, stack[..|stack| - 1])
  {
    var stack' := stack[..|stack| - 1];
    forall j | 0 < j < |stack'|
      ensures Nearest(stack', j) >= 0 && stack'[j].id in g[stack'[Nearest(stack', j)].id]
    {
      assert stack'[..j] == stack[..j];
      NearestLocal(stack', stack, j);
    }
  }

  /** Dropping an entry whose node is already finished. */
  lemma Skip<K(!new)>(g: Parents<K>, stack: seq<Visit<K>>, done: seq<K>)
    requires Walking(g, stack, done) && stack != [] && stack[|stack| - 1].id in done
    ensures Walking(g, stack[..|stack| - 1], done)
  {
    PopChained(g, stack);
  }

  /** Leaving an open node finishes it: its parents are all finished. */
  lemma Leave<K(!new)>(g: Parents<K>, stack: seq<Visit<K>>, done: seq<K>)
    requires Walking(g, stack, done) && stack != [] && stack[|stack| - 1].leaving
    ensures Walking(g, stack[..|stack| - 1], done + [stack[|stack| - 1].id])
  {
    var t := |stack| - 1;
    var id := stack[t].id;
    var done' := done + [id];
    assert IsOpen(stack, id);
    PopChained(g, stack);
    assert forall x :: !Above(stack, t, x);
    LeaveOrder(g, done, id);
  }

  lemma LeaveOrder<K(!new)>(g: Parents<K>, done: seq<K>, id: K)
    requires Distinct(done) && ParentsFirst(g, done) && id in g && id !in done && forall x :: x in g[id] ==> x in done
    ensures Distinct(done + [id]) && ParentsFirst(g, done + [id])
  {
    var done' := done + [id];
    forall i, x | 0 <= i < |done'| && done'[i] in g && x in g[done'[i]]
      ensures x in done'[..i]
    {
      if i < |done| { assert done'[..i] == done[..i]; } else { assert done'[..i] == done; }
    }
  }

  function Pushes<K>(parents: seq<K>): (r: seq<Visit<K>>)
    ensures |r| == |parents| && forall i :: 0 <= i < |r| ==> r[i] == Visit(parents[i], false)
  {
    seq(|parents|, i requires 0 <= i < |parents| => Visit(parents[i], false))
  }

  function Entered<K>(stack: seq<Visit<K>>, parents: seq<K>): seq<Visit<K>>
    requires stack != []
  {
    stack[..|stack| - 1] + [Visit(stack[|stack| - 1].id, true)] + Pushes(parents)
  }

  lemma EnterChained<K>(g: Parents<K>, stack: seq<Visit<K>>, parents: seq<K>)
    requires Chained(g, stack) && stack != [] && !stack[|stack| - 1].leaving
    requires stack[|stack| - 1].id in g && forall x :: x in g[stack[|stack| - 1].id] <==> x in parents
    ensures Chained(g, Entered(stack, parents))
  {
    var t := |stack| - 1;
    var stack' := Entered(stack, parents);
    forall j | 0 < j < |stack'|
      ensures Nearest(stack', j) >= 0 && stack'[j].id in g[stack'[Nearest(stack', j)].id]
    {
      if j <= t {
        assert stack'[..j] == stack[..j];
        NearestLocal(stack', stack, j);
        assert stack'[j].id == stack[j].id;
        var m := Nearest(stack, j);
        assert m >= 0 ==> stack'[m] == stack[m];
      } else {
        assert stack'[t].id == stack[t].id && stack'[t].leaving && forall k :: t < k < j ==> !stack'[k].leaving;
        assert Nearest(stack', j) == t;
        assert stack'[j] == Pushes(parents)[j - t - 1];
        assert stack'[j].id in parents;
      }
    }
  }

  lemma EnterCovered<K(!new)>(g: Parents<K>, stack: seq<Visit<K>>, done: seq<K>, parents: seq<K>)
    requires Covered(g, stack, done) && stack != []
    requires stack[|stack| - 1].id in g && forall x :: x in g[stack[|stack| - 1].id] <==> x in parents
    ensures Covered(g, Entered(stack, parents), done)
  {
    var t := |stack| - 1;
    var stack' := Entered(stack, parents);
    forall i, x | 0 <= i < |stack'| && stack'[i].leaving && stack'[i].id in g && x in g[stack'[i].id]
      ensures x in done || Above(stack', i, x)
    {
      if i < t {
        assert stack'[i] == stack[i];
        if x !in done {
          var j :| i < j < |stack| && stack[j].id == x;
          assert stack'[j].id == x;
        }
      } else {
        assert i == t && stack'[t].id == stack[t].id && x in parents;
        var k :| 0 <= k < |parents| && parents[k] == x;
        assert stack'[t + 1 + k] == Pushes(parents)[k];
      }
    }
  }

  lemma EnterApart<K(!new)>(stack: seq<Visit<K>>, done: seq<K>, parents: seq<K>)
    requires OpenApart(stack, done) && stack != []
    requires var id := stack[|stack| - 1].id; id !in done && !IsOpen(stack, id)
    ensures OpenApart(Entered(stack, parents), done)
    ensures forall x :: IsOpen(Entered(stack, parents), x) <==> IsOpen(stack, x) || x == stack[|stack| - 1].id
  {
    var t := |stack| - 1;
    var id := stack[t].id;
    var stack' := Entered(stack, parents);
    assert forall k :: t < k < |stack'| ==> stack'[k] == Pushes(parents)[k - t - 1];
    assert forall k :: 0 <= k < t ==> stack'[k] == stack[k];
    assert stack'[t] == Visit(id, true);
    forall i | 0 <= i < t && stack[i].leaving
      ensures stack[i].id != id
    {
      assert IsOpen(stack, stack[i].id);
    }
    forall x
      ensures IsOpen(stack', x) <==> IsOpen(stack, x) || x == id
    {
      if IsOpen(stack', x) {
        var i :| 0 <= i < |stack'| && stack'[i].leaving && stack'[i].id == x;
        if i < t { assert stack[i].leaving && stack[i].id == x; }
      }
      if IsOpen(stack, x) {
        var i :| 0 <= i < |stack| && stack[i].leaving && stack[i].id == x;
        assert i < t ==> stack'[i].leaving && stack'[i].id == x;
      }
      if x == id { assert stack'[t].leaving && stack'[t].id == x; }
    }
  }

  /** Entering a new node opens it and pushes its parents. */
  lemma Enter<K(!new)>(g: Parents<K>, stack: seq<Visit<K>>, done: seq<K>, parents: seq<K>)
    requires Walking(g, stack, done) && stack != [] && !stack[|stack| - 1].leaving
    requires var id := stack[|stack| - 1].id;
             id in g && id !in done && !IsOpen(stack, id) && forall x :: x in g[id] <==> x in parents
    ensures Walking(g, Entered(stack, parents), done)
    ensures forall x :: IsOpen(Entered(stack, parents), x) <==> IsOpen(stack, x) || x == stack[|stack| - 1].id
  {
    EnterChained(g, stack, parents);
    EnterCovered(g, stack, done, parents);
    EnterApart(stack, done, parents);
  }
}
