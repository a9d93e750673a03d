/** Parent graphs: paths, cycles, reachability, and the two facts every traversal
    rests on: a parents-first order has no cycle, and a set in which every node has
    a parent inside has one. */
module Graph {
  type Parents<K> = map<K, set<K>>

  /** A walk from a node towards its ancestors. */
  ghost predicate IsPath<K>(g: Parents<K>, p: seq<K>) {
    && p != []
    && (forall i :: 0 <= i < |p| ==> p[i] in g)
    && (forall i :: 0 <= i < |p| - 1 ==> p[i + 1] in g[p[i]])
  }

  ghost predicate PathBetween<K>(g: Parents<K>, from: K, to: K, p: seq<K>) {
    IsPath(g, p) && p[0] == from && p[|p| - 1] == to
  }

  /** `ancestor` is `descendant` or an ancestor of it. */
  ghost predicate Reaches<K(!new)>(g: Parents<K>, descendant: K, ancestor: K) {
    exists p :: PathBetween(g, descendant, ancestor, p)
  }

  ghost predicate OnCycle<K(!new)>(g: Parents<K>, x: K) {
    exists p :: PathBetween(g, x, x, p) && |p| >= 2
  }

  ghost predicate Acyclic<K(!new)>(g: Parents<K>) {
    forall x :: !OnCycle(g, x)
  }

  ghost predicate Closed<K>(g: Parents<K>) {
    forall n :: n in g ==> g[n] <= g.Keys
  }

  ghost predicate Distinct<K>(s: seq<K>) {
    forall i, j :: 0 <= i < j < |s| ==> s[i] != s[j]
  }

  /** Every listed node comes after all of its parents. */
  ghost predicate ParentsFirst<K(!new)>(g: Parents<K>, order: seq<K>) {
    forall i, x :: 0 <= i < |order| && order[i] in g && x in g[order[i]] ==> x in order[..i]
  }

  // ----------------------------------------------------------------- paths

  lemma ReachesTrans<K(!new)>(g: Parents<K>, a: K, b: K, c: K)
    requires Reaches(g, a, b) && Reaches(g, b, c)
    ensures Reaches(g, a, c)
  {
    var p :| PathBetween(g, a, b, p);
    var q :| PathBetween(g, b, c, q);
    assert PathBetween(g, a, c, p + q[1..]);
  }

  lemma ReachesSelf<K(!new)>(g: Parents<K>, a: K)
    requires a in g
    ensures Reaches(g, a, a)
  {
    assert PathBetween(g, a, a, [a]);
  }

  lemma ReachesParent<K(!new)>(g: Parents<K>, a: K, b: K)
    requires a in g && b in g && b in g[a]
    ensures Reaches(g, a, b)
  {
    assert PathBetween(g, a, b, [a, b]);
  }

  /** A parent that reaches its child closes a cycle. */
  lemma CycleThroughEdge<K(!new)>(g: Parents<K>, child: K, parent: K)
    requires child in g && parent in g[child] && Reaches(g, parent, child)
    ensures OnCycle(g, child)
  {
    var p :| PathBetween(g, parent, child, p);
    var q := [child] + p;
    assert IsPath(g, q) by {
      forall i | 0 <= i < |q| - 1
        ensures q[i + 1] in g[q[i]]
      {
        if i > 0 { assert q[i] == p[i - 1] && q[i + 1] == p[i]; }
      }
    }
    assert PathBetween(g, child, child, q);
  }

  /** The first edge of a longer path, and the rest of it. */
  lemma PathStep<K>(g: Parents<K>, p: seq<K>)
    requires IsPath(g, p) && |p| >= 2
    ensures p[1] in g[p[0]] && IsPath(g, p[1..])
  {
    var q := p[1..];
    forall i | 0 <= i < |q| - 1
      ensures q[i + 1] in g[q[i]]
    {
      assert q[i] == p[i + 1] && q[i + 1] == p[i + 2];
    }
  }

  // --------------------------------------------------- orders and cycles

  /** Along a path, positions in a parents-first order go down. */
  lemma {:induction false} PathDescends<K(!new)>(g: Parents<K>, order: seq<K>, p: seq<K>, i: nat)
    requires ParentsFirst(g, order) && IsPath(g, p) && i < |order| && p[0] == order[i]
    ensures exists j :: 0 <= j <= i && order[j] == p[|p| - 1] && (|p| >= 2 ==> j < i)
    decreases |p|
  {
    if |p| >= 2 {
      PathStep(g, p);
      assert p[1] in order[..i];
      var k :| 0 <= k < i && order[k] == p[1];
      PathDescends(g, order, p[1..], k);
    }
  }

  /** Nodes of a parents-first order lie on no cycle. */
  lemma OrderedNotOnCycle<K(!new)>(g: Parents<K>, order: seq<K>, x: K)
    requires ParentsFirst(g, order) && Distinct(order) && x in order
    ensures !OnCycle(g, x)
  {
    if OnCycle(g, x) {
      var p :| PathBetween(g, x, x, p) && |p| >= 2;
      var i :| 0 <= i < |order| && order[i] == x;
      PathDescends(g, order, p, i);
    }
  }

  lemma OrderIsAcyclic<K(!new)>(g: Parents<K>, order: seq<K>)
    requires ParentsFirst(g, order) && Distinct(order) && forall x :: x in g ==> x in order
    ensures Acyclic(g)
  {
    forall x
      ensures !OnCycle(g, x)
    {
      if x in g { OrderedNotOnCycle(g, order, x); }
    }
  }

  /** A sequence longer than the set it draws from repeats an element. */
  lemma {:induction false} Pigeonhole<K>(s: seq<K>, pool: set<K>)
    requires |s| > |pool| && forall i :: 0 <= i < |s| ==> s[i] in pool
    ensures !Distinct(s)
    decreases |s|
  {
    var last := s[|s| - 1];
    var init := s[..|s| - 1];
    if last !in init {
      Pigeonhole(init, pool - {last});
    } else {
      var i :| 0 <= i < |init| && init[i] == last;
      assert s[i] == s[|s| - 1];
    }
  }

  ghost predicate EachHasParentIn<K>(g: Parents<K>, pool: set<K>) {
    forall x :: x in pool ==> x in g && g[x] * pool != {}
  }

  lemma {:induction false} LongWalk<K(!new)>(g: Parents<K>, pool: set<K>, x: K, n: nat) returns (p: seq<K>)
    requires EachHasParentIn(g, pool) && x in pool
    ensures IsPath(g, p) && p[0] == x && |p| == n + 1 && forall i :: 0 <= i < |p| ==> p[i] in pool
    decreases n
  {
    if n == 0 {
      p := [x];
    } else {
      var y :| y in g[x] * pool;
      var q := LongWalk(g, pool, y, n - 1);
      p := [x] + q;
      forall i | 0 <= i < |p| - 1
        ensures p[i + 1] in g[p[i]]
      {
        if i > 0 { assert p[i] == q[i - 1] && p[i + 1] == q[i]; }
      }
    }
  }

  /** A nonempty set in which everyone has a parent inside contains a cycle. */
  lemma BlockedMeansCycle<K(!new)>(g: Parents<K>, pool: set<K>)
    requires EachHasParentIn(g, pool) && pool != {}
    ensures exists x :: x in pool && OnCycle(g, x)
  {
    var x :| x in pool;
    var p := LongWalk(g, pool, x, |pool|);
    Pigeonhole(p, pool);
    var i, j :| 0 <= i < j < |p| && p[i] == p[j];
    var c := p[i..j + 1];
    assert IsPath(g, c) by {
      forall k | 0 <= k < |c| - 1
        ensures c[k + 1] in g[c[k]]
      {
        assert c[k] == p[i + k] && c[k + 1] == p[i + k + 1];
      }
    }
    assert PathBetween(g, p[i], p[i], c) && |c| >= 2;
    assert p[i] in pool && OnCycle(g, p[i]);
  }

  // ---------------------------------------------------------- reachability

  /** Paths do not leave a set that is closed under parents. */
  lemma {:induction false} ClosedSetHoldsPaths<K>(g: Parents<K>, pool: set<K>, p: seq<K>)
    requires IsPath(g, p) && p[0] in pool && forall x :: x in pool && x in g ==> g[x] <= pool
    ensures p[|p| - 1] in pool
    decreases |p|
  {
    if |p| >= 2 {
      PathStep(g, p);
      ClosedSetHoldsPaths(g, pool, p[1..]);
    }
  }

  ghost predicate ReachedFrom<K(!new)>(g: Parents<K>, roots: set<K>, x: K) {
    exists r :: r in roots && Reaches(g, r, x)
  }

  lemma ReachedFromParent<K(!new)>(g: Parents<K>, roots: set<K>, x: K)
    requires Closed(g) && x in g && ReachedFrom(g, roots, x)
    ensures forall y :: y in g[x] ==> ReachedFrom(g, roots, y)
  {
    var r :| r in roots && Reaches(g, r, x);
    forall y | y in g[x]
      ensures ReachedFrom(g, roots, y)
    {
      ReachesParent(g, x, y);
      ReachesTrans(g, r, x, y);
    }
  }

  lemma ClosedSetIsAll<K(!new)>(g: Parents<K>, roots: set<K>, pool: set<K>)
    requires roots <= pool && forall x :: x in pool && x in g ==> g[x] <= pool
    ensures forall x :: ReachedFrom(g, roots, x) ==> x in pool
  {
    forall x | ReachedFrom(g, roots, x)
      ensures x in pool
    {
      var r :| r in roots && Reaches(g, r, x);
      var p :| PathBetween(g, r, x, p);
      ClosedSetHoldsPaths(g, pool, p);
    }
  }

  /** What the worklist holds: everything found was reached, and nothing reachable
      is lost. */
  ghost predicate Searching<K(!new)>(g: Parents<K>, roots: set<K>, visited: set<K>, pending: set<K>) {
    && (forall x :: x in visited || x in pending ==> x in g && ReachedFrom(g, roots, x))
    && (forall r :: r in roots ==> r in visited || r in pending)
    && (forall x, y :: x in visited && x in g && y in g[x] ==> y in visited || y in pending)
  }

  lemma SearchStarts<K(!new)>(g: Parents<K>, roots: set<K>)
    requires roots <= g.Keys
    ensures Searching(g, roots, {}, roots)
  {
    forall r | r in roots
      ensures ReachedFrom(g, roots, r)
    {
      ReachesSelf(g, r);
    }
  }

  lemma SearchExpands<K(!new)>(g: Parents<K>, roots: set<K>, visited: set<K>, pending: set<K>, x: K)
    requires Closed(g) && Searching(g, roots, visited, pending) && x in pending
    ensures Searching(g, roots, visited + {x}, pending - {x} + g[x])
  {
    ReachedFromParent(g, roots, x);
  }

  lemma SearchSkips<K(!new)>(g: Parents<K>, roots: set<K>, visited: set<K>, pending: set<K>, x: K)
    requires Searching(g, roots, visited, pending) && x in visited
    ensures Searching(g, roots, visited, pending - {x})
  {
  }

  lemma SearchEnds<K(!new)>(g: Parents<K>, roots: set<K>, visited: set<K>)
    requires Searching(g, roots, visited, {})
    ensures forall x :: x in visited <==> ReachedFrom(g, roots, x)
  {
    ClosedSetIsAll(g, roots, visited);
  }

  /** Worklist traversal: the roots and everything above them. */
  method Above<K(==, !new)>(g: Parents<K>, roots: set<K>) returns (visited: set<K>)
    requires Closed(g) && roots <= g.Keys
    ensures visited <= g.Keys
    ensures forall x :: x in visited <==> ReachedFrom(g, roots, x)
  {
    visited := {};
    var pending := roots;
    SearchStarts(g, roots);
    while pending != {}
      invariant Searching(g, roots, visited, pending)
      decreases g.Keys - visited, pending
    {
      var x :| x in pending;
      if x in visited {
        SearchSkips(g, roots, visited, pending, x);
        pending := pending - {x};
      } else {
        SearchExpands(g, roots, visited, pending, x);
        assert x in g.Keys;
        visited, pending := visited + {x}, pending - {x} + g[x];
      }
    }
    SearchEnds(g, roots, visited);
  }
}
