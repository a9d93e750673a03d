/** Kahn indexing with generations, reachability queries, and exact cycle members. */
module GraphIndex {
  import opened Common
  import opened Graph

  datatype GraphNode<K> = GraphNode(id: K, parents: seq<K>)

  datatype GraphError<K> =
    | DuplicateNode(node: K)
    | MissingParent(node: K, parent: K)
    | Cycle(cycleNodes: set<K>)

  /** A validated DAG. */
  datatype Index<K> = Index(parents: Parents<K>, generations: map<K, nat>, order: seq<K>)

  datatype Built<K> = Good(index: Index<K>) | Bad(error: GraphError<K>)

  ghost predicate DistinctIds<K>(nodes: seq<GraphNode<K>>) {
    forall i, j :: 0 <= i < j < |nodes| ==> nodes[i].id != nodes[j].id
  }

  function SetOf<K>(s: seq<K>): set<K> {
    set x | x in s
  }

  lemma SetOfSnoc<K>(s: seq<K>, x: K)
    ensures SetOf(s + [x]) == SetOf(s) + {x}
  {
  }

  /** The graph of a node list: later entries would win, but ids are distinct. */
  function GraphOf<K>(nodes: seq<GraphNode<K>>): Parents<K> {
    if nodes == [] then map[]
    else
      var last := nodes[|nodes| - 1];
      GraphOf(nodes[..|nodes| - 1])[last.id := SetOf(last.parents)]
  }

  lemma {:induction false} GraphOfKeys<K>(nodes: seq<GraphNode<K>>)
    ensures forall k :: k in GraphOf(nodes) <==> exists i :: 0 <= i < |nodes| && nodes[i].id == k
  {
    if nodes != [] {
      var init := nodes[..|nodes| - 1];
      GraphOfKeys(init);
      forall k
        ensures k in GraphOf(nodes) <==> exists i :: 0 <= i < |nodes| && nodes[i].id == k
      {
        if k in GraphOf(init) {
          var i :| 0 <= i < |init| && init[i].id == k;
          assert nodes[i].id == k;
        }
        if i :| 0 <= i < |nodes| && nodes[i].id == k {
          if i < |init| { assert init[i].id == k; }
        }
      }
    }
  }

  // ------------------------------------------------- the longest way down

  /** The longest walk from `n` has exactly `length` edges. */
  ghost predicate LongestFrom<K(!new)>(g: Parents<K>, n: K, length: nat) {
    && (exists p :: IsPath(g, p) && p[0] == n && |p| == length + 1)
    && (forall p :: IsPath(g, p) && p[0] == n ==> |p| <= length + 1)
  }

  /** Zero without parents, otherwise one more than the largest. */
  ghost predicate NextGeneration<K>(gens: map<K, nat>, parents: set<K>, gen: nat)
    requires parents <= gens.Keys
  {
    if parents == {} then gen == 0
    else gen > 0 && (exists p :: p in parents && gens[p] == gen - 1) && forall p :: p in parents ==> gens[p] <= gen - 1
  }

  method ComputeGeneration<K>(gens: map<K, nat>, parents: set<K>) returns (gen: nat)
    requires parents <= gens.Keys
    ensures NextGeneration(gens, parents, gen)
  {
    gen := 0;
    var rest := parents;
    while rest != {}
      invariant rest <= parents && NextGeneration(gens, parents - rest, gen)
    {
      var p :| p in rest;
      if gens[p] + 1 > gen { gen := gens[p] + 1; }
      rest := rest - {p};
    }
    assert parents - rest == parents;
  }

  lemma LongestStep<K(!new)>(g: Parents<K>, gens: map<K, nat>, n: K, gen: nat)
    requires n in g && g[n] <= gens.Keys && g[n] <= g.Keys && NextGeneration(gens, g[n], gen)
    requires forall p :: p in g[n] ==> LongestFrom(g, p, gens[p])
    ensures LongestFrom(g, n, gen)
  {
    forall p | IsPath(g, p) && p[0] == n
      ensures |p| <= gen + 1
    {
      if |p| >= 2 {
        PathStep(g, p);
        assert LongestFrom(g, p[1], gens[p[1]]);
      }
    }
    if g[n] == {} {
      assert IsPath(g, [n]);
    } else {
      var m :| m in g[n] && gens[m] == gen - 1;
      var q :| IsPath(g, q) && q[0] == m && |q| == gens[m] + 1;
      assert ([n, m] + q[1..])[0] == n;
    }
  }

  // ------------------------------------------------------- Kahn's invariant

  ghost predicate Indexed<K(!new)>(g: Parents<K>, gens: map<K, nat>, order: seq<K>) {
    && Distinct(order) && (forall x :: x in order ==> x in g) && ParentsFirst(g, order)
    && (forall x :: x in gens <==> x in order)
    && (forall i :: 0 <= i < |order| ==> gens[order[i]] <= i)
    && (forall x :: x in order ==> LongestFrom(g, x, gens[x]))
  }

  /** The parents still missing from `done`. */
  function Missing<K>(g: Parents<K>, done: set<K>, n: K): set<K>
    requires n in g
  {
    g[n] - done
  }

  ghost predicate Counted<K(!new)>(g: Parents<K>, remaining: map<K, nat>, done: set<K>) {
    forall n :: n in g ==> n in remaining && remaining[n] == |Missing(g, done, n)|
  }

  predicate IsReady<K>(g: Parents<K>, done: set<K>, n: K) {
    n in g && n !in done && Missing(g, done, n) == {}
  }

  ghost predicate ReadyIs<K(!new)>(g: Parents<K>, ready: set<K>, done: set<K>) {
    forall n :: n in ready <==> IsReady(g, done, n)
  }

  lemma IndexGrows<K(!new)>(g: Parents<K>, gens: map<K, nat>, order: seq<K>, n: K, gen: nat)
    requires Closed(g) && Indexed(g, gens, order) && n in g && n !in order && (forall x :: x in g[n] ==> x in order)
    requires g[n] <= gens.Keys && NextGeneration(gens, g[n], gen)
    ensures Indexed(g, gens[n := gen], order + [n]) && gen <= |order|
  {
    var order' := order + [n];
    var gens' := gens[n := gen];
    LongestStep(g, gens, n, gen);
    assert gen <= |order| by {
      if g[n] != {} {
        var m :| m in g[n] && gens[m] == gen - 1;
        var i :| 0 <= i < |order| && order[i] == m;
      }
    }
    forall i, x | 0 <= i < |order'| && order'[i] in g && x in g[order'[i]]
      ensures x in order'[..i]
    {
      if i < |order| { assert order'[..i] == order[..i]; } else { assert order'[..i] == order; }
    }
  }

  /** Children of `n`: the nodes that list it as a parent. */
  function ChildrenOf<K>(g: Parents<K>, n: K): set<K> {
    set m | m in g && n in g[m]
  }

  lemma MissingDrops<K>(g: Parents<K>, done: set<K>, n: K, m: K)
    requires m in g && n !in done
    ensures |Missing(g, done + {n}, m)| == |Missing(g, done, m)| - (if n in g[m] then 1 else 0)
    ensures Missing(g, done, m) == {} ==> n !in g[m]
  {
    assert Missing(g, done + {n}, m) == Missing(g, done, m) - {n};
  }

  ghost predicate DoneIsClosed<K(!new)>(g: Parents<K>, done: set<K>) {
    forall m :: m in done && m in g ==> Missing(g, done, m) == {}
  }

  /** How one node's count and readiness stand, before or after its decrement. */
  ghost predicate Released<K>(g: Parents<K>, remaining: map<K, nat>, remaining': map<K, nat>, ready: set<K>, ready': set<K>, n: K, m: K, rest: set<K>)
    requires m in g
  {
    && m in remaining && m in remaining'
    && if m !in rest && n in g[m] then remaining'[m] + 1 == remaining[m] && (m in ready' <==> remaining'[m] == 0)
       else remaining'[m] == remaining[m] && (m in ready' <==> m in ready && m != n)
  }

  lemma ReleasedIsReady<K(!new)>(g: Parents<K>, remaining: map<K, nat>, remaining': map<K, nat>, ready: set<K>, ready': set<K>, n: K, m: K, done: set<K>)
    requires n in ready && m in g && Counted(g, remaining, done) && ReadyIs(g, ready, done) && DoneIsClosed(g, done)
    requires Released(g, remaining, remaining', ready, ready', n, m, {})
    ensures remaining'[m] == |Missing(g, done + {n}, m)| && (m in ready' <==> IsReady(g, done + {n}, m))
  {
    MissingDrops(g, done, n, m);
    assert m in ready <==> IsReady(g, done, m);
    assert n in ready <==> IsReady(g, done, n);
  }

  /** Decrements each child's count, collecting those that reach zero. */
  method Release<K(==, !new)>(g: Parents<K>, remaining: map<K, nat>, ready: set<K>, n: K, ghost done: set<K>)
    returns (remaining': map<K, nat>, ready': set<K>)
    requires n in g && n in ready && Counted(g, remaining, done) && ReadyIs(g, ready, done) && DoneIsClosed(g, done)
    ensures Counted(g, remaining', done + {n}) && ReadyIs(g, ready', done + {n})
  {
    remaining', ready' := remaining, ready - {n};
    var rest := ChildrenOf(g, n);
    while rest != {}
      invariant rest <= ChildrenOf(g, n)
      invariant Releasing(g, remaining, remaining', ready, ready', n, rest)
    {
      var m :| m in rest;
      NotYetZero(g, remaining, ready, done, n, m);
      assert Released(g, remaining, remaining', ready, ready', n, m, rest);
      var count := remaining'[m] - 1;
      ReleaseOne(g, remaining, remaining', ready, ready', n, rest, m);
      remaining' := remaining'[m := count];
      if count == 0 { ready' := ready' + {m}; }
      rest := rest - {m};
    }
    AllReleased(g, remaining, remaining', ready, ready', n, done);
  }

  ghost predicate Releasing<K(!new)>(g: Parents<K>, remaining: map<K, nat>, remaining': map<K, nat>, ready: set<K>, ready': set<K>, n: K, rest: set<K>) {
    && (forall m :: m in g ==> Released(g, remaining, remaining', ready, ready', n, m, rest))
    && (forall m :: m in ready' ==> m in g)
  }

  lemma ReleaseOne<K(!new)>(g: Parents<K>, remaining: map<K, nat>, remaining': map<K, nat>, ready: set<K>, ready': set<K>, n: K, rest: set<K>, m: K)
    requires Releasing(g, remaining, remaining', ready, ready', n, rest)
    requires m in rest && m in ChildrenOf(g, n) && m in remaining' && remaining'[m] > 0 && m !in ready && m != n
    ensures var count := remaining'[m] - 1;
            Releasing(g, remaining, remaining'[m := count], ready, if count == 0 then ready' + {m} else ready', n, rest - {m})
  {
    var count: nat := remaining'[m] - 1;
    var ready'' := if count == 0 then ready' + {m} else ready';
    forall x | x in g
      ensures Released(g, remaining, remaining'[m := count], ready, ready'', n, x, rest - {m})
    {
      assert Released(g, remaining, remaining', ready, ready', n, x, rest);
    }
  }

  lemma AllReleased<K(!new)>(g: Parents<K>, remaining: map<K, nat>, remaining': map<K, nat>, ready: set<K>, ready': set<K>, n: K, done: set<K>)
    requires n in ready && Counted(g, remaining, done) && ReadyIs(g, ready, done) && DoneIsClosed(g, done)
    requires Releasing(g, remaining, remaining', ready, ready', n, {})
    ensures Counted(g, remaining', done + {n}) && ReadyIs(g, ready', done + {n})
  {
    forall m | m in g
      ensures m in remaining' && remaining'[m] == |Missing(g, done + {n}, m)| && (m in ready' <==> IsReady(g, done + {n}, m))
    {
      assert Released(g, remaining, remaining', ready, ready', n, m, {});
      ReleasedIsReady(g, remaining, remaining', ready, ready', n, m, done);
    }
  }

  /** A child of a node not yet done still counts it. */
  lemma NotYetZero<K(!new)>(g: Parents<K>, remaining: map<K, nat>, ready: set<K>, done: set<K>, n: K, m: K)
    requires m in ChildrenOf(g, n) && n in ready && Counted(g, remaining, done) && ReadyIs(g, ready, done)
    ensures remaining[m] > 0 && m !in ready && m != n
  {
    assert IsReady(g, done, n);
    assert n in Missing(g, done, m);
    assert m in ready <==> IsReady(g, done, m);
  }

  // -------------------------------------------------------- the main loop

  lemma ReadyHasParents<K(!new)>(g: Parents<K>, order: seq<K>, n: K)
    requires IsReady(g, SetOf(order), n)
    ensures n !in order && forall x :: x in g[n] ==> x in order
  {
    forall x | x in g[n]
      ensures x in order
    {
      assert x !in Missing(g, SetOf(order), n);
    }
  }

  lemma KahnStarts<K(!new)>(g: Parents<K>, remaining: map<K, nat>, ready: set<K>)
    requires forall n :: n in g ==> n in remaining && remaining[n] == |g[n]|
    requires forall n :: n in ready <==> n in g && remaining[n] == 0
    ensures Counted(g, remaining, {}) && ReadyIs(g, ready, {})
  {
    assert forall n :: n in g ==> Missing(g, {}, n) == g[n];
  }

  /** Records one ready node with its generation. */
  method IndexOne<K(==, !new)>(g: Parents<K>, gens: map<K, nat>, order: seq<K>, n: K)
    returns (gens': map<K, nat>, order': seq<K>)
    requires Closed(g) && Indexed(g, gens, order) && IsReady(g, SetOf(order), n)
    ensures Indexed(g, gens', order') && order' == order + [n]
  {
    ReadyHasParents(g, order, n);
    assert g[n] <= gens.Keys;
    var gen := ComputeGeneration(gens, g[n]);
    IndexGrows(g, gens, order, n, gen);
    return gens[n := gen], order + [n];
  }

  datatype Progress<K> = Progress(gens: map<K, nat>, order: seq<K>, remaining: map<K, nat>, ready: set<K>)

  ghost predicate Sorting<K(!new)>(g: Parents<K>, s: Progress<K>) {
    && Indexed(g, s.gens, s.order)
    && Counted(g, s.remaining, SetOf(s.order)) && ReadyIs(g, s.ready, SetOf(s.order))
  }

  /** Takes one node whose parents are all indexed. */
  method SortOne<K(==, !new)>(g: Parents<K>, s: Progress<K>) returns (s': Progress<K>)
    requires Closed(g) && Sorting(g, s) && s.ready != {}
    ensures Sorting(g, s') && |s'.order| == |s.order| + 1
  {
    var n :| n in s.ready;
    var gens, order := IndexOne(g, s.gens, s.order, n);
    var remaining, ready := Release(g, s.remaining, s.ready, n, SetOf(s.order));
    SetOfSnoc(s.order, n);
    return Progress(gens, order, remaining, ready);
  }

  method SortStart<K(==, !new)>(g: Parents<K>) returns (s: Progress<K>)
    ensures Sorting(g, s)
  {
    var remaining: map<K, nat> := map n | n in g :: |g[n]|;
    var ready := set n | n in g && remaining[n] == 0;
    KahnStarts(g, remaining, ready);
    s := Progress(map[], [], remaining, ready);
    assert SetOf(s.order) == {};
  }

  lemma SortingFits<K(!new)>(g: Parents<K>, s: Progress<K>)
    requires Sorting(g, s)
    ensures |s.order| <= |g.Keys|
    ensures s.ready == {} ==> forall n :: !IsReady(g, SetOf(s.order), n)
  {
    DistinctLength(s.order, g.Keys);
  }

  /** Repeats until nothing is ready. */
  method Sort<K(==, !new)>(g: Parents<K>) returns (gens: map<K, nat>, order: seq<K>)
    requires Closed(g)
    ensures Indexed(g, gens, order)
    ensures forall n :: !IsReady(g, SetOf(order), n)
  {
    var s := SortStart(g);
    SortingFits(g, s);
    while s.ready != {}
      invariant Sorting(g, s) && |s.order| <= |g.Keys|
      decreases |g.Keys| - |s.order|
    {
      s := SortOne(g, s);
      SortingFits(g, s);
    }
    SortingFits(g, s);
    return s.gens, s.order;
  }

  /** Nothing ready and something left: the rest all wait on each other. */
  lemma StuckIsBlocked<K(!new)>(g: Parents<K>, order: seq<K>)
    requires Closed(g) && forall n :: !IsReady(g, SetOf(order), n)
    ensures EachHasParentIn(g, g.Keys - SetOf(order))
  {
    var blocked := g.Keys - SetOf(order);
    forall x | x in blocked
      ensures g[x] * blocked != {}
    {
      assert !IsReady(g, SetOf(order), x);
      var y :| y in Missing(g, SetOf(order), x);
      assert y in g[x] * blocked;
    }
  }

  /** The graph restricted to a set of nodes. */
  function Restrict<K>(g: Parents<K>, pool: set<K>): Parents<K> {
    map n | n in g && n in pool :: g[n] * pool
  }

  /** A cycle avoids everything that was indexed. */
  lemma CycleIsBlocked<K(!new)>(g: Parents<K>, order: seq<K>, p: seq<K>)
    requires ParentsFirst(g, order) && Distinct(order) && IsPath(g, p) && |p| >= 2 && p[0] == p[|p| - 1]
    ensures forall i :: 0 <= i < |p| ==> p[i] !in order
  {
    forall i | 0 <= i < |p|
      ensures p[i] !in order
    {
      if p[i] in order {
        var k :| 0 <= k < |order| && order[k] == p[i];
        PathDescends(g, order, p[i..], k);
        assert p[0] in order;
        assert PathBetween(g, p[0], p[0], p);
        OrderedNotOnCycle(g, order, p[0]);
      }
    }
  }

  /** A blocked node is on a cycle exactly when a blocked parent reaches it. */
  lemma CycleByBlockedParents<K(!new)>(g: Parents<K>, order: seq<K>, n: K)
    requires Closed(g) && ParentsFirst(g, order) && Distinct(order) && n in g && n !in order
    ensures var h := Restrict(g, g.Keys - SetOf(order));
            OnCycle(g, n) <==> n in h && ReachedFrom(h, h[n], n)
  {
    var pool := g.Keys - SetOf(order);
    var h := Restrict(g, pool);
    if OnCycle(g, n) {
      var p :| PathBetween(g, n, n, p) && |p| >= 2;
      CycleIsBlocked(g, order, p);
      PathStep(h, p);
      assert PathBetween(h, p[1], n, p[1..]);
      assert p[1] in h[n] && Reaches(h, p[1], n);
    }
    if ReachedFrom(h, h[n], n) {
      var r :| r in h[n] && Reaches(h, r, n);
      CycleThroughEdge(h, n, r);
      var p :| PathBetween(h, n, n, p) && |p| >= 2;
      assert PathBetween(g, n, n, p);
    }
  }

  /** Searches upwards from each blocked node's blocked parents. */
  method CycleMembers<K(==, !new)>(g: Parents<K>, blocked: set<K>, ghost order: seq<K>) returns (members: set<K>)
    requires Closed(g) && ParentsFirst(g, order) && Distinct(order) && blocked == g.Keys - SetOf(order)
    ensures forall n :: n in members <==> OnCycle(g, n)
  {
    var h := Restrict(g, blocked);
    members := {};
    var rest := blocked;
    while rest != {}
      invariant rest <= blocked && members <= blocked
      invariant forall n :: n in blocked && n !in rest ==> (n in members <==> OnCycle(g, n))
      invariant forall n :: n in rest ==> n !in members
    {
      var n :| n in rest;
      var above := Above(h, h[n]);
      CycleByBlockedParents(g, order, n);
      if n in above { members := members + {n}; }
      rest := rest - {n};
    }
    forall n | OnCycle(g, n)
      ensures n in blocked
    {
      var p :| PathBetween(g, n, n, p) && |p| >= 2;
      CycleIsBlocked(g, order, p);
    }
  }

  /** Indexes a node list, or says exactly what is wrong with it. */
  method Build<K(==, !new)>(nodes: seq<GraphNode<K>>) returns (r: Built<K>)
    ensures r.Good? <==> DistinctIds(nodes) && Closed(GraphOf(nodes)) && Acyclic(GraphOf(nodes))
    ensures r.Good? ==>
      && r.index.parents == GraphOf(nodes) && Indexed(r.index.parents, r.index.generations, r.index.order)
      && (forall x :: x in r.index.order <==> x in r.index.parents)
    ensures r.Bad? && r.error.Cycle? ==> r.error.cycleNodes != {} && forall x :: x in r.error.cycleNodes <==> OnCycle(GraphOf(nodes), x)
    ensures r.Bad? && r.error.MissingParent? ==>
      var g := GraphOf(nodes);
      r.error.node in g && r.error.parent in g[r.error.node] && r.error.parent !in g
    ensures r.Bad? && r.error.DuplicateNode? ==>
      exists i, j :: 0 <= i < j < |nodes| && nodes[i].id == nodes[j].id == r.error.node
  {
    var g: Parents<K> := map[];
    for i := 0 to |nodes|
      invariant g == GraphOf(nodes[..i]) && DistinctIds(nodes[..i])
    {
      GraphOfKeys(nodes[..i]);
      if nodes[i].id in g {
        var j :| 0 <= j < i && nodes[..i][j].id == nodes[i].id;
        assert nodes[j].id == nodes[i].id;
        return Bad(DuplicateNode(nodes[i].id));
      }
      assert nodes[..i + 1][..i] == nodes[..i];
      assert forall j :: 0 <= j < i ==> nodes[..i][j].id == nodes[j].id;
      g := g[nodes[i].id := SetOf(nodes[i].parents)];
    }
    assert nodes[..|nodes|] == nodes;
    r := BuildParents(g);
  }

  method BuildParents<K(==, !new)>(g: Parents<K>) returns (r: Built<K>)
    ensures r.Good? <==> Closed(g) && Acyclic(g)
    ensures r.Good? ==>
      && r.index.parents == g && Indexed(g, r.index.generations, r.index.order)
      && (forall x :: x in r.index.order <==> x in g)
    ensures r.Bad? ==> !r.error.DuplicateNode?
    ensures r.Bad? && r.error.Cycle? ==> r.error.cycleNodes != {} && forall x :: x in r.error.cycleNodes <==> OnCycle(g, x)
    ensures r.Bad? && r.error.MissingParent? ==>
      r.error.node in g && r.error.parent in g[r.error.node] && r.error.parent !in g
  {
    if n, p :| n in g && p in g[n] && p !in g {
      return Bad(MissingParent(n, p));
    }
    assert Closed(g);
    var gens, order := Sort(g);
    StuckIsBlocked(g, order);
    var blocked := g.Keys - SetOf(order);
    if blocked != {} {
      BlockedMeansCycle(g, blocked);
      var members := CycleMembers(g, blocked, order);
      return Bad(Cycle(members));
    }
    assert forall x :: x in g ==> x in SetOf(order);
    OrderIsAcyclic(g, order);
    return Good(Index(g, gens, order));
  }

  // ------------------------------------------------------------- queries

  ghost predicate ValidIndex<K(!new)>(x: Index<K>) {
    && Closed(x.parents) && Indexed(x.parents, x.generations, x.order)
    && forall n :: n in x.parents ==> n in x.order
  }

  /** True when they are equal or an ancestry path exists. */
  method IsReachable<K(==, !new)>(x: Index<K>, ancestor: K, descendant: K) returns (r: Option<bool>)
    requires Closed(x.parents)
    ensures r.Some? <==> ancestor in x.parents && (descendant == ancestor || descendant in x.parents)
    ensures r.Some? ==> (r.value <==> Reaches(x.parents, descendant, ancestor))
  {
    var g := x.parents;
    if ancestor !in g { return None; }
    if ancestor == descendant {
      ReachesSelf(g, ancestor);
      return Some(true);
    }
    if descendant !in g { return None; }
    var above := Above(g, g[descendant]);
    ReachedThroughParents(g, descendant, ancestor);
    return Some(ancestor in above);
  }

  lemma ReachedThroughParents<K(!new)>(g: Parents<K>, d: K, a: K)
    requires Closed(g) && d in g && a != d
    ensures Reaches(g, d, a) <==> ReachedFrom(g, g[d], a)
  {
    if Reaches(g, d, a) {
      var p :| PathBetween(g, d, a, p);
      PathStep(g, p);
      assert PathBetween(g, p[1], a, p[1..]);
      assert p[1] in g[d] && Reaches(g, p[1], a);
    }
    if ReachedFrom(g, g[d], a) {
      var r :| r in g[d] && Reaches(g, r, a);
      ReachesParent(g, d, r);
      ReachesTrans(g, d, r, a);
    }
  }

  /** Every stored generation is the longest path to a root and below the node
      count, so the overflow check never fires on a graph that fits in memory. */
  lemma GenerationIsLongestPath<K(!new)>(x: Index<K>, n: K)
    requires ValidIndex(x) && n in x.parents
    ensures n in x.generations && LongestFrom(x.parents, n, x.generations[n])
    ensures x.generations[n] < |x.parents|
  {
    var i :| 0 <= i < |x.order| && x.order[i] == n;
    DistinctLength(x.order, x.parents.Keys);
  }

  lemma DistinctLength<K>(s: seq<K>, pool: set<K>)
    requires Distinct(s) && forall i :: 0 <= i < |s| ==> s[i] in pool
    ensures |s| <= |pool|
  {
    if |s| > |pool| { Pigeonhole(s, pool); }
  }
}
