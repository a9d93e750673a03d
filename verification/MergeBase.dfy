/** The merge base: common ancestors with every direct parent of a common ancestor
    removed, and what recording an integration does to the next one. */
module MergeBase {
  import opened Common
  import opened Graph
  import opened Ancestry

  ghost predicate IsCommon<K(!new)>(g: Parents<K>, a: K, b: K, x: K) {
    Reaches(g, a, x) && Reaches(g, b, x)
  }

  /** A common ancestor that is no strict ancestor of another one. */
  ghost predicate IsMaximal<K(!new)>(g: Parents<K>, a: K, b: K, x: K) {
    IsCommon(g, a, b, x) && forall y :: IsCommon(g, a, b, y) && Reaches(g, y, x) ==> y == x
  }

  /** A node on no cycle shares no mutual path with another. */
  lemma NoMutualReach<K(!new)>(g: Parents<K>, x: K, y: K)
    requires !OnCycle(g, x) && Reaches(g, x, y) && Reaches(g, y, x)
    ensures x == y
  {
    if x != y {
      var p :| PathBetween(g, x, y, p);
      PathStep(g, p);
      assert PathBetween(g, p[1], y, p[1..]);
      ReachesTrans(g, p[1], y, x);
      CycleThroughEdge(g, x, p[1]);
    }
  }

  /** The last edge of a nontrivial path: some node just below its end. */
  lemma LastEdge<K(!new)>(g: Parents<K>, a: K, x: K) returns (z: K)
    requires Reaches(g, a, x) && a != x
    ensures Reaches(g, a, z) && z in g && x in g[z]
  {
    var p :| PathBetween(g, a, x, p);
    var n := |p| - 2;
    z := p[n];
    assert PathBetween(g, a, z, p[..n + 1]);
    assert p[n + 1] in g[p[n]];
  }

  /** Being no parent of a common ancestor is being maximal. */
  lemma UnparentedIsMaximal<K(!new)>(g: Parents<K>, a: K, b: K, x: K)
    requires Closed(g) && Acyclic(g) && IsCommon(g, a, b, x)
    ensures IsMaximal(g, a, b, x) <==> forall z :: z in g && IsCommon(g, a, b, z) ==> x !in g[z]
  {
    if IsMaximal(g, a, b, x) {
      forall z | z in g && IsCommon(g, a, b, z)
        ensures x !in g[z]
      {
        if x in g[z] {
          ReachesParent(g, z, x);
          assert z == x;
          ReachesSelf(g, x);
          CycleThroughEdge(g, x, x);
        }
      }
    }
    if forall z :: z in g && IsCommon(g, a, b, z) ==> x !in g[z] {
      forall y | IsCommon(g, a, b, y) && Reaches(g, y, x)
        ensures y == x
      {
        if y != x {
          var z := LastEdge(g, y, x);
          ReachesTrans(g, a, y, z);
          ReachesTrans(g, b, y, z);
          assert IsCommon(g, a, b, z);
        }
      }
    }
  }

  /** Above every common ancestor, on the side of the heads, is a maximal one. */
  lemma {:induction false} MaximalAbove<K(!new)>(g: Parents<K>, a: K, b: K, x: K, pool: set<K>) returns (m: K)
    requires Closed(g) && Acyclic(g) && IsCommon(g, a, b, x)
    requires forall y :: IsCommon(g, a, b, y) && Reaches(g, y, x) ==> y in pool
    ensures IsMaximal(g, a, b, m) && Reaches(g, m, x)
    decreases pool
  {
    ReachesSelf(g, x);
    if IsMaximal(g, a, b, x) {
      m := x;
    } else {
      var y :| IsCommon(g, a, b, y) && Reaches(g, y, x) && y != x;
      forall z | IsCommon(g, a, b, z) && Reaches(g, z, y)
        ensures z in pool - {x}
      {
        ReachesTrans(g, z, y, x);
        if z == x { NoMutualReach(g, x, y); }
      }
      assert x in pool;
      m := MaximalAbove(g, a, b, y, pool - {x});
      ReachesTrans(g, m, y, x);
    }
  }

  /** If one maximal common ancestor is left, every common ancestor is it or above it. */
  lemma SingleIsGreatest<K(!new)>(g: Parents<K>, a: K, b: K, base: K, x: K)
    requires Closed(g) && Acyclic(g) && IsCommon(g, a, b, x)
    requires forall y :: IsMaximal(g, a, b, y) ==> y == base
    ensures Reaches(g, base, x)
  {
    CommonMeansMaximal(g, a, b, x);
  }

  // ------------------------------------------------------------ the search

  /** Removes every parent of a common ancestor from the candidates. */
  method RemoveParents<K(==, !new)>(graph: Snapshots<K>, common: set<K>) returns (best: set<K>)
    requires common <= graph.Keys
    ensures forall x :: x in best <==> x in common && forall z :: z in common ==> x !in graph[z]
  {
    best := common;
    var rest := common;
    while rest != {}
      invariant rest <= common
      invariant forall x :: x in best <==> x in common && forall z :: z in common && z !in rest ==> x !in graph[z]
    {
      var id :| id in rest;
      best := best - set p | p in graph[id];
      rest := rest - {id};
    }
  }

  /** The maximal common ancestors of two snapshots of a validated graph. */
  method BestBases<K(==, !new)>(graph: Snapshots<K>, line: K, incoming: K) returns (best: set<K>)
    requires ValidGraph(graph) && line in graph && incoming in graph
    ensures forall x :: x in best <==> IsMaximal(ParentsIn(graph), line, incoming, x)
  {
    var g := ParentsIn(graph);
    var left := Above(g, {line});
    var right := Above(g, {incoming});
    var common := left * right;
    forall x
      ensures x in common <==> IsCommon(g, line, incoming, x)
    {
      assert ReachedFrom(g, {line}, x) <==> Reaches(g, line, x);
      assert ReachedFrom(g, {incoming}, x) <==> Reaches(g, incoming, x);
    }
    best := RemoveParents(graph, common);
    forall x | x in common
      ensures x in best <==> IsMaximal(g, line, incoming, x)
    {
      UnparentedIsMaximal(g, line, incoming, x);
      assert forall z :: z in common ==> (x in g[z] <==> x in graph[z]);
    }
  }

  datatype Found<K> = Base(id: Option<K>) | Failed

  ghost predicate HasTwo<K(!new)>(g: Parents<K>, a: K, b: K) {
    exists x, y :: x != y && IsMaximal(g, a, b, x) && IsMaximal(g, a, b, y)
  }

  /** The one maximal common ancestor; failure when there are two; the fallback when
      the snapshots have nothing in common. */
  ghost predicate Reported<K(!new)>(g: Parents<K>, a: K, b: K, fallback: Found<K>, r: Found<K>) {
    && (HasTwo(g, a, b) ==> r == Failed)
    && (forall x :: IsMaximal(g, a, b, x) && !HasTwo(g, a, b) ==> r == Base(Some(x)))
    && ((forall x :: !IsCommon(g, a, b, x)) ==> r == fallback)
  }

  method Choose<K(==, !new)>(ghost g: Parents<K>, ghost a: K, ghost b: K, best: set<K>, fallback: Found<K>) returns (r: Found<K>)
    requires forall x :: x in best <==> IsMaximal(g, a, b, x)
    ensures Reported(g, a, b, fallback, r)
  {
    if x :| x in best {
      assert IsMaximal(g, a, b, x);
      if y :| y in best && y != x {
        assert HasTwo(g, a, b);
        return Failed;
      }
      return Base(Some(x));
    }
    return fallback;
  }

  /** Loads both ancestries, validates them, and reports the one best base; with no
      common ancestor it falls back to the recorded base. */
  method FindMergeBase<K(==, !new)>(repo: Snapshots<K>, line: Option<K>, incoming: K, legacy: Option<K>) returns (r: Found<K>)
    ensures line.None? ==> r == Base(None)
    ensures line.Some? && !Sane(repo, {line.value, incoming}) ==> r == Failed
    ensures line.Some? && Sane(repo, {line.value, incoming}) ==>
      Reported(ParentsIn(SubGraph(repo, {line.value, incoming})), line.value, incoming,
               if legacy.Some? && legacy.value !in repo then Failed else Base(legacy), r)
  {
    if line.None? { return Base(None); }
    var roots := {line.value, incoming};
    var graph := LoadGraph(repo, roots);
    if graph.None? { return Failed; }
    var valid := ValidateGraph(graph.value);
    if !valid { return Failed; }
    RootsAreLoaded(repo, roots);
    var best := BestBases(graph.value, line.value, incoming);
    var fallback := if legacy.Some? && legacy.value !in repo then Failed else Base(legacy);
    r := Choose(ParentsIn(graph.value), line.value, incoming, best, fallback);
  }

  lemma RootsAreLoaded<K(!new)>(repo: Snapshots<K>, roots: set<K>)
    requires Complete(repo, roots)
    ensures roots <= SubGraph(repo, roots).Keys
  {
    forall r | r in roots
      ensures ReachedFrom(ParentsIn(repo), roots, r)
    {
      ReachesSelf(ParentsIn(repo), r);
    }
  }

  /** The cases of `Reported` are exhaustive: a common ancestor means a maximal one. */
  lemma CommonMeansMaximal<K(!new)>(g: Parents<K>, a: K, b: K, x: K)
    requires Closed(g) && Acyclic(g) && IsCommon(g, a, b, x)
    ensures exists m :: IsMaximal(g, a, b, m) && Reaches(g, m, x)
  {
    assert forall y :: IsCommon(g, a, b, y) ==> y in g.Keys;
    var m := MaximalAbove(g, a, b, x, g.Keys);
  }

  // ------------------------------------------------- recording an integration

  /** The parents of an integration snapshot: the old head, and the incoming
      snapshot unless it is the head. */
  function IntegrationParents<K(==)>(head: Option<K>, incoming: K): seq<K> {
    match head
    case None => [incoming]
    case Some(h) => if h == incoming then [h] else [h, incoming]
  }

  /** If one snapshot is an ancestor of the other, it is their one best base. */
  lemma OwnAncestorIsMaximal<K(!new)>(g: Parents<K>, head: K, incoming: K)
    requires !OnCycle(g, incoming) && Reaches(g, head, incoming) && Reaches(g, incoming, incoming)
    ensures forall x :: IsMaximal(g, head, incoming, x) <==> x == incoming
  {
    forall x
      ensures IsMaximal(g, head, incoming, x) <==> x == incoming
    {
      if IsMaximal(g, head, incoming, x) {
        assert IsCommon(g, head, incoming, incoming) && Reaches(g, incoming, x);
      }
      if x == incoming {
        forall y | IsCommon(g, head, incoming, y) && Reaches(g, y, incoming)
          ensures y == incoming
        {
          NoMutualReach(g, incoming, y);
        }
      }
    }
  }

  /** The part of a graph above some roots has no missing parent and no cycle. */
  ghost predicate GoodFrom<K(!new)>(g: Parents<K>, roots: set<K>) {
    ClosedFrom(g, roots) && forall x :: ReachedFrom(g, roots, x) ==> !OnCycle(g, x)
  }

  ghost predicate ClosedFrom<K(!new)>(g: Parents<K>, roots: set<K>) {
    roots <= g.Keys && forall x :: ReachedFrom(g, roots, x) ==> x in g && g[x] <= g.Keys
  }

  /** Whether the loaded ancestry validates, told from the whole repository. */
  lemma SaneMeans<K(!new)>(repo: Snapshots<K>, roots: set<K>)
    ensures Sane(repo, roots) <==>
      && GoodFrom(ParentsIn(repo), roots)
      && forall x :: x in repo && ReachedFrom(ParentsIn(repo), roots, x) ==> Distinct(repo[x])
  {
    var loaded := SubGraph(repo, roots);
    if Sane(repo, roots) { SaneIsGood(ParentsIn(repo), ParentsIn(loaded), roots); }
    if GoodFrom(ParentsIn(repo), roots) { GoodIsSane(ParentsIn(repo), ParentsIn(loaded), roots); }
    assert forall x :: x in loaded ==> loaded[x] == repo[x];
  }

  ghost predicate IsLoaded<K(!new)>(g: Parents<K>, h: Parents<K>, roots: set<K>) {
    && (forall x :: x in h <==> x in g && ReachedFrom(g, roots, x))
    && (forall x :: x in h ==> h[x] == g[x])
  }

  lemma SaneIsGood<K(!new)>(g: Parents<K>, h: Parents<K>, roots: set<K>)
    requires IsLoaded(g, h, roots) && roots <= g.Keys && Closed(h) && Acyclic(h)
    ensures GoodFrom(g, roots)
  {
    forall x | ReachedFrom(g, roots, x)
      ensures x in g && g[x] <= g.Keys && !OnCycle(g, x)
    {
      var r :| r in roots && Reaches(g, r, x);
      var p :| PathBetween(g, r, x, p);
      assert x in h && h[x] <= h.Keys && h.Keys <= g.Keys;
      if OnCycle(g, x) { CycleIsLoaded(g, h, x); }
    }
  }

  lemma CycleIsLoaded<K(!new)>(g: Parents<K>, h: Parents<K>, x: K)
    requires Closed(h) && x in h && OnCycle(g, x) && forall n :: n in h ==> n in g && h[n] == g[n]
    ensures OnCycle(h, x)
  {
    var p :| PathBetween(g, x, x, p) && |p| >= 2;
    PathStaysLoaded(g, h, p);
    assert PathBetween(h, x, x, p);
  }

  lemma GoodIsSane<K(!new)>(g: Parents<K>, h: Parents<K>, roots: set<K>)
    requires IsLoaded(g, h, roots) && GoodFrom(g, roots)
    ensures Closed(h) && Acyclic(h)
  {
    forall x, y | x in h && y in h[x]
      ensures y in h
    {
      ReachedOneUp(g, roots, x, y);
    }
    forall x
      ensures !OnCycle(h, x)
    {
      if OnCycle(h, x) {
        var p :| PathBetween(h, x, x, p);
        assert p[0] == x && x in h;
        LoadedCycle(g, h, x);
      }
    }
  }

  lemma ReachedOneUp<K(!new)>(g: Parents<K>, roots: set<K>, x: K, y: K)
    requires ReachedFrom(g, roots, x) && x in g && y in g[x] && y in g
    ensures ReachedFrom(g, roots, y)
  {
    var r :| r in roots && Reaches(g, r, x);
    ReachesParent(g, x, y);
    ReachesTrans(g, r, x, y);
  }

  // ------------------------------------------------------------ the new head

  /** What the old repository reaches, the new head reaches. */
  lemma ReachedFromNewHead<K(!new)>(g: Parents<K>, added: K, roots: set<K>, x: K)
    requires added !in g && roots <= g.Keys && ReachedFrom(g, roots, x)
    ensures Reaches(g[added := roots], added, x)
  {
    var h := g[added := roots];
    var r :| r in roots && Reaches(g, r, x);
    var p :| PathBetween(g, r, x, p);
    assert IsPath(h, p) by {
      forall i | 0 <= i < |p| - 1
        ensures p[i + 1] in h[p[i]]
      {
        assert p[i + 1] in g[p[i]];
      }
    }
    assert PathBetween(h, r, x, p);
    ReachesParent(h, added, r);
    ReachesTrans(h, added, r, x);
  }

  /** The ancestors of the new head are the new head and the old ancestors. */
  lemma NewHeadReaches<K(!new)>(g: Parents<K>, added: K, roots: set<K>, incoming: K)
    requires added !in g && ClosedFrom(g, roots) && incoming in roots
    ensures forall x :: ReachedFrom(g[added := roots], {added, incoming}, x) ==> x == added || ReachedFrom(g, roots, x)
  {
    var h := g[added := roots];
    var pool := set x | x in h && (x == added || ReachedFrom(g, roots, x));
    forall r | r in roots
      ensures ReachedFrom(g, roots, r)
    {
      ReachesSelf(g, r);
    }
    forall x, y | x in pool && x in h && y in h[x]
      ensures y in pool
    {
      if x != added { ReachedOneUp(g, roots, x, y); }
    }
    ClosedSetIsAll(h, {added, incoming}, pool);
  }

  /** A cycle through an old node is an old cycle. */
  lemma OldCycle<K(!new)>(g: Parents<K>, added: K, roots: set<K>, x: K)
    requires added !in g && ClosedFrom(g, roots) && OnCycle(g[added := roots], x)
    requires x == added || ReachedFrom(g, roots, x)
    ensures ReachedFrom(g, roots, x) && OnCycle(g, x)
  {
    var h := g[added := roots];
    var p :| PathBetween(h, x, x, p) && |p| >= 2;
    PathStep(h, p);
    if x == added {
      ReachesSelf(g, p[1]);
      assert ReachedFrom(g, roots, p[1]);
    } else {
      assert p[1] in g[x];
      ReachedOneUp(g, roots, x, p[1]);
    }
    OldPath(g, added, roots, p[1..]);
    assert p[1..][|p| - 2] == x && x in g;
    OldPath(g, added, roots, p);
    assert PathBetween(g, x, x, p);
  }

  lemma {:induction false} OldPath<K(!new)>(g: Parents<K>, added: K, roots: set<K>, p: seq<K>)
    requires added !in g && ClosedFrom(g, roots) && IsPath(g[added := roots], p) && ReachedFrom(g, roots, p[0])
    ensures IsPath(g, p)
    decreases |p|
  {
    if |p| >= 2 {
      PathStep(g[added := roots], p);
      ReachedOneUp(g, roots, p[0], p[1]);
      OldPath(g, added, roots, p[1..]);
      assert forall i :: 0 < i < |p| ==> p[i] == p[1..][i - 1];
    }
  }

  lemma NewHeadIsGood<K(!new)>(g: Parents<K>, added: K, roots: set<K>, incoming: K)
    requires added !in g && GoodFrom(g, roots) && incoming in roots
    ensures GoodFrom(g[added := roots], {added, incoming})
  {
    NewHeadReaches(g, added, roots, incoming);
    var h := g[added := roots];
    forall x | ReachedFrom(h, {added, incoming}, x)
      ensures x in h && h[x] <= h.Keys && !OnCycle(h, x)
    {
      if OnCycle(h, x) { OldCycle(g, added, roots, x); }
    }
  }

  /** No old ancestor lists the new identifier as a parent if the new head is good. */
  lemma NewIdIsNoParent<K(!new)>(g: Parents<K>, added: K, roots: set<K>, incoming: K, x: K)
    requires added !in g && roots <= g.Keys && GoodFrom(g[added := roots], {added, incoming})
    requires ReachedFrom(g, roots, x) && x in g
    ensures g[x] <= g.Keys
  {
    var h := g[added := roots];
    ReachedFromNewHead(g, added, roots, x);
    assert ReachedFrom(h, {added, incoming}, x);
    if added in g[x] { CycleThroughEdge(h, x, added); }
  }

  lemma MergingIsThere<K(!new)>(g: Parents<K>, added: K, roots: set<K>, incoming: K)
    requires added !in g && GoodFrom(g[added := roots], {added, incoming})
    ensures roots <= g.Keys
  {
    var h := g[added := roots];
    ReachesSelf(h, added);
    assert ReachedFrom(h, {added, incoming}, added);
    if added in roots { CycleThroughEdge(h, added, added); }
  }

  /** Recording the integration repairs nothing either. */
  lemma GoodBefore<K(!new)>(g: Parents<K>, added: K, roots: set<K>, incoming: K)
    requires added !in g && GoodFrom(g[added := roots], {added, incoming})
    ensures GoodFrom(g, roots)
  {
    var h := g[added := roots];
    MergingIsThere(g, added, roots, incoming);
    forall x | ReachedFrom(g, roots, x)
      ensures x in g && g[x] <= g.Keys && !OnCycle(g, x)
    {
      var r :| r in roots && Reaches(g, r, x);
      var p :| PathBetween(g, r, x, p);
      NewIdIsNoParent(g, added, roots, incoming, x);
      ReachedFromNewHead(g, added, roots, x);
      assert ReachedFrom(h, {added, incoming}, x);
      if OnCycle(g, x) { LoadedCycle(h, g, x); }
    }
  }

  // ------------------------------------------------------ integrating again

  /** The two snapshots an integration merges. */
  function Merging<K>(head: Option<K>, incoming: K): set<K> {
    if head.Some? then {head.value, incoming} else {incoming}
  }

  lemma ParentsAreMerging<K>(head: Option<K>, incoming: K)
    ensures (set x | x in IntegrationParents(head, incoming)) == Merging(head, incoming)
    ensures Distinct(IntegrationParents(head, incoming))
  {
  }

  /** The repository once the integration is recorded under a new identifier. */
  function Recorded<K>(repo: Snapshots<K>, head: Option<K>, incoming: K, added: K): Snapshots<K> {
    repo[added := IntegrationParents(head, incoming)]
  }

  lemma RecordedParents<K(!new)>(repo: Snapshots<K>, head: Option<K>, incoming: K, added: K)
    requires added !in repo
    ensures ParentsIn(Recorded(repo, head, incoming, added)) == ParentsIn(repo)[added := Merging(head, incoming)]
  {
    ParentsAreMerging(head, incoming);
  }

  /** The loaded ancestry validates after the integration exactly when it did before,
      whatever else the repository holds. */
  lemma SaneBeforeAndAfter<K(!new)>(repo: Snapshots<K>, head: Option<K>, incoming: K, added: K)
    requires added !in repo
    ensures Sane(repo, Merging(head, incoming)) <==> Sane(Recorded(repo, head, incoming, added), {added, incoming})
  {
    var g, roots, repo' := ParentsIn(repo), Merging(head, incoming), Recorded(repo, head, incoming, added);
    RecordedParents(repo, head, incoming, added);
    ParentsAreMerging(head, incoming);
    SaneMeans(repo, roots);
    SaneMeans(repo', {added, incoming});
    if GoodFrom(g, roots) {
      NewHeadIsGood(g, added, roots, incoming);
      NewHeadReaches(g, added, roots, incoming);
    }
    if GoodFrom(g[added := roots], {added, incoming}) {
      GoodBefore(g, added, roots, incoming);
      forall x | ReachedFrom(g, roots, x)
        ensures ReachedFrom(g[added := roots], {added, incoming}, x)
      {
        ReachedFromNewHead(g, added, roots, x);
      }
    }
  }

  /** After an integration is recorded, the old head and the incoming snapshot are
      ancestors of the new head, and the incoming snapshot is the one best base. */
  lemma RecordedAncestors<K(!new)>(repo: Snapshots<K>, head: Option<K>, incoming: K, added: K)
    requires added !in repo && Sane(repo, Merging(head, incoming))
    ensures var g := ParentsIn(Recorded(repo, head, incoming, added));
            && (forall x :: x in Merging(head, incoming) ==> Reaches(g, added, x))
            && (forall x :: IsMaximal(g, added, incoming, x) <==> x == incoming)
  {
    var g, roots := ParentsIn(repo), Merging(head, incoming);
    var h := g[added := roots];
    RecordedParents(repo, head, incoming, added);
    SaneMeans(repo, roots);
    forall x | x in roots
      ensures Reaches(h, added, x)
    {
      ReachesSelf(g, x);
      ReachedFromNewHead(g, added, roots, x);
    }
    NewHeadIsGood(g, added, roots, incoming);
    assert ReachedFrom(h, {added, incoming}, incoming);
    ReachesSelf(h, incoming);
    OwnAncestorIsMaximal(h, added, incoming);
  }

  /** Integrating the same change again: the search on the new repository finds the
      incoming snapshot as its own base, which ends the command with nothing changed;
      it fails exactly when the ancestry of the two merged snapshots was not sane. */
  method IntegratingAgainIsNoOp<K(==, !new)>(repo: Snapshots<K>, head: Option<K>, incoming: K, added: K, legacy: Option<K>) returns (r: Found<K>)
    requires added !in repo
    ensures r == if Sane(repo, Merging(head, incoming)) then Base(Some(incoming)) else Failed
  {
    SaneBeforeAndAfter(repo, head, incoming, added);
    if Sane(repo, Merging(head, incoming)) { OnlyIncoming(repo, head, incoming, added); }
    r := FindMergeBase(Recorded(repo, head, incoming, added), Some(added), incoming, legacy);
  }

  lemma OnlyIncoming<K(!new)>(repo: Snapshots<K>, head: Option<K>, incoming: K, added: K)
    requires added !in repo && Sane(repo, Merging(head, incoming))
    ensures var repo' := Recorded(repo, head, incoming, added);
            forall x :: IsMaximal(ParentsIn(SubGraph(repo', {added, incoming})), added, incoming, x) <==> x == incoming
  {
    SaneBeforeAndAfter(repo, head, incoming, added);
    RecordedAncestors(repo, head, incoming, added);
    forall x { LoadedMaximal(Recorded(repo, head, incoming, added), added, incoming, x); }
  }

  lemma LoadedCommon<K(!new)>(repo: Snapshots<K>, a: K, b: K, x: K)
    requires Complete(repo, {a, b})
    ensures IsCommon(ParentsIn(SubGraph(repo, {a, b})), a, b, x) <==> IsCommon(ParentsIn(repo), a, b, x)
  {
    RootsAreLoaded(repo, {a, b});
    LoadedReaches(repo, {a, b}, a, x);
    LoadedReaches(repo, {a, b}, b, x);
  }

  lemma LoadedAbove<K(!new)>(repo: Snapshots<K>, a: K, b: K, y: K, x: K)
    requires Complete(repo, {a, b}) && IsCommon(ParentsIn(repo), a, b, y)
    ensures Reaches(ParentsIn(SubGraph(repo, {a, b})), y, x) <==> Reaches(ParentsIn(repo), y, x)
  {
    LoadedCommon(repo, a, b, y);
    LoadedReaches(repo, {a, b}, y, x);
  }

  /** The maximal common ancestors found among the loaded snapshots are those of
      the whole repository. */
  lemma LoadedMaximal<K(!new)>(repo: Snapshots<K>, a: K, b: K, x: K)
    requires Complete(repo, {a, b})
    ensures IsMaximal(ParentsIn(SubGraph(repo, {a, b})), a, b, x) <==> IsMaximal(ParentsIn(repo), a, b, x)
  {
    var g, h := ParentsIn(repo), ParentsIn(SubGraph(repo, {a, b}));
    LoadedCommon(repo, a, b, x);
    forall y
      ensures IsCommon(h, a, b, y) && Reaches(h, y, x) <==> IsCommon(g, a, b, y) && Reaches(g, y, x)
    {
      LoadedCommon(repo, a, b, y);
      if IsCommon(g, a, b, y) { LoadedAbove(repo, a, b, y, x); }
    }
  }

  lemma LoadedCycle<K(!new)>(g: Parents<K>, h: Parents<K>, x: K)
    requires OnCycle(h, x) && forall n :: n in h ==> n in g && h[n] == g[n]
    ensures OnCycle(g, x)
  {
    var p :| PathBetween(h, x, x, p) && |p| >= 2;
    assert IsPath(g, p) by {
      forall i | 0 <= i < |p| - 1
        ensures p[i + 1] in g[p[i]]
      {
        assert p[i + 1] in h[p[i]];
      }
    }
    assert PathBetween(g, x, x, p);
  }
}
