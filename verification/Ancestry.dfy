/** Snapshot ancestry: loading it, validating it, and its parents-first history. */
module Ancestry {
  import opened Common
  import opened Graph
  import opened DepthFirst

  /** Each snapshot with its parents, first parent then merge parents. */
  type Snapshots<K> = map<K, seq<K>>

  function ParentsIn<K>(s: Snapshots<K>): Parents<K> {
    map n | n in s :: set x | x in s[n]
  }

  ghost predicate ValidGraph<K(!new)>(s: Snapshots<K>) {
    && Closed(ParentsIn(s)) && Acyclic(ParentsIn(s))
    && forall n :: n in s ==> Distinct(s[n])
  }

  // ------------------------------------------------------------ validation

  /** 1 while a node is open, 2 once it is finished. */
  type Colors<K> = map<K, int>

  ghost predicate Colored<K(!new)>(s: Snapshots<K>, stack: seq<Visit<K>>, done: seq<K>, colors: Colors<K>) {
    && (forall x :: x in colors ==> x in s && Distinct(s[x]) && (colors[x] == 1 || colors[x] == 2))
    && (forall x :: x in done <==> x in colors && colors[x] == 2)
    && (forall x :: IsOpen(stack, x) <==> x in colors && colors[x] == 1)
  }

  lemma ColorLeave<K(!new)>(s: Snapshots<K>, stack: seq<Visit<K>>, done: seq<K>, colors: Colors<K>)
    requires Colored(s, stack, done, colors) && OpenApart(stack, done) && stack != [] && stack[|stack| - 1].leaving
    ensures var id := stack[|stack| - 1].id;
            Colored(s, stack[..|stack| - 1], done + [id], colors[id := 2])
  {
    var t := |stack| - 1;
    var id := stack[t].id;
    var stack' := stack[..t];
    assert IsOpen(stack, id);
    forall x
      ensures IsOpen(stack', x) <==> IsOpen(stack, x) && x != id
    {
      if IsOpen(stack, x) && x != id {
        var i :| 0 <= i < |stack| && stack[i].leaving && stack[i].id == x;
        assert stack'[i] == stack[i];
      }
      if IsOpen(stack', x) {
        var i :| 0 <= i < |stack'| && stack'[i].leaving && stack'[i].id == x;
        assert stack[i] == stack'[i];
      }
    }
  }

  lemma ColorSkip<K(!new)>(s: Snapshots<K>, stack: seq<Visit<K>>, done: seq<K>, colors: Colors<K>)
    requires Colored(s, stack, done, colors) && stack != [] && !stack[|stack| - 1].leaving
    ensures Colored(s, stack[..|stack| - 1], done, colors)
  {
    var stack' := stack[..|stack| - 1];
    forall x
      ensures IsOpen(stack', x) <==> IsOpen(stack, x)
    {
      if IsOpen(stack, x) {
        var i :| 0 <= i < |stack| && stack[i].leaving && stack[i].id == x;
        assert stack'[i] == stack[i];
      }
      if IsOpen(stack', x) {
        var i :| 0 <= i < |stack'| && stack'[i].leaving && stack'[i].id == x;
        assert stack[i] == stack'[i];
      }
    }
  }

  lemma ColorEnter<K(!new)>(s: Snapshots<K>, stack: seq<Visit<K>>, done: seq<K>, colors: Colors<K>, stack': seq<Visit<K>>, id: K)
    requires Colored(s, stack, done, colors) && id !in colors && id in s && Distinct(s[id])
    requires forall x :: IsOpen(stack', x) <==> IsOpen(stack, x) || x == id
    ensures Colored(s, stack', done, colors[id := 1])
  {
  }

  /** A pending entry that names no snapshot is a missing parent. */
  lemma MissingIsOpen<K(!new)>(s: Snapshots<K>, stack: seq<Visit<K>>)
    requires Chained(ParentsIn(s), stack) && stack != [] && stack[0].id in s && stack[|stack| - 1].id !in s
    ensures !Closed(ParentsIn(s))
  {
    var t := |stack| - 1;
    var m := Nearest(stack, t);
    assert stack[t].id in ParentsIn(s)[stack[m].id];
  }

  /** The walk from one root: a colour map and a stack with leaving marks. */
  method Explore<K(==, !new)>(s: Snapshots<K>, root: K, colors: Colors<K>, ghost done: seq<K>)
    returns (ok: bool, colors': Colors<K>, ghost done': seq<K>)
    requires root in s && Walking(ParentsIn(s), [], done) && Colored(s, [], done, colors)
    ensures !ok ==> !ValidGraph(s)
    ensures ok ==> Walking(ParentsIn(s), [], done') && Colored(s, [], done', colors')
    ensures ok ==> root in done' && forall x :: x in done ==> x in done'
  {
    var g := ParentsIn(s);
    var stack := [Visit(root, false)];
    colors', done' := colors, done;
    while stack != []
      invariant Walking(g, stack, done') && Colored(s, stack, done', colors')
      invariant stack != [] ==> stack[0].id == root
      invariant stack == [] ==> root in done'
      invariant forall x :: x in done ==> x in done'
      decreases s.Keys - colors'.Keys, |stack|
    {
      var t := |stack| - 1;
      var Visit(id, leaving) := stack[t];
      if leaving {
        Leave(g, stack, done');
        ColorLeave(s, stack, done', colors');
        assert IsOpen(stack, id);
        colors', done' := colors'[id := 2], done' + [id];
        stack := stack[..t];
      } else if id in colors' && colors'[id] == 2 {
        Skip(g, stack, done');
        ColorSkip(s, stack, done', colors');
        stack := stack[..t];
      } else if id in colors' {
        OpenAgainIsCycle(g, stack);
        return false, colors', done';
      } else if id !in s {
        MissingIsOpen(s, stack);
        return false, colors', done';
      } else {
        var unique := set x | x in s[id];
        DistinctIffCount(s[id]);
        if |unique| != |s[id]| { return false, colors', done'; }
        Enter(g, stack, done', s[id]);
        ColorEnter(s, stack, done', colors', Entered(stack, s[id]), id);
        colors' := colors'[id := 1];
        stack := Entered(stack, s[id]);
      }
    }
    return true, colors', done';
  }

  /** A list has no repetition exactly when its set is as large. */
  lemma {:induction false} DistinctIffCount<K>(s: seq<K>)
    ensures Distinct(s) <==> |set x | x in s| == |s|
    ensures |set x | x in s| <= |s|
  {
    if s != [] {
      var init, last := s[..|s| - 1], s[|s| - 1];
      DistinctIffCount(init);
      assert s == init + [last];
      assert (set x | x in s) == (set x | x in init) + {last};
      if last in init {
        var i :| 0 <= i < |init| && init[i] == last;
        assert s[i] == s[|s| - 1];
      }
    }
  }

  /** Accepts exactly the graphs that are parent-closed, without repeated parents
      and acyclic. */
  method ValidateGraph<K(==, !new)>(s: Snapshots<K>) returns (ok: bool)
    ensures ok <==> ValidGraph(s)
  {
    var colors: Colors<K> := map[];
    ghost var done: seq<K> := [];
    assert forall x :: !IsOpen<K>([], x);
    var rest := s.Keys;
    while rest != {}
      invariant rest <= s.Keys
      invariant Walking(ParentsIn(s), [], done) && Colored(s, [], done, colors)
      invariant forall x :: x in s && x !in rest ==> x in done
    {
      var root :| root in rest;
      ok, colors, done := Explore(s, root, colors, done);
      if !ok { return; }
      rest := rest - {root};
    }
    AllDoneIsValid(s, done, colors);
    return true;
  }

  lemma AllDoneIsValid<K(!new)>(s: Snapshots<K>, done: seq<K>, colors: Colors<K>)
    requires Walking(ParentsIn(s), [], done) && Colored(s, [], done, colors) && forall x :: x in s ==> x in done
    ensures ValidGraph(s)
  {
    var g := ParentsIn(s);
    OrderIsAcyclic(g, done);
    forall n | n in g
      ensures g[n] <= g.Keys
    {
      var i :| 0 <= i < |done| && done[i] == n;
      assert forall x :: x in g[n] ==> x in done[..i];
    }
  }

  // ------------------------------------------------------- loading ancestry

  /** The records reachable from the roots. */
  ghost function SubGraph<K(!new)>(repo: Snapshots<K>, roots: set<K>): Snapshots<K> {
    map x | x in repo && ReachedFrom(ParentsIn(repo), roots, x) :: repo[x]
  }

  ghost predicate Complete<K(!new)>(repo: Snapshots<K>, roots: set<K>) {
    roots <= repo.Keys && Closed(ParentsIn(SubGraph(repo, roots)))
  }

  /** Nothing missing, repeated or cyclic among the ancestors of the roots. */
  ghost predicate Sane<K(!new)>(repo: Snapshots<K>, roots: set<K>) {
    roots <= repo.Keys && ValidGraph(SubGraph(repo, roots))
  }

  ghost predicate Loading<K(!new)>(repo: Snapshots<K>, roots: set<K>, graph: Snapshots<K>, pending: set<K>) {
    && (forall x :: x in graph ==> x in repo && graph[x] == repo[x] && ReachedFrom(ParentsIn(repo), roots, x))
    && (forall x :: x in pending ==> x in roots || exists y :: y in graph && x in graph[y])
    && (forall r :: r in roots ==> r in graph || r in pending)
    && (forall x, y :: x in graph && y in graph[x] ==> y in graph || y in pending)
  }

  lemma LoadStep<K(!new)>(repo: Snapshots<K>, roots: set<K>, graph: Snapshots<K>, pending: set<K>, id: K)
    requires Loading(repo, roots, graph, pending) && id in pending && id in repo
    ensures Loading(repo, roots, graph[id := repo[id]], pending - {id} + set x | x in repo[id])
  {
    var g := ParentsIn(repo);
    if id in roots {
      ReachesSelf(g, id);
    } else {
      var y :| y in graph && id in graph[y];
      var r :| r in roots && Reaches(g, r, y);
      ReachesParent(g, y, id);
      ReachesTrans(g, r, y, id);
    }
    assert ReachedFrom(g, roots, id);
    var graph' := graph[id := repo[id]];
    forall x | x in pending - {id} + set z | z in repo[id]
      ensures x in roots || exists y :: y in graph' && x in graph'[y]
    {
      if x in repo[id] {
        assert id in graph' && x in graph'[id];
      } else if x !in roots {
        var y :| y in graph && x in graph[y];
        assert y in graph' && x in graph'[y];
      }
    }
  }

  lemma LoadMissing<K(!new)>(repo: Snapshots<K>, roots: set<K>, graph: Snapshots<K>, pending: set<K>, id: K)
    requires Loading(repo, roots, graph, pending) && id in pending && id !in repo
    ensures !Complete(repo, roots)
  {
    if id !in roots {
      var y :| y in graph && id in graph[y];
      var sub := SubGraph(repo, roots);
      assert y in sub && id in ParentsIn(sub)[y];
    }
  }

  lemma LoadDone<K(!new)>(repo: Snapshots<K>, roots: set<K>, graph: Snapshots<K>)
    requires Loading(repo, roots, graph, {})
    ensures graph == SubGraph(repo, roots) && Complete(repo, roots)
  {
    LoadedAll(repo, roots, graph);
    assert graph.Keys == SubGraph(repo, roots).Keys;
    assert Closed(ParentsIn(graph));
  }

  lemma LoadedAll<K(!new)>(repo: Snapshots<K>, roots: set<K>, graph: Snapshots<K>)
    requires Loading(repo, roots, graph, {})
    ensures forall x :: x in graph <==> x in repo && ReachedFrom(ParentsIn(repo), roots, x)
  {
    var g := ParentsIn(repo);
    forall x | x in graph.Keys && x in g
      ensures g[x] <= graph.Keys
    {
      assert forall y :: y in graph[x] ==> y in graph;
    }
    ClosedSetIsAll(g, roots, graph.Keys);
  }

  /** Reads every ancestor of the roots; fails on a missing record. */
  method LoadGraph<K(==, !new)>(repo: Snapshots<K>, roots: set<K>) returns (r: Option<Snapshots<K>>)
    ensures r == if Complete(repo, roots) then Some(SubGraph(repo, roots)) else None
  {
    var graph: Snapshots<K> := map[];
    var pending := roots;
    while pending != {}
      invariant Loading(repo, roots, graph, pending)
      decreases repo.Keys - graph.Keys, pending
    {
      var id :| id in pending;
      if id in graph {
        pending := pending - {id};
      } else if id !in repo {
        LoadMissing(repo, roots, graph, pending, id);
        return None;
      } else {
        LoadStep(repo, roots, graph, pending, id);
        graph, pending := graph[id := repo[id]], pending - {id} + set x | x in repo[id];
      }
    }
    LoadDone(repo, roots, graph);
    return Some(graph);
  }

  /** From a loaded node, reachability in the loaded graph is reachability in the
      whole repository. */
  lemma LoadedReaches<K(!new)>(repo: Snapshots<K>, roots: set<K>, a: K, x: K)
    requires Complete(repo, roots) && a in SubGraph(repo, roots)
    ensures Reaches(ParentsIn(SubGraph(repo, roots)), a, x) <==> Reaches(ParentsIn(repo), a, x)
  {
    var g, h := ParentsIn(repo), ParentsIn(SubGraph(repo, roots));
    if Reaches(h, a, x) {
      var p :| PathBetween(h, a, x, p);
      assert IsPath(g, p) by {
        forall i | 0 <= i < |p| - 1
          ensures p[i + 1] in g[p[i]]
        {
          assert p[i + 1] in h[p[i]];
        }
      }
      assert PathBetween(g, a, x, p);
    }
    if Reaches(g, a, x) {
      var p :| PathBetween(g, a, x, p);
      PathStaysLoaded(g, h, p);
      assert PathBetween(h, a, x, p);
    }
  }

  lemma {:induction false} PathStaysLoaded<K>(g: Parents<K>, h: Parents<K>, p: seq<K>)
    requires IsPath(g, p) && p[0] in h && Closed(h) && forall x :: x in h ==> x in g && h[x] == g[x]
    ensures IsPath(h, p)
    decreases |p|
  {
    if |p| >= 2 {
      PathStep(g, p);
      PathStaysLoaded(g, h, p[1..]);
      assert forall i :: 0 < i < |p| ==> p[i] == p[1..][i - 1];
    }
  }

  // --------------------------------------------------------------- history

  /** Everything met so far descends from nothing but the head. */
  ghost predicate FromHead<K(!new)>(g: Parents<K>, head: K, stack: seq<Visit<K>>, done: seq<K>) {
    && (forall i :: 0 <= i < |stack| ==> Reaches(g, head, stack[i].id))
    && (forall x :: x in done ==> Reaches(g, head, x))
    && (stack != [] ==> stack[0].id == head && (stack[0].leaving || done == []))
    && (stack == [] ==> done != [] && done[|done| - 1] == head)
  }

  lemma FromHeadEnter<K(!new)>(g: Parents<K>, head: K, stack: seq<Visit<K>>, done: seq<K>, parents: seq<K>)
    requires Closed(g) && FromHead(g, head, stack, done) && stack != []
    requires var id := stack[|stack| - 1].id; id in g && forall x :: x in g[id] <==> x in parents
    ensures FromHead(g, head, Entered(stack, parents), done)
  {
    var t := |stack| - 1;
    var id := stack[t].id;
    var stack' := Entered(stack, parents);
    forall i | 0 <= i < |stack'|
      ensures Reaches(g, head, stack'[i].id)
    {
      if i > t {
        var x := stack'[i].id;
        assert stack'[i] == Pushes(parents)[i - t - 1] && x in parents;
        ReachesParent(g, id, x);
        ReachesTrans(g, head, id, x);
      } else {
        assert stack'[i].id == stack[i].id;
      }
    }
    assert stack'[0].id == stack[0].id;
  }

  lemma HistoryIsComplete<K(!new)>(g: Parents<K>, head: K, done: seq<K>)
    requires ParentsFirst(g, done) && FromHead(g, head, [], done)
    ensures forall x :: x in done <==> Reaches(g, head, x)
  {
    var pool := set x | x in done;
    forall x, y | x in pool && x in g && y in g[x]
      ensures y in pool
    {
      var i :| 0 <= i < |done| && done[i] == x;
      assert y in done[..i];
    }
    ClosedSetIsAll(g, {head}, pool);
    forall x | Reaches(g, head, x)
      ensures x in done
    {
      assert ReachedFrom(g, {head}, x);
    }
  }

  /** A visited node met again in an acyclic graph is already finished. */
  lemma RevisitIsDone<K(!new)>(g: Parents<K>, stack: seq<Visit<K>>)
    requires Chained(g, stack) && Acyclic(g) && stack != [] && !stack[|stack| - 1].leaving
    ensures !IsOpen(stack, stack[|stack| - 1].id)
  {
    if IsOpen(stack, stack[|stack| - 1].id) { OpenAgainIsCycle(g, stack); }
  }

  /** Depth-first postorder of a validated graph. */
  method PostOrder<K(==, !new)>(graph: Snapshots<K>, head: K) returns (order: seq<K>)
    requires ValidGraph(graph) && head in graph
    ensures var g := ParentsIn(graph);
            && Distinct(order) && ParentsFirst(g, order) && order != [] && order[|order| - 1] == head
            && forall x :: x in order <==> Reaches(g, head, x)
  {
    var g := ParentsIn(graph);
    order := [];
    var visited: set<K> := {};
    var stack := [Visit(head, false)];
    ReachesSelf(g, head);
    assert forall x :: !IsOpen(stack, x);
    while stack != []
      invariant Walking(g, stack, order) && FromHead(g, head, stack, order)
      invariant forall x :: x in visited <==> x in order || IsOpen(stack, x)
      invariant visited <= graph.Keys
      decreases graph.Keys - visited, |stack|
    {
      var t := |stack| - 1;
      var Visit(id, leaving) := stack[t];
      assert t > 0 ==> Nearest(stack, 1) == 0;
      if leaving {
        Leave(g, stack, order);
        OpenAfterPop(stack);
        order := order + [id];
        stack := stack[..t];
      } else if id in visited {
        RevisitIsDone(g, stack);
        Skip(g, stack, order);
        OpenAfterPop(stack);
        stack := stack[..t];
      } else {
        InGraph(graph, stack, head);
        Enter(g, stack, order, graph[id]);
        FromHeadEnter(g, head, stack, order, graph[id]);
        visited := visited + {id};
        stack := Entered(stack, graph[id]);
      }
    }
    HistoryIsComplete(g, head, order);
  }

  lemma OpenAfterPop<K(!new)>(stack: seq<Visit<K>>)
    requires stack != []
    ensures var top := stack[|stack| - 1];
            forall x :: IsOpen(stack, x) <==> IsOpen(stack[..|stack| - 1], x) || (top.leaving && x == top.id)
  {
    var t := |stack| - 1;
    var stack' := stack[..t];
    forall x
      ensures IsOpen(stack, x) <==> IsOpen(stack', x) || (stack[t].leaving && x == stack[t].id)
    {
      if IsOpen(stack, x) {
        var i :| 0 <= i < |stack| && stack[i].leaving && stack[i].id == x;
        assert i < t ==> stack'[i] == stack[i];
      }
      if IsOpen(stack', x) {
        var i :| 0 <= i < |stack'| && stack'[i].leaving && stack'[i].id == x;
        assert stack[i] == stack'[i];
      }
    }
  }

  lemma InGraph<K(!new)>(graph: Snapshots<K>, stack: seq<Visit<K>>, head: K)
    requires Closed(ParentsIn(graph)) && Chained(ParentsIn(graph), stack) && stack != [] && stack[0].id == head && head in graph
    ensures stack[|stack| - 1].id in graph
  {
    var g, t := ParentsIn(graph), |stack| - 1;
    if t > 0 {
      var m := Nearest(stack, t);
      assert stack[t].id in g[stack[m].id];
    }
  }

  /** The ancestors of the head, each once, parents before children, head last. */
  method OrderedHistory<K(==, !new)>(repo: Snapshots<K>, head: K) returns (r: Option<seq<K>>)
    ensures r.Some? <==> Sane(repo, {head})
    ensures r.Some? ==>
      var order := r.value;
      && Distinct(order) && ParentsFirst(ParentsIn(repo), order) && order != [] && order[|order| - 1] == head
      && forall x :: x in order <==> Reaches(ParentsIn(repo), head, x)
  {
    var graph := LoadGraph(repo, {head});
    if graph.None? { return None; }
    var valid := ValidateGraph(graph.value);
    if !valid { return None; }
    ReachesSelf(ParentsIn(repo), head);
    assert ReachedFrom(ParentsIn(repo), {head}, head);
    var order := PostOrder(graph.value, head);
    forall x { LoadedReaches(repo, {head}, head, x); }
    return Some(order);
  }

  /** The export loop looks every parent up among the commits already written. */
  method ExportHistory<K(==, !new)>(repo: Snapshots<K>, history: seq<K>) returns (missing: bool)
    requires forall x :: x in history ==> x in repo
    ensures ParentsFirst(ParentsIn(repo), history) ==> !missing
  {
    var commits: set<K> := {};
    for i := 0 to |history|
      invariant commits == set x | x in history[..i]
    {
      var id := history[i];
      assert id in history;
      if p :| p in repo[id] && p !in commits {
        assert p in ParentsIn(repo)[history[i]];
        return true;
      }
      assert history[..i + 1] == history[..i] + [id];
      commits := commits + {id};
    }
    return false;
  }
}
