/** Closure checks: the worklist over reference edges, the ancestry graphs, and why a
    closure once checked stays whole while the store only grows. */
module StoreClosure {
  import opened Common
  import opened Identity
  import opened Graph
  import opened GraphIndex
  import opened StoreModel

  // ----------------------------------------------------------- the worklist

  /** An edge the closure must satisfy: a root, or one of a collected object. */
  ghost predicate Owed(objects: Objects, roots: seq<Edge>, closure: set<ObjectId>, e: Edge) {
    e in roots || exists x :: x in closure && x in objects && e in objects[x].references
  }

  ghost predicate Collecting(objects: Objects, roots: seq<Edge>, closure: set<ObjectId>, pending: seq<Edge>) {
    && (forall x :: x in closure ==> x in objects && ReachedFrom(Refs(objects), EdgeIds(roots), x))
    && (forall e :: e in pending ==> Owed(objects, roots, closure, e))
    && (forall e :: Owed(objects, roots, closure, e) ==> e in pending || (Satisfied(objects, e) && e.id in closure))
  }

  lemma OwedIsReached(objects: Objects, roots: seq<Edge>, closure: set<ObjectId>, e: Edge)
    requires forall x :: x in closure ==> x in objects && ReachedFrom(Refs(objects), EdgeIds(roots), x)
    requires Owed(objects, roots, closure, e) && e.id in objects
    ensures ReachedFrom(Refs(objects), EdgeIds(roots), e.id)
  {
    var g := Refs(objects);
    if e in roots {
      ReachesSelf(g, e.id);
    } else {
      var x :| x in closure && x in objects && e in objects[x].references;
      var r :| r in EdgeIds(roots) && Reaches(g, r, x);
      ReachesParent(g, x, e.id);
      ReachesTrans(g, r, x, e.id);
    }
  }

  lemma CollectNew(objects: Objects, roots: seq<Edge>, closure: set<ObjectId>, pending: seq<Edge>, e: Edge)
    requires Collecting(objects, roots, closure, pending + [e]) && Satisfied(objects, e)
    ensures Collecting(objects, roots, closure + {e.id}, pending + objects[e.id].references)
  {
    var closure', pending' := closure + {e.id}, pending + objects[e.id].references;
    assert e in pending + [e];
    OwedIsReached(objects, roots, closure, e);
    forall d
      ensures Owed(objects, roots, closure', d) <==> Owed(objects, roots, closure, d) || d in objects[e.id].references
    {
    }
    forall d | d in pending
      ensures Owed(objects, roots, closure, d)
    {
      assert d in pending + [e];
    }
  }

  lemma Collected(objects: Objects, roots: seq<Edge>, closure: set<ObjectId>)
    requires Collecting(objects, roots, closure, [])
    ensures ClosureOk(objects, roots) && forall x :: x in closure <==> x in ClosureOf(objects, roots)
  {
    var g := Refs(objects);
    forall e | e in roots
      ensures Satisfied(objects, e) && e.id in closure
    {
      assert Owed(objects, roots, closure, e);
    }
    forall x, e | x in closure && e in objects[x].references
      ensures Satisfied(objects, e) && e.id in closure
    {
      assert Owed(objects, roots, closure, e);
    }
    ClosedSetIsAll(g, EdgeIds(roots), closure);
  }

  /** Follows every edge from the roots; fails on one whose object is not visible or
      has another kind than the edge expects. */
  method ClosureFrom(objects: Objects, roots: seq<Edge>) returns (r: Option<Objects>)
    ensures r.Some? <==> ClosureOk(objects, roots)
    ensures r.Some? ==> r.value == ClosureOf(objects, roots)
  {
    var closure: Objects := map[];
    var pending := roots;
    while pending != []
      invariant Collecting(objects, roots, closure.Keys, pending) && Extends(closure, objects)
      decreases objects.Keys - closure.Keys, |pending|
    {
      var rest, e := pending[..|pending| - 1], pending[|pending| - 1];
      assert pending == rest + [e];
      if !Satisfied(objects, e) {
        return None;
      }
      if e.id in closure {
        pending := rest;
      } else {
        CollectNew(objects, roots, closure.Keys, rest, e);
        pending := rest + objects[e.id].references;
        ghost var known := closure.Keys;
        closure := closure[e.id := objects[e.id]];
        assert closure.Keys == known + {e.id};
        assert e.id in objects.Keys - known;
      }
    }
    Collected(objects, roots, closure.Keys);
    return Some(closure);
  }

  /** Builds the ancestry index of both kinds over the closure. */
  method ValidateAncestry(closure: Objects) returns (ok: bool)
    ensures ok <==> AncestryOk(closure)
  {
    var snapshots := BuildParents(Ancestry(closure, SNAPSHOT));
    if snapshots.Bad? { return false; }
    var operations := BuildParents(Ancestry(closure, OPERATION));
    return operations.Good?;
  }

  // ---------------------------------------------------------- whole objects

  ghost predicate AncestorsOk(objects: Objects, kind: u64, x: ObjectId) {
    x in Ancestry(objects, kind) ==>
      && Ancestry(objects, kind)[x] <= Ancestry(objects, kind).Keys
      && !OnCycle(Ancestry(objects, kind), x)
  }

  ghost predicate NodeOk(objects: Objects, x: ObjectId) {
    EdgesOk(objects, x) && AncestorsOk(objects, SNAPSHOT, x) && AncestorsOk(objects, OPERATION, x)
  }

  /** An object is stored and everything transitively referenced from it is stored
      with the kinds its edges expect and with acyclic ancestry. */
  ghost predicate Whole(objects: Objects, x: ObjectId) {
    x in objects && forall y :: Reaches(Refs(objects), x, y) ==> NodeOk(objects, y)
  }

  lemma WholeParts(objects: Objects, x: ObjectId, y: ObjectId)
    requires Whole(objects, x) && Reaches(Refs(objects), x, y)
    ensures Whole(objects, y)
  {
    var g := Refs(objects);
    var p :| PathBetween(g, x, y, p);
    forall z | Reaches(g, y, z)
      ensures NodeOk(objects, z)
    {
      ReachesTrans(g, x, y, z);
    }
  }

  lemma WholeChild(objects: Objects, x: ObjectId, y: ObjectId)
    requires Whole(objects, x) && y in Refs(objects)[x]
    ensures Whole(objects, y)
  {
    ReachesSelf(Refs(objects), x);
    assert NodeOk(objects, x);
    ReachesParent(Refs(objects), x, y);
    WholeParts(objects, x, y);
  }

  /** From a whole object, growth of the store opens no new path. */
  lemma {:induction false} PathStaysInside(objects: Objects, objects': Objects, p: seq<ObjectId>)
    requires Extends(objects, objects') && IsPath(Refs(objects'), p) && Whole(objects, p[0])
    ensures IsPath(Refs(objects), p)
    decreases |p|
  {
    if |p| >= 2 {
      PathStep(Refs(objects'), p);
      WholeChild(objects, p[0], p[1]);
      PathStaysInside(objects, objects', p[1..]);
      assert forall i :: 0 < i < |p| ==> p[i] == p[1..][i - 1];
    }
  }

  /** The same for ancestry paths. */
  lemma {:induction false} AncestryStaysInside(objects: Objects, objects': Objects, kind: u64, p: seq<ObjectId>)
    requires kind == SNAPSHOT || kind == OPERATION
    requires Extends(objects, objects') && IsPath(Ancestry(objects', kind), p) && Whole(objects, p[0])
    ensures IsPath(Ancestry(objects, kind), p)
    decreases |p|
  {
    if |p| >= 2 {
      PathStep(Ancestry(objects', kind), p);
      assert p[1] in Refs(objects)[p[0]];
      WholeChild(objects, p[0], p[1]);
      AncestryStaysInside(objects, objects', kind, p[1..]);
      assert forall i :: 0 < i < |p| ==> p[i] == p[1..][i - 1];
    }
  }

  lemma CycleStaysInside(objects: Objects, objects': Objects, kind: u64, x: ObjectId)
    requires kind == SNAPSHOT || kind == OPERATION
    requires Extends(objects, objects') && Whole(objects, x) && OnCycle(Ancestry(objects', kind), x)
    ensures OnCycle(Ancestry(objects, kind), x)
  {
    var p :| PathBetween(Ancestry(objects', kind), x, x, p) && |p| >= 2;
    AncestryStaysInside(objects, objects', kind, p);
    assert PathBetween(Ancestry(objects, kind), x, x, p);
  }

  lemma AncestorsStayOk(objects: Objects, objects': Objects, kind: u64, x: ObjectId)
    requires kind == SNAPSHOT || kind == OPERATION
    requires Extends(objects, objects') && Whole(objects, x)
    ensures AncestorsOk(objects', kind, x)
  {
    ReachesSelf(Refs(objects), x);
    assert NodeOk(objects, x);
    var g, g' := Ancestry(objects, kind), Ancestry(objects', kind);
    if x in g' {
      assert x in g && g[x] == g'[x];
      assert forall y :: y in g ==> y in g';
      if OnCycle(g', x) { CycleStaysInside(objects, objects', kind, x); }
    }
  }

  /** A whole object stays whole when objects are added. */
  lemma WholeGrows(objects: Objects, objects': Objects, x: ObjectId)
    requires Extends(objects, objects') && Whole(objects, x)
    ensures Whole(objects', x)
  {
    forall y | Reaches(Refs(objects'), x, y)
      ensures NodeOk(objects', y)
    {
      var p :| PathBetween(Refs(objects'), x, y, p);
      PathStaysInside(objects, objects', p);
      assert PathBetween(Refs(objects), x, y, p);
      WholeParts(objects, x, y);
      assert NodeOk(objects, y);
      assert EdgesOk(objects', y);
      AncestorsStayOk(objects, objects', SNAPSHOT, y);
      AncestorsStayOk(objects, objects', OPERATION, y);
    }
  }

  // ------------------------------------------- what the checks establish

  lemma {:induction false} AncestryInClosure(objects: Objects, closure: Objects, kind: u64, p: seq<ObjectId>)
    requires Extends(closure, objects) && Closed(Ancestry(closure, kind))
    requires IsPath(Ancestry(objects, kind), p) && p[0] in Ancestry(closure, kind)
    ensures IsPath(Ancestry(closure, kind), p)
    decreases |p|
  {
    if |p| >= 2 {
      PathStep(Ancestry(objects, kind), p);
      AncestryInClosure(objects, closure, kind, p[1..]);
      assert forall i :: 0 < i < |p| ==> p[i] == p[1..][i - 1];
    }
  }

  lemma CycleInClosure(objects: Objects, closure: Objects, kind: u64, x: ObjectId)
    requires Extends(closure, objects) && Closed(Ancestry(closure, kind))
    requires x in Ancestry(closure, kind) && OnCycle(Ancestry(objects, kind), x)
    ensures OnCycle(Ancestry(closure, kind), x)
  {
    var p :| PathBetween(Ancestry(objects, kind), x, x, p) && |p| >= 2;
    AncestryInClosure(objects, closure, kind, p);
    assert PathBetween(Ancestry(closure, kind), x, x, p);
  }

  lemma ClosureAncestors(objects: Objects, closure: Objects, kind: u64, x: ObjectId)
    requires Extends(closure, objects) && x in closure
    requires Closed(Ancestry(closure, kind)) && Acyclic(Ancestry(closure, kind))
    ensures AncestorsOk(objects, kind, x)
  {
    var g, h := Ancestry(objects, kind), Ancestry(closure, kind);
    if x in g {
      assert x in h && h[x] == g[x] && h.Keys <= g.Keys;
      if OnCycle(g, x) { CycleInClosure(objects, closure, kind, x); }
    }
  }

  /** Passing both checks makes every root whole. */
  lemma CheckedIsWhole(objects: Objects, roots: seq<Edge>, e: Edge)
    requires ClosureOk(objects, roots) && AncestryOk(ClosureOf(objects, roots)) && e in roots
    ensures Whole(objects, e.id)
  {
    var closure := ClosureOf(objects, roots);
    assert e.id in EdgeIds(roots);
    forall y | Reaches(Refs(objects), e.id, y)
      ensures NodeOk(objects, y)
    {
      var p :| PathBetween(Refs(objects), e.id, y, p);
      assert ReachedFrom(Refs(objects), EdgeIds(roots), y);
      ClosureAncestors(objects, closure, SNAPSHOT, y);
      ClosureAncestors(objects, closure, OPERATION, y);
    }
  }
}
