/** What the store lets through: the checks accept every whole publication, an operation
    head can always be advanced, and the plain operations do what they are for. */
module StoreProgress {
  import opened Common
  import opened Canonical
  import opened Identity
  import opened Graph
  import opened StoreModel
  import opened StoreClosure
  import opened StoreRuns
  import opened StoreGuarantees

  // ------------------------------------------------- whole roots pass the checks

  lemma {:induction false} PathInLarger(objects: Objects, objects': Objects, kind: u64, p: seq<ObjectId>)
    requires Extends(objects, objects') && IsPath(Ancestry(objects, kind), p)
    ensures IsPath(Ancestry(objects', kind), p)
  {
    var g, g' := Ancestry(objects, kind), Ancestry(objects', kind);
    assert forall x :: x in g ==> x in g' && g'[x] == g[x];
  }

  lemma CycleInLarger(objects: Objects, objects': Objects, kind: u64, x: ObjectId)
    requires Extends(objects, objects') && OnCycle(Ancestry(objects, kind), x)
    ensures OnCycle(Ancestry(objects', kind), x)
  {
    var p :| PathBetween(Ancestry(objects, kind), x, x, p) && |p| >= 2;
    PathInLarger(objects, objects', kind, p);
    assert PathBetween(Ancestry(objects', kind), x, x, p);
  }

  ghost predicate RootsWhole(objects: Objects, roots: seq<Edge>) {
    forall e :: e in roots ==> Satisfied(objects, e) && Whole(objects, e.id)
  }

  lemma ReachedIsOk(objects: Objects, roots: seq<Edge>, x: ObjectId)
    requires RootsWhole(objects, roots) && ReachedFrom(Refs(objects), EdgeIds(roots), x)
    ensures Whole(objects, x) && NodeOk(objects, x)
  {
    var r :| r in EdgeIds(roots) && Reaches(Refs(objects), r, x);
    var e :| e in roots && e.id == r;
    WholeParts(objects, r, x);
  }

  lemma ClosureKeepsParent(objects: Objects, roots: seq<Edge>, kind: u64, x: ObjectId, y: ObjectId)
    requires RootsWhole(objects, roots) && x in Ancestry(ClosureOf(objects, roots), kind) && y in Ancestry(ClosureOf(objects, roots), kind)[x]
    requires kind == SNAPSHOT || kind == OPERATION
    ensures y in Ancestry(ClosureOf(objects, roots), kind)
  {
    ReachedIsOk(objects, roots, x);
    assert y in Ancestry(objects, kind)[x] && y in Refs(objects)[x];
    assert AncestorsOk(objects, kind, x) && y in objects;
    var r :| r in EdgeIds(roots) && Reaches(Refs(objects), r, x);
    ReachesParent(Refs(objects), x, y);
    ReachesTrans(Refs(objects), r, x, y);
    assert y in ClosureOf(objects, roots);
  }

  lemma ClosureAncestryOk(objects: Objects, roots: seq<Edge>, kind: u64)
    requires RootsWhole(objects, roots) && (kind == SNAPSHOT || kind == OPERATION)
    ensures Closed(Ancestry(ClosureOf(objects, roots), kind)) && Acyclic(Ancestry(ClosureOf(objects, roots), kind))
  {
    var closure := ClosureOf(objects, roots);
    var g := Ancestry(closure, kind);
    forall x, y | x in g && y in g[x]
      ensures y in g
    {
      ClosureKeepsParent(objects, roots, kind, x, y);
    }
    forall x
      ensures !OnCycle(g, x)
    {
      if x in g {
        ReachedIsOk(objects, roots, x);
        if OnCycle(g, x) { CycleInLarger(closure, objects, kind, x); }
      }
    }
  }

  /** The closure walk and the ancestry indexes accept exactly the roots that exist with
      the expected kind and are whole. */
  lemma CheckedExactly(objects: Objects, roots: seq<Edge>)
    ensures ClosureOk(objects, roots) && AncestryOk(ClosureOf(objects, roots)) <==> RootsWhole(objects, roots)
  {
    if RootsWhole(objects, roots) {
      ClosureAncestryOk(objects, roots, SNAPSHOT);
      ClosureAncestryOk(objects, roots, OPERATION);
      forall x | ReachedFrom(Refs(objects), EdgeIds(roots), x)
        ensures EdgesOk(objects, x)
      {
        ReachedIsOk(objects, roots, x);
      }
    }
    if ClosureOk(objects, roots) && AncestryOk(ClosureOf(objects, roots)) {
      forall e | e in roots
        ensures Whole(objects, e.id)
      {
        CheckedIsWhole(objects, roots, e);
      }
    }
  }

  // ------------------------------------------------------- the visible part

  /** Nothing reachable from `x` is quarantined. */
  ghost predicate Unhidden(s: Snapshot, x: ObjectId) {
    forall y :: Reaches(Refs(s.objects), x, y) ==> y !in s.quarantined
  }

  lemma VisibleReach(s: Snapshot, x: ObjectId, y: ObjectId)
    requires Reaches(Refs(VisibleObjects(s)), x, y)
    ensures Reaches(Refs(s.objects), x, y)
  {
    var p :| PathBetween(Refs(VisibleObjects(s)), x, y, p);
    assert forall z :: z in Refs(VisibleObjects(s)) ==> z in Refs(s.objects) && Refs(s.objects)[z] == Refs(VisibleObjects(s))[z];
    assert PathBetween(Refs(s.objects), x, y, p);
  }

  lemma VisibleNode(s: Snapshot, x: ObjectId, y: ObjectId)
    requires Whole(s.objects, x) && Unhidden(s, x) && Reaches(Refs(VisibleObjects(s)), x, y)
    ensures NodeOk(VisibleObjects(s), y)
  {
    VisibleReach(s, x, y);
    assert NodeOk(s.objects, y);
    forall e | y in s.objects && e in s.objects[y].references
      ensures e.id in VisibleObjects(s)
    {
      assert Satisfied(s.objects, e);
      ReachesParent(Refs(s.objects), y, e.id);
      ReachesTrans(Refs(s.objects), x, y, e.id);
    }
    VisibleAncestors(s, SNAPSHOT, y);
    VisibleAncestors(s, OPERATION, y);
  }

  lemma VisibleAncestors(s: Snapshot, kind: u64, y: ObjectId)
    requires AncestorsOk(s.objects, kind, y)
    requires forall e :: y in s.objects && e in s.objects[y].references ==> e.id in VisibleObjects(s)
    ensures AncestorsOk(VisibleObjects(s), kind, y)
  {
    var v := VisibleObjects(s);
    if y in Ancestry(v, kind) {
      assert Ancestry(v, kind)[y] == Ancestry(s.objects, kind)[y];
      if OnCycle(Ancestry(v, kind), y) { CycleInLarger(v, s.objects, kind, y); }
    }
  }

  lemma WholeIsVisible(s: Snapshot, x: ObjectId)
    requires Whole(s.objects, x) && Unhidden(s, x)
    ensures Whole(VisibleObjects(s), x)
  {
    ReachesSelf(Refs(s.objects), x);
    forall y | Reaches(Refs(VisibleObjects(s)), x, y)
      ensures NodeOk(VisibleObjects(s), y)
    {
      VisibleNode(s, x, y);
    }
  }

  // ----------------------------------------------------- advancing the head

  /** An operation without actions on top of the current head, if there is one. */
  ghost predicate OnTop(s: Snapshot, operation: StoredObject) {
    && operation.kind == OPERATION && operation.value.Map?
    && MapField(operation.value, 8) == Some(Array([]))
    && operation.references == if OperationHead in s.references then [ToHead(s)] else []
  }

  ghost function ToHead(s: Snapshot): Edge
    requires OperationHead in s.references
  {
    Edge(OperationParent, Some(OPERATION), s.references[OperationHead].target)
  }

  ghost function Current(s: Snapshot, key: ReferenceKey): Expected {
    if key in s.references then Exact(s.references[key]) else Absent
  }

  ghost function Advance(s: Snapshot, c: Candidate): Publication {
    Publication([c], [RefUpdate(OperationHead, Current(s, OperationHead), c.id)], c.id)
  }

  /** A new object with no edges, or with one edge to a whole object, is whole. */
  lemma NewIsWhole(objects: Objects, id: ObjectId, o: StoredObject)
    requires id !in objects && o.kind == OPERATION
    requires forall e :: e in o.references ==> e.role == OperationParent && e.id in objects && objects[e.id].kind == OPERATION && Satisfied(objects, e) && Whole(objects, e.id)
    ensures Whole(objects[id := o], id)
  {
    var objects' := objects[id := o];
    var g := Refs(objects');
    forall e | e in o.references
      ensures Whole(objects', e.id) && !Reaches(g, e.id, id)
    {
      WholeGrows(objects, objects', e.id);
      NotReached(objects, objects', e.id, id);
    }
    NewNodeOk(objects', id, o);
    forall y | Reaches(g, id, y)
      ensures NodeOk(objects', y)
    {
      if y != id {
        var p :| PathBetween(g, id, y, p);
        PathStep(g, p);
        assert PathBetween(g, p[1], y, p[1..]);
        assert Whole(objects', p[1]);
      }
    }
  }

  lemma NotReached(objects: Objects, objects': Objects, x: ObjectId, id: ObjectId)
    requires Extends(objects, objects') && Whole(objects, x) && id !in objects
    ensures !Reaches(Refs(objects'), x, id)
  {
    forall p
      ensures !PathBetween(Refs(objects'), x, id, p)
    {
      if PathBetween(Refs(objects'), x, id, p) { PathStaysInside(objects, objects', p); }
    }
  }

  lemma NewNodeOk(objects: Objects, id: ObjectId, o: StoredObject)
    requires id in objects && objects[id] == o && o.kind == OPERATION
    requires forall e :: e in o.references ==> e.role == OperationParent && Satisfied(objects, e) && objects[e.id].kind == OPERATION && !Reaches(Refs(objects), e.id, id)
    ensures NodeOk(objects, id)
  {
    var g := Ancestry(objects, OPERATION);
    forall p
      ensures !(PathBetween(g, id, id, p) && |p| >= 2)
    {
      if PathBetween(g, id, id, p) && |p| >= 2 {
        PathStep(g, p);
        AncestryIsRefs(objects, OPERATION, p[1..]);
      }
    }
  }

  lemma AncestryIsRefs(objects: Objects, kind: u64, p: seq<ObjectId>)
    requires IsPath(Ancestry(objects, kind), p)
    ensures Reaches(Refs(objects), p[0], p[|p| - 1])
  {
    assert forall x :: x in Ancestry(objects, kind) ==> x in Refs(objects) && Ancestry(objects, kind)[x] <= Refs(objects)[x];
    assert PathBetween(Refs(objects), p[0], p[|p| - 1], p);
  }

  lemma HeadIsWhole(decode: Decode, s: Snapshot)
    requires Sound(decode, s) && OperationHead in s.references && Unhidden(s, s.references[OperationHead].target)
    ensures Satisfied(VisibleObjects(s), ToHead(s)) && Whole(VisibleObjects(s), ToHead(s).id)
  {
    assert Anchored(s.objects, OperationHead, s.references[OperationHead]);
    WholeIsVisible(s, s.references[OperationHead].target);
  }

  lemma AdvanceAdmits(decode: Decode, s: Snapshot, c: Candidate)
    requires decode(c.id, c.bytes).Some? && c.id !in s.objects && c.id !in s.quarantined
    ensures Admit(decode, [c], s.objects) == Some(s.objects[c.id := decode(c.id, c.bytes).value])
    ensures var staged := WithObjects(Advance(s, c), s, s.objects[c.id := decode(c.id, c.bytes).value]);
            VisibleObjects(staged) == VisibleObjects(s)[c.id := decode(c.id, c.bytes).value]
  {
    assert [c][..0] == [];
    assert Admit(decode, [], s.objects) == Some(s.objects);
  }

  lemma AdvanceIsClosed(decode: Decode, s: Snapshot, c: Candidate)
    requires Sound(decode, s) && (OperationHead in s.references ==> Unhidden(s, s.references[OperationHead].target))
    requires decode(c.id, c.bytes).Some? && c.id !in s.objects && OnTop(s, decode(c.id, c.bytes).value)
    ensures RootsWhole(VisibleObjects(s)[c.id := decode(c.id, c.bytes).value], Roots(Advance(s, c)))
  {
    var o, v := decode(c.id, c.bytes).value, VisibleObjects(s);
    if OperationHead in s.references { HeadIsWhole(decode, s); }
    NewIsWhole(v, c.id, o);
    forall e | e in Roots(Advance(s, c))
      ensures e == Edge(OtherRole(0), Some(OPERATION), c.id)
    {
    }
  }

  /** In every sound store whose head is not hidden, an operation on top of the head is
      accepted: the head can always be advanced. */
  lemma AdvanceIsAccepted(decode: Decode, s: Snapshot, c: Candidate)
    requires Sound(decode, s) && !Full(s)
    requires OperationHead in s.references ==> Unhidden(s, s.references[OperationHead].target)
    requires decode(c.id, c.bytes).Some? && OnTop(s, decode(c.id, c.bytes).value)
    requires c.id !in s.objects && c.id !in s.quarantined
    ensures Acceptable(decode, Advance(s, c), s)
  {
    var o, p := decode(c.id, c.bytes).value, Advance(s, c);
    var staged := WithObjects(p, s, s.objects[c.id := o]);
    AdvanceAdmits(decode, s, c);
    AdvanceIsClosed(decode, s, c);
    CheckedExactly(VisibleObjects(staged), Roots(p));
    NoGenerationOverflow(decode, s, OperationHead);
    AdvanceIsCovered(s, c, o, staged);
  }

  lemma AdvanceIsCovered(s: Snapshot, c: Candidate, o: StoredObject, staged: Snapshot)
    requires OnTop(s, o)
    ensures OperationCovers(Advance(s, c), o, staged)
  {
    var u := Advance(s, c).updates[0];
    assert u.expected.Exact? ==> o.references[0] == ToHead(s);
    assert Effects(Advance(s, c).updates[..0]) == [];
    assert Pairing([], [], staged, []);
    assert Effects(Advance(s, c).updates) == [];
  }

  /** From every reachable state, one thread that begins and commits it undisturbed makes
      it the head. */
  lemma HeadCanAdvance(decode: Decode, events: seq<Event>, thread: nat, c: Candidate)
    requires Lawful(decode) && thread !in Run(decode, events).flights && !Full(Run(decode, events).store)
    requires var s := Run(decode, events).store;
             && (OperationHead in s.references ==> Unhidden(s, s.references[OperationHead].target))
             && decode(c.id, c.bytes).Some? && OnTop(s, decode(c.id, c.bytes).value)
             && c.id !in s.objects && c.id !in s.quarantined
    ensures var more := [Begin(thread, Advance(Run(decode, events).store, c)), Commit(thread)];
            HeadOf(Run(decode, events + more).store) == Some(c.id)
  {
    var sys := Run(decode, events);
    var p := Advance(sys.store, c);
    AlwaysSound(decode, events);
    AdvanceIsAccepted(decode, sys.store, c);
    RunTwo(decode, events, Begin(thread, p), Commit(thread));
    UndisturbedCommits(decode, sys, thread, p);
    HeadMoves(sys.store.references, p, p.updates[0]);
  }

  lemma RunTwo(decode: Decode, events: seq<Event>, a: Event, b: Event)
    ensures Run(decode, events + [a, b]) == Next(decode, Next(decode, Run(decode, events), a), b)
  {
    var first, both := events + [a], events + [a, b];
    assert first[..|first| - 1] == events && both[..|both| - 1] == first;
  }

  lemma UndisturbedCommits(decode: Decode, sys: System, thread: nat, p: Publication)
    requires thread !in sys.flights && !Full(sys.store) && Acceptable(decode, p, sys.store)
    ensures var sys' := Next(decode, Next(decode, sys, Begin(thread, p)), Commit(thread));
            sys'.store.references == Moved(sys.store.references, p.operation, p.updates)
  {
    var begun := Next(decode, sys, Begin(thread, p));
    assert begun.flights[thread] == Flight(p, Staged(decode, p, sys.store), sys.store.revision) && begun.store == sys.store;
  }

  // ------------------------------------------------------- the plain operations

  /** An object that verifies is stored with its bytes, and no longer promised; one that
      does not verify changes nothing. */
  lemma PutStores(decode: Decode, s: Snapshot, id: ObjectId, bytes: Bytes)
    requires Lawful(decode) && !Full(s)
    ensures var s' := Apply(decode, s, Put(id, bytes));
            && (decode(id, bytes).None? || id in s.objects ==> s' == s)
            && (decode(id, bytes).Some? && id !in s.objects ==>
                  && id in s'.objects && s'.objects[id].bytes == bytes && id !in s'.promised
                  && s'.objects.Keys == s.objects.Keys + {id} && Extends(s.objects, s'.objects)
                  && s'.references == s.references && s'.quarantined == s.quarantined)
  {
  }

  /** Once quarantined, an object stays quarantined through every run. */
  lemma {:induction false} QuarantineLasts(decode: Decode, events: seq<Event>, i: nat, id: ObjectId)
    requires i <= |events| && id in Run(decode, events[..i]).store.quarantined
    ensures id in Run(decode, events).store.quarantined
    decreases |events|
  {
    if i == |events| {
      assert events[..i] == events;
    } else {
      var init := events[..|events| - 1];
      assert init[..i] == events[..i];
      QuarantineLasts(decode, init, i, id);
      Linearizable(decode, init);
      StepKeepsQuarantine(decode, Run(decode, init), events[|events| - 1]);
    }
  }

  lemma StepKeepsQuarantine(decode: Decode, sys: System, e: Event)
    requires FlightsOk(decode, sys)
    ensures sys.store.quarantined <= Next(decode, sys, e).store.quarantined
  {
    StepIsAtomic(decode, sys, e);
  }

  /** A known object that is quarantined is in no later publication. */
  lemma QuarantinedNeverPublished(decode: Decode, events: seq<Event>, i: nat, id: ObjectId, e: Event, r: ObjectId)
    requires i < |events| && events[i] == At(Quarantine(id))
    requires var s := Run(decode, events[..i]).store; (id in s.objects || id in s.promised) && !Full(s)
    requires Wins(Run(decode, events), e) && Published(Run(decode, events).flights[e.thread].publication, r)
    ensures !Reaches(Refs(Next(decode, Run(decode, events), e).store.objects), r, id)
  {
    assert events[..i + 1][..i] == events[..i];
    assert id in Run(decode, events[..i + 1]).store.quarantined;
    QuarantineLasts(decode, events, i + 1, id);
    if Reaches(Refs(Next(decode, Run(decode, events), e).store.objects), r, id) {
      NoWinnerPublishesQuarantined(decode, events, e, r, id);
    }
  }

  /** A missing object can be promised, once, and nothing else changes. */
  lemma PromiseMarks(decode: Decode, s: Snapshot, id: ObjectId)
    requires !Full(s)
    ensures var s' := Apply(decode, s, Promise(id));
            && s'.promised == (if id in s.objects then s.promised else s.promised + {id})
            && s'.objects == s.objects && s'.references == s.references && s'.quarantined == s.quarantined
  {
  }
}
