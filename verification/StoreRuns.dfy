/** The store as a state machine: atomic operations, publishers that stage and commit
    in separate steps, and what holds over every interleaving. */
module StoreRuns {
  import opened Common
  import opened Canonical
  import opened Identity
  import opened StoreModel
  import opened StoreClosure

  // ------------------------------------------------------ atomic operations

  datatype Operation =
    | Put(id: ObjectId, bytes: Bytes)
    | Promise(id: ObjectId)
    | Quarantine(id: ObjectId)
    | Publish(publication: Publication)

  predicate Full(s: Snapshot) {
    s.revision + 1 == TWO_64
  }

  function AfterPut(decode: Decode, s: Snapshot, id: ObjectId, bytes: Bytes): Snapshot {
    var decoded := decode(id, bytes);
    if decoded.None? || id in s.objects || Full(s) then s
    else s.(objects := s.objects[id := decoded.value], promised := s.promised - {id}, revision := s.revision + 1)
  }

  function AfterPromise(s: Snapshot, id: ObjectId): Snapshot {
    if id in s.objects || id in s.promised || Full(s) then s
    else s.(promised := s.promised + {id}, revision := s.revision + 1)
  }

  function AfterQuarantine(s: Snapshot, id: ObjectId): Snapshot {
    if (id !in s.objects && id !in s.promised) || id in s.quarantined || Full(s) then s
    else s.(quarantined := s.quarantined + {id}, revision := s.revision + 1)
  }

  ghost function AfterPublish(decode: Decode, s: Snapshot, p: Publication): Snapshot {
    if Full(s) || !Acceptable(decode, p, s) then s else Staged(decode, p, s).(revision := s.revision + 1)
  }

  /** One operation applied at once. */
  ghost function Apply(decode: Decode, s: Snapshot, op: Operation): Snapshot {
    match op
    case Put(id, bytes) => AfterPut(decode, s, id, bytes)
    case Promise(id) => AfterPromise(s, id)
    case Quarantine(id) => AfterQuarantine(s, id)
    case Publish(p) => AfterPublish(decode, s, p)
  }

  const EMPTY := Snapshot(map[], {}, {}, map[], 0)

  ghost function Sequential(decode: Decode, ops: seq<Operation>): Snapshot {
    if ops == [] then EMPTY else Apply(decode, Sequential(decode, ops[..|ops| - 1]), ops[|ops| - 1])
  }

  /** An operation either changes nothing or advances the revision by one. */
  lemma RevisionTellsChange(decode: Decode, s: Snapshot, op: Operation)
    ensures Apply(decode, s, op) == s || Apply(decode, s, op).revision == s.revision + 1
  {
  }

  // ---------------------------------------------------------- the invariant

  /** What a stored reference guarantees. */
  ghost predicate Anchored(objects: Objects, key: ReferenceKey, r: ReferenceState) {
    && Whole(objects, r.target) && objects[r.target].kind == ExpectedKind(key) && IdentityMatches(key, objects[r.target])
    && Whole(objects, r.operation) && objects[r.operation].kind == OPERATION
    && (key.Line? ==>
          && UnsignedOf(MapField(objects[r.target].value, 6)) == Some(r.generation)
          && IdIn(MapField(objects[r.target].value, 12)) == Some(r.operation))
    && (key.OperationHead? ==> r.target == r.operation)
  }

  ghost predicate Sound(decode: Decode, s: Snapshot) {
    && Verified(decode, s.objects)
    && s.promised !! s.objects.Keys
    && (forall k :: k in s.references ==> Anchored(s.objects, k, s.references[k]))
    && (forall k :: k in s.references ==> s.references[k].generation < s.revision)
  }

  lemma AnchoredGrows(objects: Objects, objects': Objects, key: ReferenceKey, r: ReferenceState)
    requires Extends(objects, objects') && Anchored(objects, key, r)
    ensures Anchored(objects', key, r)
  {
    WholeGrows(objects, objects', r.target);
    WholeGrows(objects, objects', r.operation);
  }

  lemma PutKeepsSound(decode: Decode, s: Snapshot, id: ObjectId, bytes: Bytes)
    requires Lawful(decode) && Sound(decode, s)
    ensures Sound(decode, AfterPut(decode, s, id, bytes))
  {
    var s' := AfterPut(decode, s, id, bytes);
    forall k | k in s.references
      ensures Anchored(s'.objects, k, s.references[k])
    {
      AnchoredGrows(s.objects, s'.objects, k, s.references[k]);
    }
  }

  // ------------------------------------------------ a publication's effects

  lemma RootIn(p: Publication, u: RefUpdate)
    requires u in p.updates
    ensures Edge(OtherRole(0), Some(ExpectedKind(u.key)), u.target) in Roots(p)
  {
    var i :| 0 <= i < |p.updates| && p.updates[i] == u;
    assert Roots(p)[i + 1] == Edge(OtherRole(0), Some(ExpectedKind(u.key)), u.target);
  }

  lemma RootsAreWhole(p: Publication, staged: Snapshot, e: Edge)
    requires ClosureOk(VisibleObjects(staged), Roots(p)) && AncestryOk(ClosureOf(VisibleObjects(staged), Roots(p)))
    requires e in Roots(p)
    ensures Whole(staged.objects, e.id)
  {
    CheckedIsWhole(VisibleObjects(staged), Roots(p), e);
    WholeGrows(VisibleObjects(staged), staged.objects, e.id);
  }

  /** The line state's own generation field is the reference's new generation. */
  lemma LineGenerationAgrees(refs: References, operation: ObjectId, u: RefUpdate, staged: Snapshot)
    requires u.key.Line? && ExpectedHolds(refs, u) && LineOk(u, staged, operation)
    ensures GenerationFits(refs, u.key)
    ensures UnsignedOf(MapField(staged.objects[u.target].value, 6)) == Some(NextState(refs, operation, u).generation)
  {
  }

  lemma UpdateIsAnchored(decode: Decode, p: Publication, s: Snapshot, u: RefUpdate)
    requires Acceptable(decode, p, s) && u in p.updates
    ensures Anchored(Staged(decode, p, s).objects, u.key, NextState(s.references, p.operation, u))
  {
    var staged := WithObjects(p, s, Admit(decode, p.objects, s.objects).value);
    RootIn(p, u);
    RootsAreWhole(p, staged, Edge(OtherRole(0), Some(ExpectedKind(u.key)), u.target));
    RootsAreWhole(p, staged, Roots(p)[0]);
    if u.key.Line? {
      assert UpdateAllowed(u, Visible(staged, p.operation).value, p.operation, staged);
      LineGenerationAgrees(s.references, p.operation, u, staged);
    }
  }

  lemma StagedReference(decode: Decode, p: Publication, s: Snapshot, k: ReferenceKey)
    requires Acceptable(decode, p, s) && k in Staged(decode, p, s).references
    ensures var r := Staged(decode, p, s).references[k];
            || (exists u :: u in p.updates && u.key == k && r == NextState(s.references, p.operation, u))
            || (k in s.references && r == s.references[k])
  {
    MovedExactly(s.references, p.operation, p.updates);
  }

  lemma PublishKeepsSound(decode: Decode, s: Snapshot, p: Publication)
    requires Lawful(decode) && Sound(decode, s)
    ensures Sound(decode, AfterPublish(decode, s, p))
  {
    if !Full(s) && Acceptable(decode, p, s) {
      var s' := AfterPublish(decode, s, p);
      AdmitKeeps(decode, p.objects, s.objects);
      forall k | k in s'.references
        ensures Anchored(s'.objects, k, s'.references[k]) && s'.references[k].generation < s'.revision
      {
        StagedReference(decode, p, s, k);
        if u :| u in p.updates && u.key == k && s'.references[k] == NextState(s.references, p.operation, u) {
          UpdateIsAnchored(decode, p, s, u);
        } else {
          AnchoredGrows(s.objects, s'.objects, k, s.references[k]);
        }
      }
    }
  }

  /** Every operation keeps the invariant. */
  lemma ApplyKeepsSound(decode: Decode, s: Snapshot, op: Operation)
    requires Lawful(decode) && Sound(decode, s)
    ensures Sound(decode, Apply(decode, s, op))
  {
    match op
    case Put(id, bytes) => PutKeepsSound(decode, s, id, bytes);
    case Promise(id) =>
    case Quarantine(id) =>
    case Publish(p) => PublishKeepsSound(decode, s, p);
  }

  /** Generations stay below the revision, so once the revision check has passed
      the generation check cannot fail. */
  lemma NoGenerationOverflow(decode: Decode, s: Snapshot, key: ReferenceKey)
    requires Sound(decode, s) && !Full(s)
    ensures GenerationFits(s.references, key)
  {
  }

  // ----------------------------------------------------- concurrent publishers

  /** A publication that was staged and is being validated outside the lock. */
  datatype Flight = Flight(publication: Publication, staged: Snapshot, base: u64)

  datatype System = System(store: Snapshot, flights: map<nat, Flight>)

  datatype Event =
    | At(op: Operation)
    | Begin(thread: nat, p: Publication)
    | Deny(thread: nat)
    | Commit(thread: nat)

  ghost predicate Wins(sys: System, e: Event) {
    e.Commit? && e.thread in sys.flights && sys.flights[e.thread].base == sys.store.revision
  }

  /** One critical section.  Publishing directly is not among them: it happens as
      `Begin`, then `Deny` or `Commit`. */
  ghost function Next(decode: Decode, sys: System, e: Event): System {
    match e
    case At(op) => if op.Publish? then sys else sys.(store := Apply(decode, sys.store, op))
    case Begin(t, p) =>
      if t in sys.flights || Full(sys.store) || !Acceptable(decode, p, sys.store) then sys
      else sys.(flights := sys.flights[t := Flight(p, Staged(decode, p, sys.store), sys.store.revision)])
    case Deny(t) => sys.(flights := sys.flights - {t})
    case Commit(t) =>
      if !Wins(sys, e) then sys.(flights := sys.flights - {t})
      else System(sys.flights[t].staged.(revision := NextRevision(sys.flights[t].base)), sys.flights - {t})
  }

  function NextRevision(r: u64): u64 {
    if r + 1 < TWO_64 then r + 1 else 0
  }

  /** The state after any interleaving of critical sections. */
  ghost function Run(decode: Decode, events: seq<Event>): System {
    if events == [] then System(EMPTY, map[]) else Next(decode, Run(decode, events[..|events| - 1]), events[|events| - 1])
  }

  /** An untouched revision means the staged state is what staging would give now. */
  ghost predicate FlightOk(decode: Decode, s: Snapshot, f: Flight) {
    && f.base <= s.revision && f.base + 1 < TWO_64
    && (f.base == s.revision ==> Acceptable(decode, f.publication, s) && f.staged == Staged(decode, f.publication, s))
  }

  ghost predicate FlightsOk(decode: Decode, sys: System) {
    forall t :: t in sys.flights ==> FlightOk(decode, sys.store, sys.flights[t])
  }

  /** The atomic operation an event amounts to, if any. */
  ghost function Effect(sys: System, e: Event): seq<Operation> {
    if e.At? then (if e.op.Publish? then [] else [e.op])
    else if Wins(sys, e) then [Publish(sys.flights[e.thread].publication)]
    else []
  }

  /** A winning commit is an atomic publish at its commit step; every other
      publisher step leaves the store as it was. */
  lemma StepIsAtomic(decode: Decode, sys: System, e: Event)
    requires FlightsOk(decode, sys)
    ensures var sys' := Next(decode, sys, e);
            && (Effect(sys, e) == [] ==> sys'.store == sys.store)
            && (Effect(sys, e) != [] ==> sys'.store == Apply(decode, sys.store, Effect(sys, e)[0]))
            && (Wins(sys, e) ==> Acceptable(decode, sys.flights[e.thread].publication, sys.store) && !Full(sys.store))
  {
    if Wins(sys, e) {
      assert FlightOk(decode, sys.store, sys.flights[e.thread]);
    }
  }

  lemma StepKeepsFlights(decode: Decode, sys: System, e: Event)
    requires FlightsOk(decode, sys)
    ensures FlightsOk(decode, Next(decode, sys, e))
  {
    StepIsAtomic(decode, sys, e);
    var sys' := Next(decode, sys, e);
    if Effect(sys, e) != [] { RevisionTellsChange(decode, sys.store, Effect(sys, e)[0]); }
    forall t | t in sys'.flights
      ensures FlightOk(decode, sys'.store, sys'.flights[t])
    {
      if t in sys.flights { assert FlightOk(decode, sys.store, sys.flights[t]); }
    }
  }

  /** The atomic operations of a run, in the order they took effect. */
  ghost function Linear(decode: Decode, events: seq<Event>): seq<Operation> {
    if events == [] then []
    else
      var init := events[..|events| - 1];
      Linear(decode, init) + Effect(Run(decode, init), events[|events| - 1])
  }

  /** Every interleaving is equal to its operations applied one after another. */
  lemma {:induction false} Linearizable(decode: Decode, events: seq<Event>)
    ensures FlightsOk(decode, Run(decode, events))
    ensures Run(decode, events).store == Sequential(decode, Linear(decode, events))
  {
    if events != [] {
      var init, e := events[..|events| - 1], events[|events| - 1];
      Linearizable(decode, init);
      var sys, ops := Run(decode, init), Linear(decode, init);
      StepIsAtomic(decode, sys, e);
      StepKeepsFlights(decode, sys, e);
      if Effect(sys, e) != [] {
        assert Effect(sys, e) == [Effect(sys, e)[0]];
        assert (ops + Effect(sys, e))[..|ops|] == ops;
      } else {
        assert ops + Effect(sys, e) == ops;
      }
    }
  }

  /** The invariant holds in every reachable state. */
  lemma {:induction false} AlwaysSound(decode: Decode, events: seq<Event>)
    requires Lawful(decode)
    ensures Sound(decode, Run(decode, events).store)
  {
    if events != [] {
      var init, e := events[..|events| - 1], events[|events| - 1];
      AlwaysSound(decode, init);
      Linearizable(decode, init);
      var sys := Run(decode, init);
      StepIsAtomic(decode, sys, e);
      if Effect(sys, e) != [] { ApplyKeepsSound(decode, sys.store, Effect(sys, e)[0]); }
    }
  }

  // ------------------------------------------------------------ generations

  ghost predicate Touches(sys: System, e: Event, key: ReferenceKey) {
    Wins(sys, e) && exists u :: u in sys.flights[e.thread].publication.updates && u.key == key
  }

  /** How many winning commits of a run updated the key. */
  ghost function UpdatesOf(decode: Decode, events: seq<Event>, key: ReferenceKey): nat {
    if events == [] then 0
    else
      var init := events[..|events| - 1];
      UpdatesOf(decode, init, key) + if Touches(Run(decode, init), events[|events| - 1], key) then 1 else 0
  }

  /** The number of updates a reference has seen. */
  function Age(refs: References, key: ReferenceKey): nat {
    if key in refs then refs[key].generation + 1 else 0
  }

  lemma StepAges(decode: Decode, sys: System, e: Event, key: ReferenceKey)
    requires FlightsOk(decode, sys)
    ensures Age(Next(decode, sys, e).store.references, key) ==
            Age(sys.store.references, key) + if Touches(sys, e, key) then 1 else 0
  {
    StepIsAtomic(decode, sys, e);
    if Wins(sys, e) {
      var p := sys.flights[e.thread].publication;
      MovedExactly(sys.store.references, p.operation, p.updates);
    }
  }

  /** A key's generation counts its successful updates: it rises by exactly one with
      each and with nothing else. */
  lemma {:induction false} GenerationsCount(decode: Decode, events: seq<Event>, key: ReferenceKey)
    ensures Age(Run(decode, events).store.references, key) == UpdatesOf(decode, events, key)
  {
    if events != [] {
      var init := events[..|events| - 1];
      GenerationsCount(decode, init, key);
      Linearizable(decode, init);
      StepAges(decode, Run(decode, init), events[|events| - 1], key);
    }
  }

  lemma {:induction false} UpdatesGrow(decode: Decode, events: seq<Event>, i: nat, key: ReferenceKey)
    requires i <= |events|
    ensures UpdatesOf(decode, events[..i], key) <= UpdatesOf(decode, events, key)
    decreases |events|
  {
    if i < |events| {
      var init := events[..|events| - 1];
      UpdatesGrow(decode, init, i, key);
      assert init[..i] == events[..i];
    } else {
      assert events[..i] == events;
    }
  }

  /** A winning update expected the age its key then had. */
  lemma WinnerExpectedAge(decode: Decode, events: seq<Event>, e: Event, u: RefUpdate)
    requires Wins(Run(decode, events), e) && u in Run(decode, events).flights[e.thread].publication.updates
    ensures UpdatesOf(decode, events, u.key) == (if u.expected.Absent? then 0 else u.expected.state.generation + 1)
  {
    Linearizable(decode, events);
    GenerationsCount(decode, events, u.key);
    StepIsAtomic(decode, Run(decode, events), e);
    assert ExpectedHolds(Run(decode, events).store.references, u);
  }

  /** No lost update: of two publications that expect the same state of a key, at
      most one commits, however their steps interleave. */
  lemma ExpectationWinsOnce(decode: Decode, events: seq<Event>, i: nat, j: nat, u: RefUpdate, v: RefUpdate)
    requires i < j < |events| && u.key == v.key
    requires var a := Run(decode, events[..i]);
             Wins(a, events[i]) && u in a.flights[events[i].thread].publication.updates
    requires var b := Run(decode, events[..j]);
             Wins(b, events[j]) && v in b.flights[events[j].thread].publication.updates
    ensures u.expected != v.expected
  {
    WinnerExpectedAge(decode, events[..i], events[i], u);
    WinnerExpectedAge(decode, events[..j], events[j], v);
    assert events[..i + 1][..i] == events[..i];
    assert events[..j][..i + 1] == events[..i + 1];
    assert Touches(Run(decode, events[..i]), events[i], u.key);
    UpdatesGrow(decode, events[..j], i + 1, u.key);
  }
}
