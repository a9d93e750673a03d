/** What the store guarantees, told from objects, edges and fields alone: quarantined
    objects are never published, references stay complete, lines and heads keep their
    history. */
module StoreGuarantees {
  import opened Common
  import opened Canonical
  import opened Identity
  import opened Graph
  import opened StoreModel
  import opened StoreClosure
  import opened StoreRuns

  // ------------------------------------------------------------- quarantine

  /** What a publication makes a reference stand for: its operation and its targets. */
  ghost predicate Published(p: Publication, r: ObjectId) {
    r == p.operation || exists u :: u in p.updates && u.target == r
  }

  lemma PublishedIsRoot(p: Publication, r: ObjectId)
    requires Published(p, r)
    ensures exists e :: e in Roots(p) && e.id == r
  {
    if r == p.operation {
      assert Roots(p)[0].id == r;
    } else {
      var u :| u in p.updates && u.target == r;
      RootIn(p, u);
    }
  }

  /** Nothing reachable from what is published is quarantined: not through candidates,
      and not through objects stored earlier. */
  lemma NothingQuarantinedIsPublished(decode: Decode, p: Publication, s: Snapshot, r: ObjectId, x: ObjectId)
    requires Acceptable(decode, p, s) && Published(p, r)
    requires Reaches(Refs(Admit(decode, p.objects, s.objects).value), r, x)
    ensures x !in s.quarantined && x in Admit(decode, p.objects, s.objects).value
  {
    var objects := Admit(decode, p.objects, s.objects).value;
    var visible := VisibleObjects(WithObjects(p, s, objects));
    PublishedIsRoot(p, r);
    var e :| e in Roots(p) && e.id == r;
    CheckedIsWhole(visible, Roots(p), e);
    var path :| PathBetween(Refs(objects), r, x, path);
    PathStaysInside(visible, objects, path);
    assert path[|path| - 1] in Refs(visible);
  }

  /** The same for every publication that wins in any run. */
  lemma NoWinnerPublishesQuarantined(decode: Decode, events: seq<Event>, e: Event, r: ObjectId, x: ObjectId)
    requires Wins(Run(decode, events), e)
    requires Published(Run(decode, events).flights[e.thread].publication, r)
    requires Reaches(Refs(Next(decode, Run(decode, events), e).store.objects), r, x)
    ensures x !in Run(decode, events).store.quarantined
  {
    var sys := Run(decode, events);
    Linearizable(decode, events);
    StepIsAtomic(decode, sys, e);
    NothingQuarantinedIsPublished(decode, sys.flights[e.thread].publication, sys.store, r, x);
  }

  // ------------------------------------------------------ what a winner does

  /** The snapshot a publication's checks look at. */
  ghost function StagedFor(decode: Decode, p: Publication, s: Snapshot): Snapshot
    requires Admit(decode, p.objects, s.objects).Some?
  {
    WithObjects(p, s, Admit(decode, p.objects, s.objects).value)
  }

  lemma WinnerIsAccepted(decode: Decode, sys: System, e: Event)
    requires FlightsOk(decode, sys) && Wins(sys, e)
    ensures var p, s' := sys.flights[e.thread].publication, Next(decode, sys, e).store;
            && Acceptable(decode, p, sys.store)
            && s'.objects == Admit(decode, p.objects, sys.store.objects).value
            && s'.references == Moved(sys.store.references, p.operation, p.updates)
  {
    StepIsAtomic(decode, sys, e);
  }

  lemma AcceptedUpdate(decode: Decode, p: Publication, s: Snapshot, u: RefUpdate)
    requires Acceptable(decode, p, s) && u in p.updates
    ensures var staged := StagedFor(decode, p, s);
            && ExpectedHolds(s.references, u) && u.target in staged.objects
            && p.operation in staged.objects && UpdateAllowed(u, staged.objects[p.operation], p.operation, staged)
  {
    var staged := StagedFor(decode, p, s);
    assert UpdateAllowed(u, Visible(staged, p.operation).value, p.operation, staged);
    assert TargetFits(staged, u);
  }

  /** A winning update expected exactly the state its key had, and installs its own
      target and operation. */
  lemma WinnerSeesAndInstalls(decode: Decode, events: seq<Event>, e: Event, u: RefUpdate)
    requires Wins(Run(decode, events), e) && u in Run(decode, events).flights[e.thread].publication.updates
    ensures var refs, refs' := Run(decode, events).store.references, Next(decode, Run(decode, events), e).store.references;
            && u.expected == (if u.key in refs then Exact(refs[u.key]) else Absent)
            && u.key in refs' && refs'[u.key].target == u.target
            && refs'[u.key].operation == Run(decode, events).flights[e.thread].publication.operation
            && refs'[u.key].generation == (if u.key in refs then refs[u.key].generation + 1 else 0)
  {
    var sys := Run(decode, events);
    var p := sys.flights[e.thread].publication;
    Linearizable(decode, events);
    WinnerIsAccepted(decode, sys, e);
    AcceptedUpdate(decode, p, sys.store, u);
    MovedExactly(sys.store.references, p.operation, p.updates);
  }

  /** A key that a winner does not update keeps its state. */
  lemma WinnerLeavesOthers(decode: Decode, events: seq<Event>, e: Event, k: ReferenceKey)
    requires Wins(Run(decode, events), e)
    requires forall u :: u in Run(decode, events).flights[e.thread].publication.updates ==> u.key != k
    ensures var refs, refs' := Run(decode, events).store.references, Next(decode, Run(decode, events), e).store.references;
            (k in refs' <==> k in refs) && (k in refs ==> refs'[k] == refs[k])
  {
    var sys := Run(decode, events);
    var p := sys.flights[e.thread].publication;
    Linearizable(decode, events);
    StepIsAtomic(decode, sys, e);
    MovedExactly(sys.store.references, p.operation, p.updates);
  }

  /** A winning update installs an object of the kind its key stands for, and where the
      key has an identity, an object that carries it in field 3. */
  lemma WinnerInstallsItsKind(decode: Decode, events: seq<Event>, e: Event, u: RefUpdate)
    requires Wins(Run(decode, events), e) && u in Run(decode, events).flights[e.thread].publication.updates
    ensures var s' := Next(decode, Run(decode, events), e).store;
            && u.target in s'.objects && u.target !in s'.quarantined
            && var o := s'.objects[u.target];
            && o.kind == (match u.key case Line(_) => 8 case Change(_) => 7 case OperationHead => 10 case Release(_) => 12 case Marker(_) => 11)
            && (u.key.Line? || u.key.Change? || u.key.Release? ==> MapField(o.value, 3) == Some(ByteString(u.key.id)))
  {
    var sys := Run(decode, events);
    Linearizable(decode, events);
    StepIsAtomic(decode, sys, e);
    TargetIsItsKind(decode, sys.flights[e.thread].publication, sys.store, u);
  }

  lemma TargetIsItsKind(decode: Decode, p: Publication, s: Snapshot, u: RefUpdate)
    requires Acceptable(decode, p, s) && u in p.updates
    ensures var objects := Admit(decode, p.objects, s.objects).value;
            && u.target in objects && u.target !in s.quarantined
            && var o := objects[u.target];
            && o.kind == (match u.key case Line(_) => 8 case Change(_) => 7 case OperationHead => 10 case Release(_) => 12 case Marker(_) => 11)
            && (u.key.Line? || u.key.Change? || u.key.Release? ==> MapField(o.value, 3) == Some(ByteString(u.key.id)))
  {
    assert TargetFits(StagedFor(decode, p, s), u);
  }

  // ----------------------------------------------------- complete references

  /** In every reachable state, every edge of everything reachable from a reference leads
      to a stored object of the kind the edge expects. */
  lemma EveryEdgeLeadsSomewhere(decode: Decode, events: seq<Event>, k: ReferenceKey, x: ObjectId, e: Edge)
    requires Lawful(decode) && k in Run(decode, events).store.references
    requires var s := Run(decode, events).store;
             Reaches(Refs(s.objects), s.references[k].target, x) && x in s.objects && e in s.objects[x].references
    ensures var s := Run(decode, events).store;
            e.id in s.objects && (e.expectedKind.Some? ==> s.objects[e.id].kind == e.expectedKind.value)
  {
    var s := Run(decode, events).store;
    AlwaysSound(decode, events);
    assert Anchored(s.objects, k, s.references[k]);
    assert NodeOk(s.objects, x);
    assert Satisfied(s.objects, e);
  }

  /** Every edge of a stored object is followed by the reference graph. */
  lemma EdgeIsFollowed(objects: Objects, x: ObjectId, e: Edge)
    requires x in objects && e in objects[x].references && e.id in objects
    ensures Reaches(Refs(objects), x, e.id)
  {
    ReachesParent(Refs(objects), x, e.id);
  }

  /** The edges of one role, between any objects. */
  ghost function RoleGraph(objects: Objects, role: Role): Parents<ObjectId> {
    map id | id in objects :: set e | e in objects[id].references && e.role == role :: e.id
  }

  lemma {:induction false} RolePathIsAncestry(objects: Objects, role: Role, kind: u64, p: seq<ObjectId>)
    requires (role == SnapshotParent && kind == SNAPSHOT) || (role == OperationParent && kind == OPERATION)
    requires IsPath(RoleGraph(objects, role), p) && Whole(objects, p[0]) && objects[p[0]].kind == kind
    ensures IsPath(Ancestry(objects, kind), p)
    decreases |p|
  {
    if |p| >= 2 {
      PathStep(RoleGraph(objects, role), p);
      ReachesSelf(Refs(objects), p[0]);
      assert NodeOk(objects, p[0]);
      assert p[1] in Ancestry(objects, kind)[p[0]] && p[1] in Refs(objects)[p[0]];
      WholeChild(objects, p[0], p[1]);
      RolePathIsAncestry(objects, role, kind, p[1..]);
      assert forall i :: 0 < i < |p| ==> p[i] == p[1..][i - 1];
    }
  }

  /** In every reachable state no snapshot or operation below a reference is its own
      ancestor. */
  lemma NoOwnAncestor(decode: Decode, events: seq<Event>, k: ReferenceKey, x: ObjectId, role: Role)
    requires Lawful(decode) && k in Run(decode, events).store.references
    requires var s := Run(decode, events).store; Reaches(Refs(s.objects), s.references[k].target, x) && x in s.objects
    requires var kind := Run(decode, events).store.objects[x].kind;
             (role == SnapshotParent && kind == 6) || (role == OperationParent && kind == 10)
    ensures !OnCycle(RoleGraph(Run(decode, events).store.objects, role), x)
  {
    var s := Run(decode, events).store;
    AlwaysSound(decode, events);
    assert Anchored(s.objects, k, s.references[k]);
    assert NodeOk(s.objects, x);
    WholeParts(s.objects, s.references[k].target, x);
    if OnCycle(RoleGraph(s.objects, role), x) { RoleCycle(s.objects, role, s.objects[x].kind, x); }
  }

  lemma RoleCycle(objects: Objects, role: Role, kind: u64, x: ObjectId)
    requires (role == SnapshotParent && kind == SNAPSHOT) || (role == OperationParent && kind == OPERATION)
    requires Whole(objects, x) && objects[x].kind == kind && OnCycle(RoleGraph(objects, role), x)
    ensures OnCycle(Ancestry(objects, kind), x)
  {
    var p :| PathBetween(RoleGraph(objects, role), x, x, p) && |p| >= 2;
    RolePathIsAncestry(objects, role, kind, p);
    assert PathBetween(Ancestry(objects, kind), x, x, p);
  }

  // ------------------------------------------------------------- line history

  /** The identifier bytes in a field. */
  predicate NamesId(v: Value, key: u64, id: ObjectId) {
    MapField(v, key) == Some(ByteString(ToBytes(id)))
  }

  lemma IdFieldBytes(v: Value, key: u64, id: ObjectId)
    requires IdIn(MapField(v, key)) == Some(id)
    ensures NamesId(v, key, id)
  {
    IdUnique(MapField(v, key).value.bytes);
  }

  /** Each new line state carries the line's id, names the publishing operation, counts
      one more than the state it replaces, and names that state's target. */
  ghost predicate Continues(state: Value, line: Bytes, operation: ObjectId, before: Option<ReferenceState>) {
    && MapField(state, 3) == Some(ByteString(line))
    && NamesId(state, 12, operation)
    && MapField(state, 6).Some? && MapField(state, 6).value.Unsigned?
    && MapField(state, 6).value.n == (if before.Some? then before.value.generation + 1 else 0)
    && (before.Some? ==> NamesId(state, 7, before.value.target))
    && (before.None? ==> forall id :: !NamesId(state, 7, id))
  }

  lemma LineContinues(refs: References, staged: Snapshot, operation: ObjectId, u: RefUpdate)
    requires u.key.Line? && LineOk(u, staged, operation) && ExpectedHolds(refs, u)
    ensures Continues(staged.objects[u.target].value, u.key.id, operation, StateOf(refs, u.key))
  {
    var state := staged.objects[u.target].value;
    IdFieldBytes(state, 12, operation);
    if u.key in refs {
      IdFieldBytes(state, 7, refs[u.key].target);
    } else {
      forall id
        ensures !NamesId(state, 7, id)
      {
        IdRoundTrip(id);
      }
    }
  }

  ghost function StateOf(refs: References, key: ReferenceKey): Option<ReferenceState> {
    if key in refs then Some(refs[key]) else None
  }

  lemma LineNamesPrevious(decode: Decode, events: seq<Event>, e: Event, u: RefUpdate)
    requires Wins(Run(decode, events), e) && u in Run(decode, events).flights[e.thread].publication.updates && u.key.Line?
    ensures var sys, s' := Run(decode, events), Next(decode, Run(decode, events), e).store;
            && u.target in s'.objects
            && Continues(s'.objects[u.target].value, u.key.id, sys.flights[e.thread].publication.operation, StateOf(sys.store.references, u.key))
  {
    var sys := Run(decode, events);
    Linearizable(decode, events);
    WinnerIsAccepted(decode, sys, e);
    AcceptedUpdate(decode, sys.flights[e.thread].publication, sys.store, u);
    LineContinues(sys.store.references, StagedFor(decode, sys.flights[e.thread].publication, sys.store), sys.flights[e.thread].publication.operation, u);
  }

  // ---------------------------------------------------------- operation heads

  ghost function HeadOf(s: Snapshot): Option<ObjectId> {
    if OperationHead in s.references then Some(s.references[OperationHead].target) else None
  }

  ghost function OperationGraph(s: Snapshot): Parents<ObjectId> {
    RoleGraph(s.objects, OperationParent)
  }

  lemma RoleReachesGrows(objects: Objects, objects': Objects, role: Role, a: ObjectId, b: ObjectId)
    requires Extends(objects, objects') && Reaches(RoleGraph(objects, role), a, b)
    ensures Reaches(RoleGraph(objects', role), a, b)
  {
    var g, g' := RoleGraph(objects, role), RoleGraph(objects', role);
    var p :| PathBetween(g, a, b, p);
    assert forall i :: 0 <= i < |p| ==> p[i] in g' && g'[p[i]] == g[p[i]];
    assert PathBetween(g', a, b, p);
  }

  /** No event takes an object away or changes it. */
  lemma ObjectsGrow(decode: Decode, sys: System, e: Event)
    requires Lawful(decode) && FlightsOk(decode, sys) && Sound(decode, sys.store)
    ensures Extends(sys.store.objects, Next(decode, sys, e).store.objects)
  {
    StepIsAtomic(decode, sys, e);
    if Wins(sys, e) { AdmitKeeps(decode, sys.flights[e.thread].publication.objects, sys.store.objects); }
  }

  /** A new head's operation has the replaced head among its parents. */
  lemma NewHeadHasOldParent(decode: Decode, sys: System, e: Event, u: RefUpdate)
    requires Lawful(decode) && FlightsOk(decode, sys) && Sound(decode, sys.store)
    requires Wins(sys, e) && u in sys.flights[e.thread].publication.updates && u.key.OperationHead?
    ensures var s' := Next(decode, sys, e).store;
            && HeadOf(s') == Some(u.target) && u.target in s'.objects
            && (HeadOf(sys.store).Some? ==> Reaches(OperationGraph(s'), u.target, HeadOf(sys.store).value))
  {
    var p, s' := sys.flights[e.thread].publication, Next(decode, sys, e).store;
    WinnerIsAccepted(decode, sys, e);
    AcceptedUpdate(decode, p, sys.store, u);
    HeadMoves(sys.store.references, p, u);
    ObjectsGrow(decode, sys, e);
    if HeadOf(sys.store).Some? {
      HeadIsStored(decode, sys.store);
      ParentIsReached(s'.objects, u, s'.objects[p.operation], p.operation);
    }
  }

  lemma ParentIsReached(objects: Objects, u: RefUpdate, operation: StoredObject, id: ObjectId)
    requires HeadOk(u, operation, id) && u.expected.Exact? && id in objects && objects[id] == operation && u.expected.state.target in objects
    ensures Reaches(RoleGraph(objects, OperationParent), u.target, u.expected.state.target)
  {
    ReachesParent(RoleGraph(objects, OperationParent), id, u.expected.state.target);
  }

  lemma HeadMoves(refs: References, p: Publication, u: RefUpdate)
    requires DistinctUpdates(p.updates) && u in p.updates && forall v :: v in p.updates ==> GenerationFits(refs, v.key)
    ensures u.key in Moved(refs, p.operation, p.updates) && Moved(refs, p.operation, p.updates)[u.key].target == u.target
  {
    MovedExactly(refs, p.operation, p.updates);
  }

  lemma HeadIsStored(decode: Decode, s: Snapshot)
    requires Sound(decode, s) && HeadOf(s).Some?
    ensures HeadOf(s).value in s.objects
  {
    assert Anchored(s.objects, OperationHead, s.references[OperationHead]);
  }

  /** An event that does not update the head leaves it. */
  lemma HeadStays(decode: Decode, sys: System, e: Event)
    requires FlightsOk(decode, sys)
    requires Wins(sys, e) ==> forall u :: u in sys.flights[e.thread].publication.updates ==> !u.key.OperationHead?
    ensures HeadOf(Next(decode, sys, e).store) == HeadOf(sys.store)
  {
    StepIsAtomic(decode, sys, e);
    if Wins(sys, e) {
      WinnerIsAccepted(decode, sys, e);
      MovedExactly(sys.store.references, sys.flights[e.thread].publication.operation, sys.flights[e.thread].publication.updates);
    }
  }

  /** One event: the head stays, or the old head is an ancestor of the new one. */
  lemma HeadAdvances(decode: Decode, sys: System, e: Event)
    requires Lawful(decode) && FlightsOk(decode, sys) && Sound(decode, sys.store) && HeadOf(sys.store).Some?
    ensures var s' := Next(decode, sys, e).store;
            HeadOf(s').Some? && Reaches(OperationGraph(s'), HeadOf(s').value, HeadOf(sys.store).value)
  {
    if Wins(sys, e) && exists u :: u in sys.flights[e.thread].publication.updates && u.key.OperationHead? {
      var u :| u in sys.flights[e.thread].publication.updates && u.key.OperationHead?;
      NewHeadHasOldParent(decode, sys, e, u);
    } else {
      HeadStays(decode, sys, e);
      ObjectsGrow(decode, sys, e);
      HeadIsStored(decode, sys.store);
      ReachesSelf(OperationGraph(Next(decode, sys, e).store), HeadOf(sys.store).value);
    }
  }

  /** Over every run, every earlier operation head is an ancestor of every later one. */
  lemma {:induction false} EarlierHeadsAreAncestors(decode: Decode, events: seq<Event>, i: nat)
    requires Lawful(decode) && i <= |events| && HeadOf(Run(decode, events[..i]).store).Some?
    ensures var s, s' := Run(decode, events[..i]).store, Run(decode, events).store;
            HeadOf(s').Some? && Reaches(OperationGraph(s'), HeadOf(s').value, HeadOf(s).value)
    decreases |events|
  {
    var s' := Run(decode, events).store;
    AlwaysSound(decode, events);
    if i == |events| {
      assert events[..i] == events;
      assert Anchored(s'.objects, OperationHead, s'.references[OperationHead]);
      ReachesSelf(OperationGraph(s'), HeadOf(s').value);
    } else {
      var init, e := events[..|events| - 1], events[|events| - 1];
      assert init[..i] == events[..i];
      EarlierHeadsAreAncestors(decode, init, i);
      AlwaysSound(decode, init);
      Linearizable(decode, init);
      var sys, first := Run(decode, init), HeadOf(Run(decode, events[..i]).store).value;
      HeadAdvances(decode, sys, e);
      ObjectsGrow(decode, sys, e);
      RoleReachesGrows(sys.store.objects, s'.objects, OperationParent, HeadOf(sys.store).value, first);
      ReachesTrans(OperationGraph(s'), HeadOf(s').value, HeadOf(sys.store).value, first);
    }
  }

  /** The first operation head has no operation parents. */
  lemma FirstHeadIsRoot(decode: Decode, events: seq<Event>, e: Event, u: RefUpdate)
    requires Wins(Run(decode, events), e) && u in Run(decode, events).flights[e.thread].publication.updates && u.key.OperationHead?
    requires HeadOf(Run(decode, events).store).None?
    ensures var s' := Next(decode, Run(decode, events), e).store;
            u.target in s'.objects && forall d :: d in s'.objects[u.target].references ==> !d.role.OperationParent?
  {
    var sys := Run(decode, events);
    var p := sys.flights[e.thread].publication;
    Linearizable(decode, events);
    WinnerIsAccepted(decode, sys, e);
    AcceptedUpdate(decode, p, sys.store, u);
  }

  // ------------------------------------------------------------------ actions

  /** A value that names a kind and an identifier. */
  predicate NamesObject(v: Option<Value>, kind: u64, id: ObjectId) {
    v.Some? && MapField(v.value, 0) == Some(Unsigned(kind)) && NamesId(v.value, 1, id)
  }

  lemma TypedRefNames(v: Option<Value>, kind: u64, id: ObjectId)
    requires TypedRef(v) == Some((kind, id))
    ensures NamesObject(v, kind, id)
  {
    IdFieldBytes(v.value, 1, id);
  }

  /** Each update of an accepted publication other than the head has an action of its own
      in the operation: a transition that names the state before and after, or for a line
      a declaration whose field `n` is field `n + 2` of the new line state. */
  ghost predicate Records(action: Value, u: RefUpdate, staged: Snapshot) {
    if u.key.Line? then
      && MapField(action, 0) == Some(Unsigned(1))
      && MapField(action, 3).Some? && u.target in staged.objects
      && forall n: u64 :: n < 10 ==> MapField(MapField(action, 3).value, n) == MapField(staged.objects[u.target].value, n + 2)
    else
      && MapField(action, 0) == Some(Unsigned(0))
      && NamesObject(MapField(action, 2), ExpectedKind(u.key), u.target)
      && (u.expected.Exact? ==> NamesObject(MapField(action, 1), ExpectedKind(u.key), u.expected.state.target))
  }

  lemma MatchRecords(action: Value, u: RefUpdate, staged: Snapshot)
    requires Matches(action, u, staged)
    ensures Records(action, u, staged)
  {
    if u.key.Line? {
      var d, state := MapField(action, 3).value, staged.objects[u.target].value;
      forall n: u64 | n < 10
        ensures MapField(d, n) == MapField(state, n + 2)
      {
        assert n == 0 || n == 1 || n == 2 || n == 3 || n == 4 || n == 5 || n == 6 || n == 7 || n == 8 || n == 9;
      }
    } else {
      TypedRefNames(MapField(action, 2), ExpectedKind(u.key), u.target);
      if u.expected.Exact? { TypedRefNames(MapField(action, 1), ExpectedKind(u.key), u.expected.state.target); }
    }
  }

  /** The operation's actions, as an accepted publication leaves them: one for each
      effect, each used once. */
  lemma AcceptedIsRecorded(decode: Decode, p: Publication, s: Snapshot)
    requires Acceptable(decode, p, s)
    ensures var staged := WithObjects(p, s, Admit(decode, p.objects, s.objects).value);
            && p.operation in staged.objects && staged.objects[p.operation].kind == 10
            && var actions := MapField(staged.objects[p.operation].value, 8);
            && actions.Some? && actions.value.Array?
            && exists pick :: RecordsAll(actions.value.items, Effects(p.updates), staged, pick)
  {
    var staged := WithObjects(p, s, Admit(decode, p.objects, s.objects).value);
    var actions := MapField(staged.objects[p.operation].value, 8).value.items;
    var pick :| Pairing(actions, Effects(p.updates), staged, pick);
    forall i | 0 <= i < |pick|
      ensures Records(actions[pick[i]], Effects(p.updates)[i], staged)
    {
      MatchRecords(actions[pick[i]], Effects(p.updates)[i], staged);
    }
    assert RecordsAll(actions, Effects(p.updates), staged, pick);
  }

  ghost predicate RecordsAll(actions: seq<Value>, effects: seq<RefUpdate>, staged: Snapshot, pick: seq<nat>) {
    && |pick| == |effects| == |actions| && Distinct(pick)
    && forall i :: 0 <= i < |pick| ==> pick[i] < |actions| && Records(actions[pick[i]], effects[i], staged)
  }

  /** The effects are exactly the updates of other keys than the head. */
  lemma {:induction false} EffectsExactly(updates: seq<RefUpdate>)
    ensures forall u :: u in Effects(updates) <==> u in updates && !u.key.OperationHead?
  {
    if updates != [] {
      var init, last := updates[..|updates| - 1], updates[|updates| - 1];
      EffectsExactly(init);
      assert updates == init + [last];
    }
  }
}
