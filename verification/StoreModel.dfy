/** The verified object store: objects, references, publications, and what staging a
    publication accepts and produces. */
module StoreModel {
  import opened Common
  import opened Canonical
  import opened Identity
  import opened Graph

  const SNAPSHOT: u64 := 6
  const CHANGE_REVISION: u64 := 7
  const LINE_STATE: u64 := 8
  const OPERATION: u64 := 10
  const MARKER: u64 := 11
  const RELEASE: u64 := 12

  datatype Role = SnapshotParent | OperationParent | OtherRole(code: nat)

  datatype Edge = Edge(role: Role, expectedKind: Option<u64>, id: ObjectId)

  datatype StoredObject = StoredObject(id: ObjectId, bytes: Bytes, kind: u64, value: Value, references: seq<Edge>)

  type Objects = map<ObjectId, StoredObject>

  datatype ReferenceKey =
    | Line(id: Bytes)
    | Change(id: Bytes)
    | OperationHead
    | Release(id: Bytes)
    | Marker(name: Bytes)

  function ExpectedKind(key: ReferenceKey): u64 {
    match key
    case Line(_) => LINE_STATE
    case Change(_) => CHANGE_REVISION
    case OperationHead => OPERATION
    case Release(_) => RELEASE
    case Marker(_) => MARKER
  }

  datatype ReferenceState = ReferenceState(target: ObjectId, generation: u64, operation: ObjectId)

  type References = map<ReferenceKey, ReferenceState>

  datatype Expected = Absent | Exact(state: ReferenceState)

  datatype RefUpdate = RefUpdate(key: ReferenceKey, expected: Expected, target: ObjectId)

  datatype Candidate = Candidate(id: ObjectId, bytes: Bytes)

  datatype Publication = Publication(objects: seq<Candidate>, updates: seq<RefUpdate>, operation: ObjectId)

  datatype Snapshot = Snapshot(
    objects: Objects, promised: set<ObjectId>, quarantined: set<ObjectId>, references: References, revision: u64)

  // ------------------------------------------------------------ decoding

  /** Digest-verified decoding of an object under a claimed identifier. */
  type Decode = (ObjectId, Bytes) -> Option<StoredObject>

  ghost predicate Lawful(decode: Decode) {
    forall id, b :: decode(id, b).Some? ==> decode(id, b).value.id == id && decode(id, b).value.bytes == b
  }

  ghost predicate Verified(decode: Decode, objects: Objects) {
    forall id :: id in objects ==> decode(id, objects[id].bytes) == Some(objects[id])
  }

  /** The decoder the store uses: canonical decoding with the digest check, then the
      references the object's schema names. */
  ghost function VerifiedDecode(w: Platform, references: Object -> Option<seq<Edge>>, id: ObjectId, bytes: Bytes): Option<StoredObject> {
    var o := DecodeVerified(w, bytes, id, BULK);
    if o.None? || references(o.value).None? then None
    else Some(StoredObject(id, bytes, o.value.kind, o.value.value, references(o.value).value))
  }

  lemma VerifiedIsLawful(w: Platform, references: Object -> Option<seq<Edge>>, decode: Decode)
    requires forall i, b :: decode(i, b) == VerifiedDecode(w, references, i, b)
    ensures Lawful(decode)
  {
  }

  /** With that decoder every stored object sits under the hash of its exact bytes. */
  lemma StoredUnderItsHash(w: Platform, references: Object -> Option<seq<Edge>>, decode: Decode, objects: Objects, id: ObjectId)
    requires forall i, b :: decode(i, b) == VerifiedDecode(w, references, i, b)
    requires Verified(decode, objects) && id in objects
    ensures Lawful(decode)
    ensures objects[id].value.Map? && Field(objects[id].value.entries, 0) == Some(Unsigned(objects[id].kind))
    ensures exists schema: u64 :: Field(objects[id].value.entries, 1) == Some(Unsigned(schema))
                                  && Identifies(w, id, objects[id].kind, schema, objects[id].bytes)
  {
    VerifiedIsLawful(w, references, decode);
    assert decode(id, objects[id].bytes) == VerifiedDecode(w, references, id, objects[id].bytes);
    var schema := DecodedIsIdentified(w, references, id, objects[id].bytes);
  }

  lemma DecodedIsIdentified(w: Platform, references: Object -> Option<seq<Edge>>, id: ObjectId, bytes: Bytes) returns (schema: u64)
    requires VerifiedDecode(w, references, id, bytes).Some?
    ensures var o := VerifiedDecode(w, references, id, bytes).value;
            && o.value.Map? && Field(o.value.entries, 0) == Some(Unsigned(o.kind))
            && Field(o.value.entries, 1) == Some(Unsigned(schema)) && Identifies(w, id, o.kind, schema, bytes)
  {
    IdentityIsOverExactBytes(w, bytes, BULK, id.algorithm);
    schema := DecodeVerified(w, bytes, id, BULK).value.schema;
  }

  // ---------------------------------------------------------- visibility

  function Visible(s: Snapshot, id: ObjectId): Option<StoredObject> {
    if id in s.quarantined || id !in s.objects then None else Some(s.objects[id])
  }

  function VisibleObjects(s: Snapshot): Objects {
    map id | id in s.objects && id !in s.quarantined :: s.objects[id]
  }

  // ---------------------------------------------------------- candidates

  /** The objects after admitting the candidates in order: each decodes, and agrees
      with what is already stored under its identifier. */
  function Admit(decode: Decode, candidates: seq<Candidate>, objects: Objects): Option<Objects> {
    if candidates == [] then Some(objects)
    else
      var before := Admit(decode, candidates[..|candidates| - 1], objects);
      if before.None? then None else AdmitOne(decode, candidates[|candidates| - 1], before.value)
  }

  function AdmitOne(decode: Decode, c: Candidate, objects: Objects): Option<Objects> {
    var decoded := decode(c.id, c.bytes);
    if decoded.None? then None
    else if c.id !in objects then Some(objects[c.id := decoded.value])
    else if objects[c.id].bytes == decoded.value.bytes then Some(objects)
    else None
  }

  ghost predicate Extends(objects: Objects, objects': Objects) {
    forall id :: id in objects ==> id in objects' && objects'[id] == objects[id]
  }

  function Ids(candidates: seq<Candidate>): set<ObjectId> {
    set c | c in candidates :: c.id
  }

  /** Admission keeps what is stored, adds exactly the candidates, and leaves
      every object verified. */
  lemma {:induction false} AdmitKeeps(decode: Decode, candidates: seq<Candidate>, objects: Objects)
    requires Lawful(decode) && Verified(decode, objects) && Admit(decode, candidates, objects).Some?
    ensures var r := Admit(decode, candidates, objects).value;
            Extends(objects, r) && Verified(decode, r) && r.Keys == objects.Keys + Ids(candidates)
  {
    if candidates != [] {
      var init, last := candidates[..|candidates| - 1], candidates[|candidates| - 1];
      AdmitKeeps(decode, init, objects);
      AdmitOneKeeps(decode, last, Admit(decode, init, objects).value);
      assert candidates == init + [last];
      IdsSnoc(init, last);
    }
  }

  /** Candidates are admitted exactly when each decodes and none disagrees with what is
      stored, or with another one, about the bytes of an identifier; then those bytes are
      what is stored. */
  lemma {:induction false} AdmitExactly(decode: Decode, candidates: seq<Candidate>, objects: Objects)
    requires Lawful(decode) && Verified(decode, objects)
    ensures Admit(decode, candidates, objects).Some? <==> Agree(decode, candidates, objects)
    ensures Admit(decode, candidates, objects).Some? ==>
      forall c :: c in candidates ==>
        c.id in Admit(decode, candidates, objects).value && Admit(decode, candidates, objects).value[c.id].bytes == c.bytes
  {
    if candidates != [] {
      var init, last := candidates[..|candidates| - 1], candidates[|candidates| - 1];
      assert candidates == init + [last];
      AdmitExactly(decode, init, objects);
      if Admit(decode, init, objects).Some? {
        AdmitKeeps(decode, init, objects);
        AgreeSnoc(decode, init, last, objects, Admit(decode, init, objects).value);
      }
      if Admit(decode, candidates, objects).Some? { AdmitOneKeeps(decode, last, Admit(decode, init, objects).value); }
    }
  }

  ghost predicate Agree(decode: Decode, candidates: seq<Candidate>, objects: Objects) {
    && (forall c :: c in candidates ==> decode(c.id, c.bytes).Some?)
    && (forall c :: c in candidates && c.id in objects ==> objects[c.id].bytes == c.bytes)
    && (forall c, d :: c in candidates && d in candidates && c.id == d.id ==> c.bytes == d.bytes)
  }

  lemma AgreeSnoc(decode: Decode, init: seq<Candidate>, last: Candidate, objects: Objects, admitted: Objects)
    requires Lawful(decode) && Extends(objects, admitted) && admitted.Keys == objects.Keys + Ids(init)
    requires Agree(decode, init, objects) && forall c :: c in init ==> admitted[c.id].bytes == c.bytes
    ensures Agree(decode, init + [last], objects) <==> AdmitOne(decode, last, admitted).Some?
  {
    assert last in init + [last];
    assert last.id in admitted ==> last.id in objects || exists c :: c in init && c.id == last.id;
    forall c | c in init
      ensures c in init + [last] && c.id in admitted
    {
      assert c.id in Ids(init);
    }
  }

  lemma IdsSnoc(init: seq<Candidate>, last: Candidate)
    ensures Ids(init + [last]) == Ids(init) + {last.id}
  {
  }

  lemma AdmitOneKeeps(decode: Decode, c: Candidate, objects: Objects)
    requires Lawful(decode) && Verified(decode, objects) && AdmitOne(decode, c, objects).Some?
    ensures var r := AdmitOne(decode, c, objects).value;
            && Extends(objects, r) && Verified(decode, r)
            && r.Keys == objects.Keys + {c.id}
            && r[c.id].bytes == c.bytes
  {
  }

  // ------------------------------------------------------ field accessors

  function MapField(v: Value, key: u64): Option<Value> {
    if v.Map? then Field(v.entries, key) else None
  }

  function UnsignedOf(v: Option<Value>): Option<u64> {
    if v.Some? && v.value.Unsigned? then Some(v.value.n) else None
  }

  function BytesOf(v: Option<Value>): Option<Bytes> {
    if v.Some? && v.value.ByteString? then Some(v.value.bytes) else None
  }

  function IdIn(v: Option<Value>): Option<ObjectId> {
    var b := BytesOf(v);
    if b.None? then None else FromBytes(b.value)
  }

  /** A kind and an identifier, as an operation's transitions name them. */
  function TypedRef(v: Option<Value>): Option<(u64, ObjectId)> {
    if v.None? then None
    else
      var kind := UnsignedOf(MapField(v.value, 0));
      var id := IdIn(MapField(v.value, 1));
      if kind.None? || !IsKind(kind.value) || id.None? then None else Some((kind.value, id.value))
  }

  // -------------------------------------------------- per-update checks

  predicate IdentityMatches(key: ReferenceKey, target: StoredObject) {
    && target.value.Map?
    && (key.Line? || key.Release? || key.Change? ==> BytesOf(MapField(target.value, 3)) == Some(key.id))
  }

  predicate ExpectedHolds(refs: References, u: RefUpdate) {
    match u.expected
    case Absent => u.key !in refs
    case Exact(state) => u.key in refs && refs[u.key] == state
  }

  predicate TargetFits(staged: Snapshot, u: RefUpdate) {
    var target := Visible(staged, u.target);
    target.Some? && target.value.kind == ExpectedKind(u.key) && IdentityMatches(u.key, target.value)
  }

  /** The state's own generation and predecessor continue the expected reference. */
  predicate PredecessorOk(state: Value, expected: Expected) {
    var generation := UnsignedOf(MapField(state, 6));
    var previous := IdIn(MapField(state, 7));
    && generation.Some?
    && match expected
       case Absent => generation.value == 0 && previous.None?
       case Exact(prior) =>
         prior.generation + 1 < TWO_64 && generation.value == prior.generation + 1 && previous == Some(prior.target)
  }

  predicate HeadOk(u: RefUpdate, operation: StoredObject, id: ObjectId) {
    && u.target == id
    && (u.expected.Absent? ==> forall e :: e in operation.references ==> !e.role.OperationParent?)
    && (u.expected.Exact? ==> exists e :: e in operation.references && e.role.OperationParent? && e.id == u.expected.state.target)
  }

  predicate LineOk(u: RefUpdate, staged: Snapshot, operation: ObjectId)
    requires u.key.Line?
  {
    var target := Visible(staged, u.target);
    && target.Some?
    && BytesOf(MapField(target.value.value, 3)) == Some(u.key.id)
    && IdIn(MapField(target.value.value, 12)) == Some(operation)
    && PredecessorOk(target.value.value, u.expected)
  }

  /** Everything the operation demands of one update, apart from its action. */
  predicate UpdateAllowed(u: RefUpdate, operation: StoredObject, id: ObjectId, staged: Snapshot) {
    match u.key
    case OperationHead => HeadOk(u, operation, id)
    case Line(_) => LineOk(u, staged, id)
    case _ => true
  }

  // -------------------------------------------------------------- actions

  predicate LineActionMatches(action: Value, state: Value) {
    && UnsignedOf(MapField(action, 0)) == Some(1)
    && MapField(action, 3).Some? && MapField(action, 3).value.Map?
    && state.Map?
    && var declaration := MapField(action, 3).value;
    && MapField(declaration, 0) == MapField(state, 2)
    && MapField(declaration, 1) == MapField(state, 3)
    && MapField(declaration, 2) == MapField(state, 4)
    && MapField(declaration, 3) == MapField(state, 5)
    && MapField(declaration, 4) == MapField(state, 6)
    && MapField(declaration, 6) == MapField(state, 8)
    && MapField(declaration, 7) == MapField(state, 9)
    && MapField(declaration, 8) == MapField(state, 10)
    && MapField(declaration, 9) == MapField(state, 11)
    && MapField(declaration, 5) == MapField(state, 7)
  }

  predicate TransitionMatches(action: Value, u: RefUpdate) {
    var before := match u.expected
      case Absent => None
      case Exact(state) => Some((ExpectedKind(u.key), state.target));
    && UnsignedOf(MapField(action, 0)) == Some(0)
    && TypedRef(MapField(action, 1)) == before
    && TypedRef(MapField(action, 2)) == Some((ExpectedKind(u.key), u.target))
  }

  /** Which actions an update may consume. */
  predicate Matches(action: Value, u: RefUpdate, staged: Snapshot) {
    if u.key.Line? then Visible(staged, u.target).Some? && LineActionMatches(action, Visible(staged, u.target).value.value)
    else TransitionMatches(action, u)
  }

  /** The updates that must each be covered by an action: all but the head. */
  function Effects(updates: seq<RefUpdate>): seq<RefUpdate> {
    if updates == [] then []
    else
      var last := updates[|updates| - 1];
      Effects(updates[..|updates| - 1]) + if last.key.OperationHead? then [] else [last]
  }

  /** One action for each effect, every action used exactly once. */
  ghost predicate Pairing(actions: seq<Value>, effects: seq<RefUpdate>, staged: Snapshot, pick: seq<nat>) {
    && |pick| == |effects| == |actions| && Distinct(pick)
    && forall i :: 0 <= i < |pick| ==> pick[i] < |actions| && Matches(actions[pick[i]], effects[i], staged)
  }

  ghost predicate OperationCovers(p: Publication, operation: StoredObject, staged: Snapshot) {
    var actions := MapField(operation.value, 8);
    && actions.Some? && actions.value.Array?
    && (forall u :: u in p.updates ==> UpdateAllowed(u, operation, p.operation, staged))
    && exists pick :: Pairing(actions.value.items, Effects(p.updates), staged, pick)
  }

  // -------------------------------------------------------------- closure

  /** The reference graph between objects. */
  function Refs(objects: Objects): Parents<ObjectId> {
    map id | id in objects :: set e | e in objects[id].references :: e.id
  }

  predicate Satisfied(objects: Objects, e: Edge) {
    e.id in objects && (e.expectedKind.Some? ==> objects[e.id].kind == e.expectedKind.value)
  }

  predicate EdgesOk(objects: Objects, x: ObjectId) {
    x in objects ==> forall e :: e in objects[x].references ==> Satisfied(objects, e)
  }

  function EdgeIds(roots: seq<Edge>): set<ObjectId> {
    set e | e in roots :: e.id
  }

  ghost predicate ClosureOk(objects: Objects, roots: seq<Edge>) {
    && (forall e :: e in roots ==> Satisfied(objects, e))
    && (forall x :: ReachedFrom(Refs(objects), EdgeIds(roots), x) ==> EdgesOk(objects, x))
  }

  ghost function ClosureOf(objects: Objects, roots: seq<Edge>): Objects {
    map x | x in objects && ReachedFrom(Refs(objects), EdgeIds(roots), x) :: objects[x]
  }

  function ParentRole(kind: u64): Role {
    if kind == SNAPSHOT then SnapshotParent else OperationParent
  }

  /** The ancestry of one kind. */
  function Ancestry(objects: Objects, kind: u64): Parents<ObjectId> {
    map id | id in objects && objects[id].kind == kind ::
      set e | e in objects[id].references && e.role == ParentRole(kind) :: e.id
  }

  ghost predicate AncestryOk(objects: Objects) {
    && Closed(Ancestry(objects, SNAPSHOT)) && Acyclic(Ancestry(objects, SNAPSHOT))
    && Closed(Ancestry(objects, OPERATION)) && Acyclic(Ancestry(objects, OPERATION))
  }

  function Roots(p: Publication): seq<Edge> {
    [Edge(OtherRole(0), Some(OPERATION), p.operation)]
    + seq(|p.updates|, i requires 0 <= i < |p.updates| =>
        Edge(OtherRole(0), Some(ExpectedKind(p.updates[i].key)), p.updates[i].target))
  }

  // -------------------------------------------------------------- staging

  predicate DistinctUpdates(updates: seq<RefUpdate>) {
    forall i, j :: 0 <= i < j < |updates| ==> updates[i].key != updates[j].key
  }

  predicate GenerationFits(refs: References, key: ReferenceKey) {
    key in refs ==> refs[key].generation + 1 < TWO_64
  }

  function NextState(refs: References, operation: ObjectId, u: RefUpdate): ReferenceState
    requires GenerationFits(refs, u.key)
  {
    ReferenceState(u.target, if u.key in refs then refs[u.key].generation + 1 else 0, operation)
  }

  /** Every updated key moves to its next state; the others stay. */
  function Moved(refs: References, operation: ObjectId, updates: seq<RefUpdate>): References
    requires forall u :: u in updates ==> GenerationFits(refs, u.key)
  {
    if updates == [] then refs
    else
      var last := updates[|updates| - 1];
      Moved(refs, operation, updates[..|updates| - 1])[last.key := NextState(refs, operation, last)]
  }

  lemma {:induction false} MovedExactly(refs: References, operation: ObjectId, updates: seq<RefUpdate>)
    requires DistinctUpdates(updates) && forall u :: u in updates ==> GenerationFits(refs, u.key)
    ensures var r := Moved(refs, operation, updates);
            && (forall u :: u in updates ==> u.key in r && r[u.key] == NextState(refs, operation, u))
            && (forall k :: (forall u :: u in updates ==> u.key != k) ==> (k in r <==> k in refs) && (k in r ==> r[k] == refs[k]))
  {
    if updates != [] {
      var init, last := updates[..|updates| - 1], updates[|updates| - 1];
      assert updates == init + [last];
      MovedExactly(refs, operation, init);
    }
  }

  /** The state objects are checked against: candidates admitted, promises kept. */
  function WithObjects(p: Publication, s: Snapshot, objects: Objects): Snapshot {
    s.(objects := objects, promised := s.promised - Ids(p.objects))
  }

  /** What staging accepts. */
  ghost predicate Acceptable(decode: Decode, p: Publication, s: Snapshot) {
    var objects := Admit(decode, p.objects, s.objects);
    && objects.Some?
    && var staged := WithObjects(p, s, objects.value);
    && Visible(staged, p.operation).Some? && Visible(staged, p.operation).value.kind == OPERATION
    && DistinctUpdates(p.updates)
    && (forall u :: u in p.updates ==> ExpectedHolds(s.references, u) && TargetFits(staged, u))
    && OperationCovers(p, Visible(staged, p.operation).value, staged)
    && ClosureOk(VisibleObjects(staged), Roots(p))
    && AncestryOk(ClosureOf(VisibleObjects(staged), Roots(p)))
    && (forall u :: u in p.updates ==> GenerationFits(s.references, u.key))
  }

  /** What staging produces; the revision is still the base revision. */
  ghost function Staged(decode: Decode, p: Publication, s: Snapshot): Snapshot
    requires Acceptable(decode, p, s)
  {
    WithObjects(p, s, Admit(decode, p.objects, s.objects).value).(references := Moved(s.references, p.operation, p.updates))
  }
}
