/** The in-memory store: its critical sections, each proved equal to a step of the
    store machine. */
module MemoryStores {
  import opened Common
  import opened Identity
  import opened StoreModel
  import opened StoreActions
  import opened StoreClosure
  import opened StoreRuns

  lemma {:induction false} AdmitPrefix(decode: Decode, candidates: seq<Candidate>, objects: Objects, i: nat)
    requires i <= |candidates| && Admit(decode, candidates[..i], objects).None?
    ensures Admit(decode, candidates, objects).None?
    decreases |candidates|
  {
    if i < |candidates| {
      var init := candidates[..|candidates| - 1];
      assert init[..i] == candidates[..i];
      AdmitPrefix(decode, init, objects, i);
    } else {
      assert candidates[..i] == candidates;
    }
  }

  /** Decodes the candidates, adds the new ones and drops their promises. */
  method AddCandidates(decode: Decode, p: Publication, s: Snapshot) returns (r: Option<Snapshot>)
    ensures r.Some? <==> Admit(decode, p.objects, s.objects).Some?
    ensures r.Some? ==> r.value == WithObjects(p, s, Admit(decode, p.objects, s.objects).value)
  {
    var staged := s;
    for i := 0 to |p.objects|
      invariant Admit(decode, p.objects[..i], s.objects) == Some(staged.objects)
      invariant staged == s.(objects := staged.objects, promised := s.promised - Ids(p.objects[..i]))
    {
      var c := p.objects[i];
      var next := p.objects[..i + 1];
      assert next[..i] == p.objects[..i] && next == p.objects[..i] + [c];
      IdsSnoc(p.objects[..i], c);
      var objects := AdmitOne(decode, c, staged.objects);
      if objects.None? {
        AdmitPrefix(decode, p.objects, s.objects, i + 1);
        return None;
      }
      staged := staged.(objects := objects.value, promised := staged.promised - {c.id});
    }
    assert p.objects[..|p.objects|] == p.objects;
    return Some(staged);
  }

  /** Distinct keys, expectations against the base state, targets against the staged. */
  method CheckUpdates(p: Publication, s: Snapshot, staged: Snapshot) returns (ok: bool)
    ensures ok <==> DistinctUpdates(p.updates)
                    && forall u :: u in p.updates ==> ExpectedHolds(s.references, u) && TargetFits(staged, u)
  {
    var keys: set<ReferenceKey> := {};
    for i := 0 to |p.updates|
      invariant forall a, b :: 0 <= a < b < i ==> p.updates[a].key != p.updates[b].key
      invariant forall k :: k in keys <==> exists j :: 0 <= j < i && p.updates[j].key == k
      invariant forall j :: 0 <= j < i ==> ExpectedHolds(s.references, p.updates[j]) && TargetFits(staged, p.updates[j])
    {
      var u := p.updates[i];
      assert u in p.updates;
      if u.key in keys { return false; }
      if !ExpectedHolds(s.references, u) || !TargetFits(staged, u) { return false; }
      keys := keys + {u.key};
    }
    return true;
  }

  /** Gives each updated key its next state, unless a generation overflows. */
  method MoveReferences(p: Publication, refs: References) returns (r: Option<References>)
    ensures r.Some? <==> forall u :: u in p.updates ==> GenerationFits(refs, u.key)
    ensures r.Some? ==> r.value == Moved(refs, p.operation, p.updates)
  {
    var moved := refs;
    for i := 0 to |p.updates|
      invariant forall u :: u in p.updates[..i] ==> GenerationFits(refs, u.key)
      invariant moved == Moved(refs, p.operation, p.updates[..i])
    {
      var u := p.updates[i];
      if !GenerationFits(refs, u.key) { return None; }
      var next := p.updates[..i + 1];
      assert next[..i] == p.updates[..i] && next == p.updates[..i] + [u];
      moved := moved[u.key := NextState(refs, p.operation, u)];
    }
    assert p.updates[..|p.updates|] == p.updates;
    return Some(moved);
  }

  /** All checks of a publication, in order, and the state it would install. */
  method Stage(decode: Decode, p: Publication, s: Snapshot) returns (r: Option<Snapshot>)
    ensures r.Some? <==> Acceptable(decode, p, s)
    ensures r.Some? ==> r.value == Staged(decode, p, s)
  {
    var staged := AddCandidates(decode, p, s);
    if staged.None? { return None; }
    var operation := Visible(staged.value, p.operation);
    if operation.None? || operation.value.kind != OPERATION { return None; }
    var updates := CheckUpdates(p, s, staged.value);
    if !updates { return None; }
    var covered := ValidateOperation(p, operation.value, staged.value);
    if !covered { return None; }
    var closure := ClosureFrom(VisibleObjects(staged.value), Roots(p));
    if closure.None? { return None; }
    var ancestry := ValidateAncestry(closure.value);
    if !ancestry { return None; }
    var references := MoveReferences(p, s.references);
    if references.None? { return None; }
    return Some(staged.value.(references := references.value));
  }

  datatype PutOutcome = New | AlreadyPresent | Invalid | RevisionOverflow

  class MemoryStore {
    const decode: Decode
    var state: Snapshot

    constructor (decode: Decode)
      ensures this.decode == decode && state == EMPTY
    {
      this.decode := decode;
      state := EMPTY;
    }

    method Put(id: ObjectId, bytes: Bytes) returns (r: PutOutcome)
      modifies this
      ensures state == Apply(decode, old(state), StoreRuns.Put(id, bytes))
      ensures r.New? <==> state != old(state)
      ensures Lawful(decode) && Verified(decode, old(state).objects) && (r.New? || r.AlreadyPresent?) ==>
        id in state.objects && state.objects[id].bytes == bytes
      ensures r.AlreadyPresent? ==> id in old(state).objects
    {
      var decoded := decode(id, bytes);
      if decoded.None? { return Invalid; }
      if id in state.objects {
        return if state.objects[id].bytes == decoded.value.bytes then AlreadyPresent else Invalid;
      }
      if Full(state) { return RevisionOverflow; }
      state := state.(objects := state.objects[id := decoded.value], promised := state.promised - {id}, revision := state.revision + 1);
      return New;
    }

    /** Fails only when the revision is exhausted. */
    method MarkPromised(id: ObjectId) returns (ok: bool)
      modifies this
      ensures state == Apply(decode, old(state), StoreRuns.Promise(id))
      ensures ok <==> id in state.objects || id in state.promised
    {
      if id !in state.objects && id !in state.promised {
        if Full(state) { return false; }
        state := state.(promised := state.promised + {id}, revision := state.revision + 1);
      }
      return true;
    }

    method Quarantine(id: ObjectId) returns (ok: bool)
      modifies this
      ensures state == Apply(decode, old(state), StoreRuns.Quarantine(id))
      ensures ok <==> (id in state.objects || id in state.promised) && id in state.quarantined
      ensures ok ==> Visible(state, id).None?
    {
      if id !in state.objects && id !in state.promised { return false; }
      if id !in state.quarantined {
        if Full(state) { return false; }
        state := state.(quarantined := state.quarantined + {id}, revision := state.revision + 1);
      }
      return true;
    }

    /** The first half of a publication, under the lock: nothing is changed. */
    method Begin(p: Publication) returns (r: Option<Flight>)
      ensures r.Some? <==> !Full(state) && Acceptable(decode, p, state)
      ensures r.Some? ==> r.value == Flight(p, Staged(decode, p, state), state.revision)
    {
      if Full(state) { return None; }
      var staged := Stage(decode, p, state);
      if staged.None? { return None; }
      return Some(Flight(p, staged.value, state.revision));
    }

    /** The second half, under the lock again: all or nothing.  A success is an atomic
        publish of the state found now. */
    method Commit(f: Flight) returns (r: Option<seq<ReferenceState>>)
      requires FlightOk(decode, state, f)
      modifies this
      ensures r.Some? <==> f.base == old(state).revision
      ensures r.Some? ==> state == Apply(decode, old(state), Publish(f.publication)) && state != old(state)
      ensures r.None? ==> state == old(state)
      ensures r.Some? ==>
        |r.value| == |f.publication.updates|
        && forall i :: 0 <= i < |r.value| ==>
          var key := f.publication.updates[i].key;
          key in state.references && r.value[i] == state.references[key]
    {
      var p := f.publication;
      if state.revision != f.base { return None; }
      StagedIsPublished(decode, state, f);
      var results := Results(f.staged.references, p.updates);
      state := f.staged.(revision := NextRevision(f.base));
      return Some(results);
    }
  }

  /** What a current flight staged is what publishing now installs. */
  lemma StagedIsPublished(decode: Decode, s: Snapshot, f: Flight)
    requires FlightOk(decode, s, f) && f.base == s.revision
    ensures f.staged.(revision := NextRevision(f.base)) == Apply(decode, s, Publish(f.publication))
    ensures Apply(decode, s, Publish(f.publication)).revision == s.revision + 1
    ensures forall u :: u in f.publication.updates ==> u.key in f.staged.references
  {
    StagedHasKeys(decode, s, f.publication);
  }

  lemma StagedHasKeys(decode: Decode, s: Snapshot, p: Publication)
    requires Acceptable(decode, p, s)
    ensures forall u :: u in p.updates ==> u.key in Staged(decode, p, s).references
  {
    MovedExactly(s.references, p.operation, p.updates);
  }

  /** The new states in update order; a key without one would be skipped. */
  method Results(refs: References, updates: seq<RefUpdate>) returns (r: seq<ReferenceState>)
    ensures (forall u :: u in updates ==> u.key in refs) ==>
      |r| == |updates| && forall i :: 0 <= i < |r| ==> updates[i].key in refs && r[i] == refs[updates[i].key]
  {
    r := [];
    for i := 0 to |updates|
      invariant (forall u :: u in updates ==> u.key in refs) ==>
        |r| == i && forall j :: 0 <= j < i ==> updates[j].key in refs && r[j] == refs[updates[j].key]
    {
      if updates[i].key in refs { r := r + [refs[updates[i].key]]; }
    }
  }
}
