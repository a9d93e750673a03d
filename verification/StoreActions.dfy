/** Matching an operation's actions to reference updates: taking the first free match
    succeeds exactly when some one-to-one assignment exists. */
module StoreActions {
  import opened Common
  import opened Canonical
  import opened Identity
  import opened Graph
  import opened StoreModel

  // ----------------------------------------------------------- signatures

  datatype Signature =
    | Transition(before: Option<(u64, ObjectId)>, after: (u64, ObjectId))
    | Declaration(fields: seq<Option<Value>>)

  function DeclaredFields(d: Value): seq<Option<Value>> {
    [MapField(d, 0), MapField(d, 1), MapField(d, 2), MapField(d, 3), MapField(d, 4),
     MapField(d, 5), MapField(d, 6), MapField(d, 7), MapField(d, 8), MapField(d, 9)]
  }

  function StateFields(s: Value): seq<Option<Value>> {
    [MapField(s, 2), MapField(s, 3), MapField(s, 4), MapField(s, 5), MapField(s, 6),
     MapField(s, 7), MapField(s, 8), MapField(s, 9), MapField(s, 10), MapField(s, 11)]
  }

  /** What an action can be consumed for. */
  function Offered(action: Value): Option<Signature> {
    var tag := UnsignedOf(MapField(action, 0));
    if tag == Some(0) then
      var after := TypedRef(MapField(action, 2));
      if after.None? then None else Some(Transition(TypedRef(MapField(action, 1)), after.value))
    else if tag == Some(1) then
      var declaration := MapField(action, 3);
      if declaration.None? || !declaration.value.Map? then None else Some(Declaration(DeclaredFields(declaration.value)))
    else None
  }

  /** What an update needs. */
  function Needed(u: RefUpdate, staged: Snapshot): Option<Signature> {
    if u.key.Line? then
      var target := Visible(staged, u.target);
      if target.None? || !target.value.value.Map? then None else Some(Declaration(StateFields(target.value.value)))
    else
      var before := match u.expected
        case Absent => None
        case Exact(state) => Some((ExpectedKind(u.key), state.target));
      Some(Transition(before, (ExpectedKind(u.key), u.target)))
  }

  predicate Same<T(==)>(need: Option<T>, offer: Option<T>) {
    need.Some? && need == offer
  }

  lemma MatchIsSignature(action: Value, u: RefUpdate, staged: Snapshot)
    ensures Matches(action, u, staged) <==> Same(Needed(u, staged), Offered(action))
  {
    if u.key.Line? && Needed(u, staged).Some? && Offered(action).Some? && Offered(action).value.Declaration? {
      var state, d := Visible(staged, u.target).value.value, MapField(action, 3).value;
      var x, y := StateFields(state), DeclaredFields(d);
      assert x == y <==> forall i :: 0 <= i < 10 ==> x[i] == y[i];
      assert x == y <==>
        (x[0] == y[0] && x[1] == y[1] && x[2] == y[2] && x[3] == y[3] && x[4] == y[4]
         && x[5] == y[5] && x[6] == y[6] && x[7] == y[7] && x[8] == y[8] && x[9] == y[9]);
    }
  }

  // ----------------------------------------------------- the counting step

  function Image(f: seq<nat>, at: set<nat>): set<nat>
    requires forall j :: j in at ==> j < |f|
  {
    set j | j in at :: f[j]
  }

  lemma {:induction false} ImageSize(f: seq<nat>, at: set<nat>)
    requires forall j :: j in at ==> j < |f|
    ensures |Image(f, at)| <= |at|
    ensures Distinct(f) ==> |Image(f, at)| == |at|
    decreases at
  {
    if j :| j in at {
      ImageSize(f, at - {j});
      assert Image(f, at) == Image(f, at - {j}) + {f[j]};
    }
  }

  ghost predicate Assigns<T>(needs: seq<Option<T>>, offers: seq<Option<T>>, pick: seq<nat>) {
    && |pick| <= |needs| && Distinct(pick)
    && forall i :: 0 <= i < |pick| ==> pick[i] < |offers| && Same(needs[i], offers[pick[i]])
  }

  /** The needs up to `n` that equal need `n`. */
  ghost function Alike<T>(needs: seq<Option<T>>, n: nat): set<nat>
    requires n < |needs|
  {
    set j: nat | j <= n && needs[j] == needs[n]
  }

  /** If every offer equal to the next need is taken, the takers already outnumber
      what any complete assignment could give them. */
  lemma FirstMatchSuffices<T>(needs: seq<Option<T>>, offers: seq<Option<T>>, pick: seq<nat>, full: seq<nat>)
    requires Assigns(needs, offers, pick) && Assigns(needs, offers, full) && |pick| < |full|
    ensures exists j :: j in Alike(needs, |pick|) && full[j] !in pick
  {
    var n := |pick|;
    var alike := Alike(needs, n);
    var earlier := alike - {n};
    assert n in alike;
    ImageSize(full, alike);
    ImageSize(pick, earlier);
    if !(exists j :: j in alike && full[j] !in pick) {
      RivalStaysInside(needs, offers, pick, full);
      SubsetSize(Image(full, alike), Image(pick, earlier));
    }
  }

  /** Where all equal offers are taken, a rival assignment of the same needs draws on
      the same offers. */
  lemma RivalStaysInside<T>(needs: seq<Option<T>>, offers: seq<Option<T>>, pick: seq<nat>, full: seq<nat>)
    requires Assigns(needs, offers, pick) && Assigns(needs, offers, full) && |pick| < |full|
    requires forall j :: j in Alike(needs, |pick|) ==> full[j] in pick
    ensures Image(full, Alike(needs, |pick|)) <= Image(pick, Alike(needs, |pick|) - {|pick|})
  {
    var alike := Alike(needs, |pick|);
    forall x | x in Image(full, alike)
      ensures x in Image(pick, alike - {|pick|})
    {
      var j :| j in alike && full[j] == x;
      var i := RivalPicksTaken(needs, offers, pick, full, j);
      assert pick[i] == x;
    }
  }

  lemma RivalPicksTaken<T>(needs: seq<Option<T>>, offers: seq<Option<T>>, pick: seq<nat>, full: seq<nat>, j: nat) returns (i: nat)
    requires Assigns(needs, offers, pick) && Assigns(needs, offers, full) && |pick| < |full|
    requires j in Alike(needs, |pick|) && full[j] in pick
    ensures i < |pick| && pick[i] == full[j] && i in Alike(needs, |pick|)
  {
    assert Same(needs[j], offers[full[j]]);
    i :| 0 <= i < |pick| && pick[i] == full[j];
    assert Same(needs[i], offers[pick[i]]);
  }

  lemma {:induction false} SubsetSize<T>(a: set<T>, b: set<T>)
    requires a <= b
    ensures |a| <= |b|
    decreases a
  {
    if x :| x in a { SubsetSize(a - {x}, b - {x}); }
  }

  // ------------------------------------------------------- the update loop

  function Needs(effects: seq<RefUpdate>, staged: Snapshot): seq<Option<Signature>> {
    seq(|effects|, i requires 0 <= i < |effects| => Needed(effects[i], staged))
  }

  function Offers(actions: seq<Value>): seq<Option<Signature>> {
    seq(|actions|, i requires 0 <= i < |actions| => Offered(actions[i]))
  }

  lemma PairingIsAssignment(actions: seq<Value>, effects: seq<RefUpdate>, staged: Snapshot, pick: seq<nat>)
    ensures Pairing(actions, effects, staged, pick) <==>
            |pick| == |effects| == |actions| && Assigns(Needs(effects, staged), Offers(actions), pick)
  {
    if |pick| == |effects| == |actions| {
      forall i | 0 <= i < |pick| && pick[i] < |actions|
        ensures Matches(actions[pick[i]], effects[i], staged) <==> Same(Needs(effects, staged)[i], Offers(actions)[pick[i]])
      {
        MatchIsSignature(actions[pick[i]], effects[i], staged);
      }
    }
  }

  lemma {:induction false} EffectsPrefix(updates: seq<RefUpdate>, i: nat)
    requires i <= |updates|
    ensures Effects(updates[..i]) <= Effects(updates)
    decreases |updates|
  {
    if i < |updates| {
      var init := updates[..|updates| - 1];
      EffectsPrefix(init, i);
      assert init[..i] == updates[..i];
    } else {
      assert updates[..i] == updates;
    }
  }

  method FirstFree<T>(items: seq<T>, consumed: set<nat>, test: T -> bool) returns (r: Option<nat>)
    ensures r.Some? ==> r.value < |items| && r.value !in consumed && test(items[r.value])
    ensures r.None? ==> forall k: nat :: k < |items| && k !in consumed ==> !test(items[k])
  {
    for k := 0 to |items|
      invariant forall i :: 0 <= i < k && i !in consumed ==> !test(items[i])
    {
      if k !in consumed && test(items[k]) { return Some(k); }
    }
    return None;
  }

  ghost predicate Consumed(actions: seq<Value>, effects: seq<RefUpdate>, staged: Snapshot, pick: seq<nat>, consumed: set<nat>) {
    && |pick| == |effects| && Assigns(Needs(effects, staged), Offers(actions), pick)
    && consumed == (set k | k in pick) && |consumed| == |pick|
  }

  lemma ConsumeOne(actions: seq<Value>, effects: seq<RefUpdate>, staged: Snapshot, pick: seq<nat>, consumed: set<nat>, u: RefUpdate, k: nat)
    requires Consumed(actions, effects, staged, pick, consumed)
    requires k < |actions| && k !in consumed && Matches(actions[k], u, staged)
    ensures Consumed(actions, effects + [u], staged, pick + [k], consumed + {k})
  {
    MatchIsSignature(actions[k], u, staged);
    var needs, needs' := Needs(effects, staged), Needs(effects + [u], staged);
    assert needs' == needs + [Needed(u, staged)];
    assert (set x | x in pick + [k]) == consumed + {k};
  }

  /** A dead end of the greedy choice rules out every assignment. */
  lemma DeadEnd(actions: seq<Value>, effects: seq<RefUpdate>, staged: Snapshot, pick: seq<nat>, consumed: set<nat>, u: RefUpdate, all: seq<RefUpdate>, full: seq<nat>)
    requires Consumed(actions, effects, staged, pick, consumed) && effects + [u] <= all
    requires forall k: nat :: k < |actions| && k !in consumed ==> !Matches(actions[k], u, staged)
    ensures !Pairing(actions, all, staged, full)
  {
    if Pairing(actions, all, staged, full) {
      PairingIsAssignment(actions, all, staged, full);
      var needs := Needs(all, staged);
      assert forall i :: 0 <= i < |effects| ==> needs[i] == Needs(effects, staged)[i];
      assert needs[|effects|] == Needed(u, staged);
      FirstMatchSuffices(needs, Offers(actions), pick, full);
      var j :| j in Alike(needs, |pick|) && full[j] !in pick;
      assert Same(needs[j], Offers(actions)[full[j]]);
      MatchIsSignature(actions[full[j]], u, staged);
    }
  }

  lemma AllConsumed(actions: seq<Value>, effects: seq<RefUpdate>, staged: Snapshot, pick: seq<nat>, consumed: set<nat>)
    requires Consumed(actions, effects, staged, pick, consumed)
    ensures |consumed| == |actions| <==> exists full :: Pairing(actions, effects, staged, full)
  {
    PairingIsAssignment(actions, effects, staged, pick);
  }

  /** Per-update checks, then the first free matching action for each effect; all
      actions must be used. */
  method ValidateOperation(p: Publication, operation: StoredObject, staged: Snapshot) returns (ok: bool)
    ensures ok <==> OperationCovers(p, operation, staged)
  {
    var field := MapField(operation.value, 8);
    if field.None? || !field.value.Array? { return false; }
    var actions := field.value.items;
    var consumed: set<nat> := {};
    ghost var pick: seq<nat> := [];
    for i := 0 to |p.updates|
      invariant Validating(p, operation, staged, actions, i, pick, consumed)
    {
      ok, consumed, pick := CoverOne(p, operation, staged, actions, i, consumed, pick);
      if !ok { return; }
    }
    AllCovered(p, operation, staged, actions, pick, consumed);
    return |consumed| == |actions|;
  }

  /** Checks one update and takes its action. */
  method CoverOne(p: Publication, operation: StoredObject, staged: Snapshot, actions: seq<Value>, i: nat, consumed: set<nat>, ghost pick: seq<nat>)
    returns (ok: bool, consumed': set<nat>, ghost pick': seq<nat>)
    requires i < |p.updates| && Validating(p, operation, staged, actions, i, pick, consumed)
    ensures ok ==> Validating(p, operation, staged, actions, i + 1, pick', consumed')
    ensures !ok ==> !Covers(p, operation, staged, actions)
  {
    var u := p.updates[i];
    consumed', pick' := consumed, pick;
    ok := UpdateAllowed(u, operation, p.operation, staged);
    if !ok {
      NotAllowed(p, operation, staged, actions, i);
      return;
    }
    if !u.key.OperationHead? {
      var k := FirstFree(actions, consumed, a => Matches(a, u, staged));
      if k.None? {
        NoPairing(p, operation, staged, actions, i, pick, consumed);
        return false, consumed', pick';
      }
      consumed', pick' := consumed + {k.value}, pick + [k.value];
      Covered(p, operation, staged, actions, i, pick, consumed, k.value);
    } else {
      NextEffect(p.updates, i);
      assert Effects(p.updates[..i]) + [] == Effects(p.updates[..i]);
    }
  }

  ghost predicate Covers(p: Publication, operation: StoredObject, staged: Snapshot, actions: seq<Value>) {
    && (forall u :: u in p.updates ==> UpdateAllowed(u, operation, p.operation, staged))
    && exists pick :: Pairing(actions, Effects(p.updates), staged, pick)
  }

  lemma NotAllowed(p: Publication, operation: StoredObject, staged: Snapshot, actions: seq<Value>, i: nat)
    requires i < |p.updates| && !UpdateAllowed(p.updates[i], operation, p.operation, staged)
    ensures !Covers(p, operation, staged, actions)
  {
    assert p.updates[i] in p.updates;
  }

  lemma Covered(p: Publication, operation: StoredObject, staged: Snapshot, actions: seq<Value>, i: nat, pick: seq<nat>, consumed: set<nat>, k: nat)
    requires i < |p.updates| && Validating(p, operation, staged, actions, i, pick, consumed)
    requires UpdateAllowed(p.updates[i], operation, p.operation, staged) && !p.updates[i].key.OperationHead?
    requires k < |actions| && k !in consumed && Matches(actions[k], p.updates[i], staged)
    ensures Validating(p, operation, staged, actions, i + 1, pick + [k], consumed + {k})
  {
    NextEffect(p.updates, i);
    ConsumeOne(actions, Effects(p.updates[..i]), staged, pick, consumed, p.updates[i], k);
  }

  lemma AllCovered(p: Publication, operation: StoredObject, staged: Snapshot, actions: seq<Value>, pick: seq<nat>, consumed: set<nat>)
    requires Validating(p, operation, staged, actions, |p.updates|, pick, consumed)
    ensures |consumed| == |actions| <==> Covers(p, operation, staged, actions)
  {
    assert p.updates[..|p.updates|] == p.updates;
    AllConsumed(actions, Effects(p.updates), staged, pick, consumed);
    forall u | u in p.updates
      ensures UpdateAllowed(u, operation, p.operation, staged)
    {
      var j :| 0 <= j < |p.updates| && p.updates[j] == u;
    }
  }

  /** The first `i` updates passed their checks, and their effects have actions. */
  ghost predicate Validating(p: Publication, operation: StoredObject, staged: Snapshot, actions: seq<Value>, i: int, pick: seq<nat>, consumed: set<nat>) {
    && 0 <= i <= |p.updates|
    && (forall j :: 0 <= j < i ==> UpdateAllowed(p.updates[j], operation, p.operation, staged))
    && Consumed(actions, Effects(p.updates[..i]), staged, pick, consumed)
  }

  lemma NextEffect(updates: seq<RefUpdate>, i: nat)
    requires i < |updates|
    ensures Effects(updates[..i + 1]) == Effects(updates[..i]) + if updates[i].key.OperationHead? then [] else [updates[i]]
    ensures Effects(updates[..i + 1]) <= Effects(updates)
  {
    assert updates[..i + 1][..i] == updates[..i];
    EffectsPrefix(updates, i + 1);
  }

  lemma NoPairing(p: Publication, operation: StoredObject, staged: Snapshot, actions: seq<Value>, i: nat, pick: seq<nat>, consumed: set<nat>)
    requires i < |p.updates| && !p.updates[i].key.OperationHead? && Validating(p, operation, staged, actions, i, pick, consumed)
    requires forall k: nat :: k < |actions| && k !in consumed ==> !Matches(actions[k], p.updates[i], staged)
    ensures !Covers(p, operation, staged, actions)
  {
    NextEffect(p.updates, i);
    forall full { DeadEnd(actions, Effects(p.updates[..i]), staged, pick, consumed, p.updates[i], Effects(p.updates), full); }
  }
}
