/** Publication of loose records without replacement, by any number of writers that
    may crash at any point. */
module LooseStore {
  import opened Common
  import opened Identity
  import opened LooseFrame

  /** The record format as the protocol sees it. */
  ghost predicate Lawful(f: Format) {
    && (forall b, id :: f.verifies(b, id) <==> HoldsFrame(f, b, id))
    && (forall r, r' :: f.valid(r) && f.valid(r') && f.frame(r) == f.frame(r') ==> r == r')
  }

  datatype Format = Format(valid: Record -> bool, frame: Record -> Bytes, verifies: (Bytes, ObjectId) -> bool)

  /** The file is one complete frame for the identifier. */
  ghost predicate HoldsFrame(f: Format, bytes: Bytes, id: ObjectId) {
    exists r :: f.valid(r) && r.id == id && bytes == f.frame(r)
  }

  ghost function LooseFormat(w: Platform): Format {
    Format(r => IsValid(w, r), r => Frame(w, r),
           (b, id) => ParseRecord(w, b).Some? && ParseRecord(w, b).value.id == id)
  }

  /** The actual frames are such a format: verification accepts exactly complete
      frames of valid records. */
  lemma LooseFormatIsLawful(w: Platform)
    ensures Lawful(LooseFormat(w))
  {
    var f := LooseFormat(w);
    forall b, id
      ensures f.verifies(b, id) <==> HoldsFrame(f, b, id)
    {
      if f.verifies(b, id) {
        ParseIsFrame(w, b);
        assert f.valid(ParseRecord(w, b).value);
      }
      if HoldsFrame(f, b, id) {
        var r :| f.valid(r) && r.id == id && b == f.frame(r);
        FrameRoundTrip(w, r);
      }
    }
    forall r, r' | f.valid(r) && f.valid(r') && f.frame(r) == f.frame(r')
      ensures r == r'
    {
      FrameRoundTrip(w, r);
      FrameRoundTrip(w, r');
    }
  }

  type Writer = nat

  /** Where one `put` stands.  The temporary holds a prefix of the frame until the
      write completes and the frame is verified. */
  datatype Phase =
    | Writing(r: Record, written: nat)
    | Verified(r: Record)
    | Resolving(r: Record)
    | Finished(r: Record, outcome: PutOutcome)

  datatype PutOutcome = New | AlreadyPresent | Collision

  datatype Store = Store(finals: map<ObjectId, Bytes>, writers: map<Writer, Phase>, quarantined: seq<Bytes>, incident: bool)

  datatype Event =
    | Begin(writer: Writer, r: Record)
    | Write(writer: Writer, more: nat)
    | Verify(writer: Writer)
    | Rename(writer: Writer)
    | Resolve(writer: Writer)
    | Crash(writer: Writer)

  /** The bytes in a writer's temporary file. */
  ghost function Temporary(f: Format, p: Phase): Bytes
    requires p.Writing? ==> p.written <= |f.frame(p.r)|
  {
    if p.Writing? then f.frame(p.r)[..p.written] else f.frame(p.r)
  }

  ghost predicate Possible(f: Format, s: Store, e: Event) {
    match e
    case Begin(i, r) => !s.incident && i !in s.writers && f.valid(r)
    case Write(i, more) =>
      i in s.writers && s.writers[i].Writing? && s.writers[i].written + more <= |f.frame(s.writers[i].r)|
    case Verify(i) =>
      && i in s.writers && s.writers[i].Writing? && s.writers[i].written == |f.frame(s.writers[i].r)|
      && f.verifies(Temporary(f, s.writers[i]), s.writers[i].r.id)
    case Rename(i) => i in s.writers && s.writers[i].Verified?
    case Resolve(i) => i in s.writers && s.writers[i].Resolving? && s.writers[i].r.id in s.finals
    case Crash(i) => i in s.writers
  }

  ghost function Next(f: Format, s: Store, e: Event): Store
    requires Possible(f, s, e)
  {
    match e
    case Begin(i, r) => s.(writers := s.writers[i := Writing(r, 0)])
    case Write(i, more) =>
      s.(writers := s.writers[i := Writing(s.writers[i].r, s.writers[i].written + more)])
    case Verify(i) => s.(writers := s.writers[i := Verified(s.writers[i].r)])
    case Rename(i) =>
      var r := s.writers[i].r;
      if r.id in s.finals then s.(writers := s.writers[i := Resolving(r)])
      else s.(finals := s.finals[r.id := Temporary(f, s.writers[i])], writers := s.writers[i := Finished(r, New)])
    case Resolve(i) =>
      var r := s.writers[i].r;
      if f.verifies(s.finals[r.id], r.id) && s.finals[r.id] == f.frame(r)
      then s.(writers := s.writers[i := Finished(r, AlreadyPresent)])
      else s.(writers := s.writers[i := Finished(r, Collision)],
              quarantined := s.quarantined + [f.frame(r)], incident := true)
    case Crash(i) => s.(writers := s.writers - {i})
  }

  /** Each final path holds one complete frame for its identifier; a finished put
      reports a collision exactly when the frame there is not its own, and then its frame
      is set aside and the incident, which only a hash collision can cause, is raised. */
  ghost predicate Sound(f: Format, s: Store) {
    && (forall id :: id in s.finals ==> HoldsFrame(f, s.finals[id], id))
    && (forall i :: i in s.writers ==> WriterSound(f, s.finals, s.writers[i]))
    && (s.incident ==> HashCollision(f))
    && (forall i :: i in s.writers && s.writers[i].Finished? && s.writers[i].outcome == Collision ==>
          s.incident && f.frame(s.writers[i].r) in s.quarantined)
  }

  ghost predicate WriterSound(f: Format, finals: map<ObjectId, Bytes>, p: Phase) {
    && f.valid(p.r)
    && (p.Resolving? ==> p.r.id in finals)
    && (p.Finished? ==> p.r.id in finals && (p.outcome == Collision <==> finals[p.r.id] != f.frame(p.r)))
  }

  /** Two different valid records with one identifier. */
  ghost predicate HashCollision(f: Format) {
    exists a, b :: f.valid(a) && f.valid(b) && a.id == b.id && a != b
  }

  ghost predicate Keeps(before: map<ObjectId, Bytes>, after: map<ObjectId, Bytes>) {
    forall id :: id in before ==> id in after && after[id] == before[id]
  }

  lemma EventKeepsSound(f: Format, s: Store, e: Event)
    requires Lawful(f) && Sound(f, s) && Possible(f, s, e)
    ensures Sound(f, Next(f, s, e)) && Keeps(s.finals, Next(f, s, e).finals)
  {
    match e
    case Rename(i) => RenameKeepsSound(f, s, i);
    case Resolve(i) => ResolveKeepsSound(f, s, i);
    case _ =>
  }

  /** The final path is taken, or it receives the complete verified frame. */
  lemma RenameKeepsSound(f: Format, s: Store, i: Writer)
    requires Sound(f, s) && Possible(f, s, Rename(i))
    ensures Sound(f, Next(f, s, Rename(i))) && Keeps(s.finals, Next(f, s, Rename(i)).finals)
  {
    var r, s' := s.writers[i].r, Next(f, s, Rename(i));
    assert WriterSound(f, s.finals, s.writers[i]);
    assert HoldsFrame(f, f.frame(r), r.id);
    forall j | j in s'.writers
      ensures WriterSound(f, s'.finals, s'.writers[j])
    {
      if j != i { assert WriterSound(f, s.finals, s.writers[j]); }
    }
  }

  lemma ResolveKeepsSound(f: Format, s: Store, i: Writer)
    requires Lawful(f) && Sound(f, s) && Possible(f, s, Resolve(i))
    ensures Sound(f, Next(f, s, Resolve(i))) && Keeps(s.finals, Next(f, s, Resolve(i)).finals)
  {
    var r, s' := s.writers[i].r, Next(f, s, Resolve(i));
    assert WriterSound(f, s.finals, s.writers[i]);
    if s.finals[r.id] != f.frame(r) { MismatchIsCollision(f, r, s.finals[r.id]); }
    assert f.verifies(s.finals[r.id], r.id) <==> HoldsFrame(f, s.finals[r.id], r.id);
    forall j | j in s'.writers
      ensures WriterSound(f, s'.finals, s'.writers[j])
    {
      if j != i { assert WriterSound(f, s.finals, s.writers[j]); }
    }
  }

  lemma MismatchIsCollision(f: Format, r: Record, held: Bytes)
    requires f.valid(r) && HoldsFrame(f, held, r.id) && held != f.frame(r)
    ensures HashCollision(f)
  {
    var other :| f.valid(other) && other.id == r.id && held == f.frame(other);
  }

  ghost predicate IsHistory(f: Format, run: seq<Store>, events: seq<Event>) {
    && |run| == |events| + 1
    && forall i :: 0 <= i < |events| ==> Possible(f, run[i], events[i]) && run[i + 1] == Next(f, run[i], events[i])
  }

  lemma {:induction false} HistoryKeepsSound(f: Format, run: seq<Store>, events: seq<Event>)
    requires Lawful(f) && IsHistory(f, run, events) && Sound(f, run[0])
    ensures Sound(f, run[|run| - 1]) && Keeps(run[0].finals, run[|run| - 1].finals)
  {
    if events != [] {
      var n := |events| - 1;
      HistoryKeepsSound(f, run[..n + 1], events[..n]);
      EventKeepsSound(f, run[n], events[n]);
    }
  }

  /** Over every interleaving of writers and crashes: final paths hold complete
      frames, never change once present, and only a hash collision raises an
      incident. */
  lemma FinalsAreImmutable(f: Format, run: seq<Store>, events: seq<Event>, i: nat, j: nat)
    requires Lawful(f) && IsHistory(f, run, events) && run[0] == Store(map[], map[], [], false)
    requires i <= j < |run|
    ensures Sound(f, run[i]) && Keeps(run[i].finals, run[j].finals)
  {
    HistoryKeepsSound(f, run[0..i + 1], events[0..i]);
    HistoryKeepsSound(f, run[i..j + 1], events[i..j]);
  }
}
