/** Content-defined chunking, byte by byte. */
module FastCdc {
  import opened Common

  const MIN_SIZE := 256 * 1024
  const TARGET_SIZE := 1024 * 1024
  const MAX_SIZE := 4 * 1024 * 1024
  const EARLY := 0x20_0000
  const LATE := 0x8_0000

  /** The table that turns a byte into a 64-bit value. */
  type Gear = byte -> u64

  datatype State = State(pending: Bytes, rolling: u64)

  const START := State([], 0)

  function RotateLeft(x: u64): u64 {
    (2 * x) % TWO_64 + x / 0x8000_0000_0000_0000
  }

  function Roll(gear: Gear, rolling: u64, b: byte): u64 {
    (RotateLeft(rolling) + gear(b)) % TWO_64
  }

  /** The low 21 bits are zero below the target size, the low 19 from there on. */
  predicate IsCut(rolling: u64, length: nat) {
    rolling % (if length < TARGET_SIZE then EARLY else LATE) == 0 || length == MAX_SIZE
  }

  /** A state, and the chunks completed on the way to it. */
  datatype Fed = Fed(state: State, chunks: seq<Bytes>)

  /** One more byte. */
  function Step(gear: Gear, f: Fed, b: byte): Fed {
    var pending := f.state.pending + [b];
    if |pending| < MIN_SIZE then f.(state := f.state.(pending := pending))
    else
      var rolling := Roll(gear, f.state.rolling, b);
      if IsCut(rolling, |pending|) then Fed(START, f.chunks + [pending]) else f.(state := State(pending, rolling))
  }

  function Feed(gear: Gear, f: Fed, input: Bytes): Fed {
    if input == [] then f else Step(gear, Feed(gear, f, input[..|input| - 1]), input[|input| - 1])
  }

  class FastCdcV0 {
    const gear: Gear
    var pending: Bytes
    var rolling: u64

    ghost function Now(): State
      reads this
    {
      State(pending, rolling)
    }

    constructor (gear: Gear)
      ensures this.gear == gear && Now() == START
    {
      this.gear := gear;
      pending, rolling := [], 0;
    }

    method Push(input: Bytes) returns (completed: seq<Bytes>)
      modifies this
      ensures Fed(Now(), completed) == Feed(gear, Fed(old(Now()), []), input)
    {
      completed := [];
      ghost var start := Now();
      for i := 0 to |input|
        invariant Fed(Now(), completed) == Feed(gear, Fed(start, []), input[..i])
      {
        assert input[..i + 1][..i] == input[..i];
        pending := pending + [input[i]];
        var length := |pending|;
        if length >= MIN_SIZE {
          rolling := Roll(gear, rolling, input[i]);
          if IsCut(rolling, length) {
            completed := completed + [pending];
            pending, rolling := [], 0;
          }
        }
      }
      assert input[..|input|] == input;
    }

    method Finish() returns (last: seq<Bytes>)
      ensures last == Tail(Now())
    {
      return if pending == [] then [] else [pending];
    }
  }

  function Tail(s: State): seq<Bytes> {
    if s.pending == [] then [] else [s.pending]
  }

  /** The chunks of a complete stream. */
  function Chunks(gear: Gear, bytes: Bytes): seq<Bytes> {
    var f := Feed(gear, Fed(START, []), bytes);
    f.chunks + Tail(f.state)
  }

  function Joined(chunks: seq<Bytes>): Bytes {
    if chunks == [] then [] else Joined(chunks[..|chunks| - 1]) + chunks[|chunks| - 1]
  }

  // ------------------------------------------------ independence of segments

  lemma {:induction false} FeedSplits(gear: Gear, f: Fed, a: Bytes, b: Bytes)
    ensures Feed(gear, f, a + b) == Feed(gear, Feed(gear, f, a), b)
    decreases |b|
  {
    if b == [] {
      assert a + b == a;
    } else {
      FeedSplits(gear, f, a, b[..|b| - 1]);
      assert (a + b)[..|a + b| - 1] == a + b[..|b| - 1];
    }
  }

  /** Chunks completed earlier make no difference to later ones. */
  lemma {:induction false} FeedForgets(gear: Gear, f: Fed, input: Bytes)
    ensures var later := Feed(gear, Fed(f.state, []), input);
            Feed(gear, f, input) == Fed(later.state, f.chunks + later.chunks)
  {
    if input != [] {
      FeedForgets(gear, f, input[..|input| - 1]);
      var before := Feed(gear, Fed(f.state, []), input[..|input| - 1]);
      var pending := before.state.pending + [input[|input| - 1]];
      assert f.chunks + (before.chunks + [pending]) == (f.chunks + before.chunks) + [pending];
    } else {
      assert f.chunks + [] == f.chunks;
    }
  }

  /** Pushing the segments one after another, collecting what each push returns. */
  function PushAll(gear: Gear, s: State, segments: seq<Bytes>): Fed {
    if segments == [] then Fed(s, [])
    else
      var before := PushAll(gear, s, segments[..|segments| - 1]);
      var after := Feed(gear, Fed(before.state, []), segments[|segments| - 1]);
      Fed(after.state, before.chunks + after.chunks)
  }

  /** However the bytes are cut into pushes, empty ones included, the chunks and the
      state are those of one push. */
  lemma {:induction false} SegmentsDoNotMatter(gear: Gear, s: State, segments: seq<Bytes>)
    ensures PushAll(gear, s, segments) == Feed(gear, Fed(s, []), Joined(segments))
  {
    if segments != [] {
      var init, last := segments[..|segments| - 1], segments[|segments| - 1];
      SegmentsDoNotMatter(gear, s, init);
      FeedSplits(gear, Fed(s, []), Joined(init), last);
      FeedForgets(gear, PushAll(gear, s, init), last);
    }
  }

  // ------------------------------------------------------- contents and sizes

  lemma {:induction false} JoinedSplits(a: seq<Bytes>, b: seq<Bytes>)
    ensures Joined(a + b) == Joined(a) + Joined(b)
    decreases |b|
  {
    if b == [] {
      assert a + b == a;
    } else {
      var init, last := b[..|b| - 1], b[|b| - 1];
      JoinedSplits(a, init);
      assert (a + b)[..|a + b| - 1] == a + init;
      Reassociate(Joined(a), Joined(init), last);
    }
  }

  lemma Reassociate(a: Bytes, b: Bytes, c: Bytes)
    ensures (a + b) + c == a + (b + c)
  {
  }

  ghost function AllBytes(f: Fed): Bytes {
    Joined(f.chunks) + f.state.pending
  }

  lemma StepKeepsBytes(gear: Gear, f: Fed, b: byte)
    ensures AllBytes(Step(gear, f, b)) == AllBytes(f) + [b]
  {
    var pending := f.state.pending + [b];
    assert Joined(f.chunks) + pending == AllBytes(f) + [b];
    assert (f.chunks + [pending])[..|f.chunks|] == f.chunks;
    assert Joined(f.chunks + [pending]) == Joined(f.chunks) + pending;
  }

  /** Nothing is lost, repeated or reordered. */
  lemma {:induction false} FeedKeepsBytes(gear: Gear, f: Fed, input: Bytes)
    ensures AllBytes(Feed(gear, f, input)) == AllBytes(f) + input
  {
    if input != [] {
      var init, last := input[..|input| - 1], input[|input| - 1];
      FeedKeepsBytes(gear, f, init);
      StepKeepsBytes(gear, Feed(gear, f, init), last);
      assert input == init + [last];
    }
  }

  predicate Sized(chunk: Bytes) {
    MIN_SIZE <= |chunk| <= MAX_SIZE
  }

  ghost predicate SizesOk(f: Fed) {
    |f.state.pending| < MAX_SIZE && forall c :: c in f.chunks ==> Sized(c)
  }

  lemma {:induction false} FeedSizes(gear: Gear, f: Fed, input: Bytes)
    requires SizesOk(f)
    ensures SizesOk(Feed(gear, f, input))
  {
    if input != [] {
      FeedSizes(gear, f, input[..|input| - 1]);
    }
  }

  /** The chunks of any bytes join to them; all but the last are within the profile's
      bounds, and what `finish` adds is nonempty and below the maximum. */
  lemma ChunksExactly(gear: Gear, bytes: Bytes)
    ensures Joined(Chunks(gear, bytes)) == bytes
    ensures forall i :: 0 <= i < |Chunks(gear, bytes)| - 1 ==> Sized(Chunks(gear, bytes)[i])
    ensures forall c :: c in Chunks(gear, bytes) ==> 0 < |c| <= MAX_SIZE
    ensures forall c :: c in Tail(Feed(gear, Fed(START, []), bytes).state) ==> 0 < |c| < MAX_SIZE
    ensures bytes == [] <==> Chunks(gear, bytes) == []
  {
    var f := Feed(gear, Fed(START, []), bytes);
    FeedSizes(gear, Fed(START, []), bytes);
    ChunksJoin(gear, bytes);
    forall i | 0 <= i < |f.chunks|
      ensures Sized(Chunks(gear, bytes)[i])
    {
      assert Chunks(gear, bytes)[i] == f.chunks[i] && f.chunks[i] in f.chunks;
    }
  }

  lemma ChunksJoin(gear: Gear, bytes: Bytes)
    ensures Joined(Chunks(gear, bytes)) == bytes
    ensures bytes == [] <==> Chunks(gear, bytes) == []
  {
    var f := Feed(gear, Fed(START, []), bytes);
    FeedKeepsBytes(gear, Fed(START, []), bytes);
    JoinedSplits(f.chunks, Tail(f.state));
    TailJoins(f.state);
    assert AllBytes(Fed(START, [])) + bytes == bytes;
    if Chunks(gear, bytes) == [] { assert Joined(Chunks(gear, bytes)) == []; }
  }

  lemma TailJoins(s: State)
    ensures Joined(Tail(s)) == s.pending
  {
    assert s.pending != [] ==> Joined([s.pending]) == Joined([]) + s.pending;
  }

  // ---------------------------------------------------- where a chunk ends

  /** The sum after the bytes of a chunk: from the one that completes the minimum size
      on, each byte turns the sum left by one bit and adds its table value. */
  ghost function SumAfter(gear: Gear, chunk: Bytes): u64 {
    if |chunk| < 0x4_0000 then 0
    else (Turned(SumAfter(gear, chunk[..|chunk| - 1])) + gear(chunk[|chunk| - 1])) % TWO_64
  }

  ghost function Turned(x: u64): u64 {
    if x < 0x8000_0000_0000_0000 then 2 * x else 2 * x + 1 - TWO_64
  }

  /** From 256 KiB on, where the low 21 bits of the sum are zero, or from 1 MiB on the
      low 19; in any case at 4 MiB. */
  ghost predicate Boundary(gear: Gear, chunk: Bytes) {
    && |chunk| >= 0x4_0000
    && (|| (|chunk| < 0x10_0000 && SumAfter(gear, chunk) % 0x20_0000 == 0)
        || (|chunk| >= 0x10_0000 && SumAfter(gear, chunk) % 0x8_0000 == 0)
        || |chunk| == 0x40_0000)
  }

  ghost predicate NoBoundary(gear: Gear, chunk: Bytes) {
    forall n: nat :: n <= |chunk| ==> !Boundary(gear, chunk[..n])
  }

  ghost predicate EndsAtFirst(gear: Gear, chunk: Bytes) {
    chunk != [] && Boundary(gear, chunk) && NoBoundary(gear, chunk[..|chunk| - 1])
  }

  lemma NoBoundarySnoc(gear: Gear, chunk: Bytes, b: byte)
    requires NoBoundary(gear, chunk) && !Boundary(gear, chunk + [b])
    ensures NoBoundary(gear, chunk + [b])
  {
    var next := chunk + [b];
    forall n: nat | n <= |next|
      ensures !Boundary(gear, next[..n])
    {
      if n <= |chunk| { assert next[..n] == chunk[..n]; } else { assert next[..n] == next; }
    }
  }

  lemma RollIsSum(gear: Gear, pending: Bytes, b: byte)
    requires |pending| + 1 >= 0x4_0000
    ensures SumAfter(gear, pending + [b]) == Roll(gear, SumAfter(gear, pending), b)
  {
    assert (pending + [b])[..|pending|] == pending;
    TurnedIsRotated(SumAfter(gear, pending));
  }

  lemma TurnedIsRotated(x: u64)
    ensures Turned(x) == RotateLeft(x)
  {
    if x < 0x8000_0000_0000_0000 {
      assert 2 * x < TWO_64;
    } else {
      assert x / 0x8000_0000_0000_0000 == 1;
      assert (2 * x) % TWO_64 == 2 * x - TWO_64;
    }
  }

  /** What every byte keeps. */
  ghost predicate Placed(gear: Gear, f: Fed) {
    && f.state.rolling == SumAfter(gear, f.state.pending)
    && NoBoundary(gear, f.state.pending)
    && forall c :: c in f.chunks ==> EndsAtFirst(gear, c)
  }

  lemma StepPlaced(gear: Gear, f: Fed, b: byte)
    requires Placed(gear, f)
    ensures Placed(gear, Step(gear, f, b))
  {
    var next := f.state.pending + [b];
    if |next| >= MIN_SIZE { RollIsSum(gear, f.state.pending, b); }
    if Boundary(gear, next) {
      assert next[..|next| - 1] == f.state.pending;
    } else {
      NoBoundarySnoc(gear, f.state.pending, b);
    }
  }

  lemma {:induction false} FeedPlaced(gear: Gear, f: Fed, input: Bytes)
    requires Placed(gear, f)
    ensures Placed(gear, Feed(gear, f, input))
  {
    if input != [] {
      FeedPlaced(gear, f, input[..|input| - 1]);
      StepPlaced(gear, Feed(gear, f, input[..|input| - 1]), input[|input| - 1]);
    }
  }

  /** Every chunk ends at the first boundary in it, but for a last one that has none. */
  lemma ChunksEnd(gear: Gear, bytes: Bytes)
    ensures forall i :: 0 <= i < |Chunks(gear, bytes)| - 1 ==> EndsAtFirst(gear, Chunks(gear, bytes)[i])
    ensures bytes != [] ==>
      var last := Chunks(gear, bytes)[|Chunks(gear, bytes)| - 1];
      EndsAtFirst(gear, last) || NoBoundary(gear, last)
  {
    var f := Feed(gear, Fed(START, []), bytes);
    FeedPlaced(gear, Fed(START, []), bytes);
    ChunksJoin(gear, bytes);
    forall i | 0 <= i < |f.chunks|
      ensures EndsAtFirst(gear, Chunks(gear, bytes)[i])
    {
      assert Chunks(gear, bytes)[i] == f.chunks[i] && f.chunks[i] in f.chunks;
    }
  }

  /** One push of everything, then the end of the stream. */
  method FastCdcChunks(gear: Gear, bytes: Bytes) returns (chunks: seq<Bytes>)
    ensures chunks == Chunks(gear, bytes)
  {
    var chunker := new FastCdcV0(gear);
    var completed := chunker.Push(bytes);
    var last := chunker.Finish();
    return completed + last;
  }
}
