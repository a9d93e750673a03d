/** Loose records: the checksummed frame and its parser. */
module LooseFrame {
  import opened Common
  import opened Identity

  const MAGIC: Bytes := [0x52, 0x47, 0x49, 0x54, 0x4c, 0x4f, 0x4f, 0x53]
  const CHECKSUM_DOMAIN: Bytes :=
    [0x52, 0x47, 0x49, 0x54, 0x2d, 0x4c, 0x4f, 0x4f, 0x53, 0x45, 0x2d, 0x43, 0x48, 0x45, 0x43, 0x4b, 0x53, 0x55, 0x4d, 0]
  const ABSOLUTE_RECORD_MAX := 16_777_358

  datatype Record = Record(id: ObjectId, kind: u64, schema: u64, payload: Bytes)

  /** The payload decodes, under its kind's limits, to an object with this identifier. */
  ghost predicate IsValid(w: Platform, r: Record) {
    var o := DecodeVerified(w, r.payload, r.id, KindLimits(r.kind));
    o.Some? && o.value.kind == r.kind && o.value.schema == r.schema
  }

  function Lengths(r: Record): Bytes {
    Varint(r.kind) + Varint(r.schema) + Varint(|r.payload|)
  }

  function Header(r: Record): Bytes {
    MAGIC + Varint(0) + ToBytes(r.id) + Lengths(r)
  }

  function Body(r: Record): Bytes {
    Header(r) + r.payload
  }

  function Frame(w: Platform, r: Record): Bytes {
    Body(r) + w.hash(Sha256, CHECKSUM_DOMAIN + Body(r))
  }

  /** The writer: refuses an oversized payload, appends each part, then the checksum. */
  method EncodeFrame(w: Platform, r: Record) returns (frame: Option<Bytes>)
    ensures frame == if |r.payload| <= KindLimits(r.kind).maxBytes then Some(Frame(w, r)) else None
  {
    if |r.payload| > KindLimits(r.kind).maxBytes { return None; }
    var buf := PushVarint(MAGIC, 0);
    buf := buf + ToBytes(r.id);
    buf := PushVarint(buf, r.kind);
    buf := PushVarint(buf, r.schema);
    buf := PushVarint(buf, |r.payload|);
    buf := buf + r.payload;
    assert buf == Body(r);
    return Some(buf + w.hash(Sha256, CHECKSUM_DOMAIN + buf));
  }

  // -------------------------------------------------------------- parsing

  /** Format, algorithm, digest length and digest, as the frame reader takes them. */
  function ReadId(s: Bytes): Option<(ObjectId, Bytes)> {
    var format := ReadVarint(s);
    if format.None? || format.value.0 != 0 then None
    else
      var code := ReadVarint(format.value.1);
      if code.None? || (code.value.0 != 0x12 && code.value.0 != 0x1e) then None
      else
        var len := ReadVarint(code.value.1);
        if len.None? || len.value.0 != 32 || |len.value.1| < 32 then None
        else Some((ObjectId(if code.value.0 == 0x12 then Sha256 else Blake3, len.value.1[..32]), len.value.1[32..]))
  }

  function ReadLengths(s: Bytes): Option<(u64, u64, u64, Bytes)> {
    var kind := ReadVarint(s);
    if kind.None? || !IsKind(kind.value.0) then None
    else
      var schema := ReadVarint(kind.value.1);
      if schema.None? || !Supports(kind.value.0, schema.value.0) then None
      else
        var len := ReadVarint(schema.value.1);
        if len.None? || len.value.0 > KindLimits(kind.value.0).maxBytes then None
        else Some((kind.value.0, schema.value.0, len.value.0, len.value.1))
  }

  /** Magic, version, identifier and lengths. */
  function ReadHeader(s: Bytes): Option<(ObjectId, (u64, u64, u64, Bytes))> {
    if |s| < 8 || s[..8] != MAGIC then None
    else
      var version := ReadVarint(s[8..]);
      if version.None? || version.value.0 != 0 then None
      else
        var id := ReadId(version.value.1);
        if id.None? then None
        else
          var lengths := ReadLengths(id.value.1);
          if lengths.None? then None else Some((id.value.0, lengths.value))
  }

  /** A whole frame of exactly the observed length with a matching checksum. */
  function ParseFrame(w: Platform, s: Bytes): Option<Record> {
    var header := ReadHeader(s);
    if header.None? then None
    else
      var (id, (kind, schema, len, rest)) := header.value;
      if |rest| != len + 32 || w.hash(Sha256, CHECKSUM_DOMAIN + s[..|s| - 32]) != rest[len..] then None
      else Some(Record(id, kind, schema, rest[..len]))
  }

  /** A frame whose payload verifies. */
  ghost function ParseRecord(w: Platform, s: Bytes): Option<Record> {
    var r := ParseFrame(w, s);
    if r.None? || !IsValid(w, r.value) then None else r
  }

  /** What the length fields of a frame allow. */
  predicate Bounded(r: Record) {
    IsKind(r.kind) && Supports(r.kind, r.schema) && |r.payload| <= KindLimits(r.kind).maxBytes
  }

  lemma ReadIdOf(id: ObjectId, rest: Bytes)
    ensures ReadId(ToBytes(id) + rest) == Some((id, rest))
  {
    var code := Code(id.algorithm);
    var tail := Varint(32) + (id.digest + rest);
    assert ToBytes(id) + rest == Varint(0) + (Varint(code) + tail);
    VarintRoundTrip(0, Varint(code) + tail);
    VarintRoundTrip(code, tail);
    VarintRoundTrip(32, id.digest + rest);
    assert (id.digest + rest)[..32] == id.digest && (id.digest + rest)[32..] == rest;
  }

  lemma IdParts(b0: Bytes, b1: Bytes, b2: Bytes, r3: Bytes)
    requires |r3| >= 32
    ensures b0 + (b1 + (b2 + r3)) == b0 + b1 + b2 + r3[..32] + r3[32..]
  {
    assert r3 == r3[..32] + r3[32..];
  }

  lemma ReadIdSound(s: Bytes)
    requires ReadId(s).Some?
    ensures s == ToBytes(ReadId(s).value.0) + ReadId(s).value.1
  {
    VarintSound(s);
    var r1 := ReadVarint(s).value.1;
    VarintSound(r1);
    var (code, r2) := ReadVarint(r1).value;
    VarintSound(r2);
    IdParts(Varint(0), Varint(code), Varint(32), ReadVarint(r2).value.1);
  }

  lemma ReadLengthsOf(r: Record, rest: Bytes)
    requires Bounded(r)
    ensures ReadLengths(Lengths(r) + rest) == Some((r.kind, r.schema, |r.payload|, rest))
  {
    var tail := Varint(|r.payload|) + rest;
    assert Lengths(r) + rest == Varint(r.kind) + (Varint(r.schema) + tail);
    VarintRoundTrip(r.kind, Varint(r.schema) + tail);
    VarintRoundTrip(r.schema, tail);
    VarintRoundTrip(|r.payload|, rest);
  }

  lemma ReadLengthsSound(s: Bytes)
    requires ReadLengths(s).Some?
    ensures var (kind, schema, len, rest) := ReadLengths(s).value;
            s == Varint(kind) + Varint(schema) + Varint(len) + rest
  {
    VarintSound(s);
    var (kind, r1) := ReadVarint(s).value;
    VarintSound(r1);
    var (schema, r2) := ReadVarint(r1).value;
    VarintSound(r2);
    var (len, r3) := ReadVarint(r2).value;
    JoinParts(Varint(kind), Varint(schema), Varint(len), r3);
  }

  lemma ValidIsBounded(w: Platform, r: Record)
    requires IsValid(w, r)
    ensures Bounded(r)
  {
  }

  lemma ReadHeaderOf(r: Record, tail: Bytes)
    requires Bounded(r)
    ensures ReadHeader(Header(r) + tail) == Some((r.id, (r.kind, r.schema, |r.payload|, tail)))
  {
    var s := Header(r) + tail;
    assert s == MAGIC + (Varint(0) + (ToBytes(r.id) + (Lengths(r) + tail)));
    assert s[..8] == MAGIC && s[8..] == Varint(0) + (ToBytes(r.id) + (Lengths(r) + tail));
    VarintRoundTrip(0, ToBytes(r.id) + (Lengths(r) + tail));
    ReadIdOf(r.id, Lengths(r) + tail);
    ReadLengthsOf(r, tail);
  }

  lemma ReadHeaderSound(s: Bytes)
    requires ReadHeader(s).Some?
    ensures var (id, (kind, schema, len, rest)) := ReadHeader(s).value;
            s == MAGIC + (Varint(0) + (ToBytes(id) + (Varint(kind) + Varint(schema) + Varint(len) + rest)))
  {
    var r0 := s[8..];
    assert s == MAGIC + r0;
    VarintSound(r0);
    var r1 := ReadVarint(r0).value.1;
    ReadIdSound(r1);
    ReadLengthsSound(ReadId(r1).value.1);
  }

  lemma FrameParts(w: Platform, r: Record)
    ensures var sum := w.hash(Sha256, CHECKSUM_DOMAIN + Body(r));
            var s, tail := Frame(w, r), r.payload + sum;
            && s == Header(r) + tail && s[..|s| - 32] == Body(r)
            && |tail| == |r.payload| + 32 && tail[..|r.payload|] == r.payload && tail[|r.payload|..] == sum
  {
    ThreeParts(Header(r), r.payload, w.hash(Sha256, CHECKSUM_DOMAIN + Body(r)));
  }

  lemma ThreeParts(a: Bytes, b: Bytes, c: Bytes)
    ensures a + b + c == a + (b + c) && (a + b + c)[..|a| + |b|] == a + b
    ensures (b + c)[..|b|] == b && (b + c)[|b|..] == c
  {
  }

  lemma ParseFrameOf(w: Platform, r: Record)
    requires Bounded(r)
    ensures ParseFrame(w, Frame(w, r)) == Some(r)
  {
    FrameParts(w, r);
    ReadHeaderOf(r, r.payload + w.hash(Sha256, CHECKSUM_DOMAIN + Body(r)));
  }

  lemma PartsMakeFrame(s: Bytes, r: Record, rest: Bytes)
    requires |rest| == |r.payload| + 32 && rest[..|r.payload|] == r.payload
    requires s == MAGIC + (Varint(0) + (ToBytes(r.id) + (Lengths(r) + rest)))
    ensures s == Body(r) + rest[|r.payload|..] && s[..|s| - 32] == Body(r)
  {
    var sum := rest[|r.payload|..];
    assert rest == r.payload + sum;
    ShiftParens(MAGIC, Varint(0), ToBytes(r.id), Lengths(r), r.payload, sum);
  }

  lemma ParseFrameSound(w: Platform, s: Bytes)
    requires ParseFrame(w, s).Some?
    ensures s == Frame(w, ParseFrame(w, s).value)
  {
    ReadHeaderSound(s);
    PartsMakeFrame(s, ParseFrame(w, s).value, ReadHeader(s).value.1.3);
  }

  /** Every valid record is read back from its frame. */
  lemma FrameRoundTrip(w: Platform, r: Record)
    requires IsValid(w, r)
    ensures ParseRecord(w, Frame(w, r)) == Some(r)
  {
    ValidIsBounded(w, r);
    ParseFrameOf(w, r);
  }

  /** Whatever parses is the frame of a valid record. */
  lemma ParseIsFrame(w: Platform, s: Bytes)
    requires ParseRecord(w, s).Some?
    ensures var r := ParseRecord(w, s).value; IsValid(w, r) && s == Frame(w, r)
  {
    ParseFrameSound(w, s);
  }

  lemma ShiftParens(a: Bytes, b: Bytes, c: Bytes, d: Bytes, e: Bytes, f: Bytes)
    ensures a + (b + (c + (d + (e + f)))) == a + b + c + d + e + f
  {
  }

  /** What the store admits under the bulk limits is a valid record of its kind. */
  lemma AdmittedIsValid(w: Platform, payload: Bytes, id: ObjectId)
    requires DecodeVerified(w, payload, id, BULK).Some?
    ensures var o := DecodeVerified(w, payload, id, BULK).value;
            IsValid(w, Record(id, o.kind, o.schema, payload))
  {
    KindLimitsSuffice(w, payload, BULK);
  }

  lemma {:induction false} VarintShort(n: nat, k: nat)
    requires n < Pow128(k) && k > 0
    ensures |Varint(n)| <= k
  {
    if n >= 128 { VarintShort(n / 128, k - 1); }
  }

  /** The reader's size cap never rejects what the writer produces. */
  lemma FrameFits(w: Platform, r: Record)
    requires IsValid(w, r)
    ensures |Frame(w, r)| <= ABSOLUTE_RECORD_MAX
  {
    ValidIsBounded(w, r);
    assert Pow128(1) == 128;
    assert Pow128(4) == 128 * 128 * 128 * Pow128(1);
    VarintShort(r.kind, 1);
    VarintShort(r.schema, 1);
    VarintShort(|r.payload|, 4);
    VarintShort(Code(r.id.algorithm), 1);
  }
}
