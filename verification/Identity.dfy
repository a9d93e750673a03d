/** Object identifiers: minimal base-128 varints, the identifier encoding, the hash
    preimage, and the identity of a decoded object. */
module Identity {
  import opened Common
  import opened Canonical
  import opened CanonicalLaws

  // ------------------------------------------------------------- varints

  function Varint(n: nat): (b: Bytes)
    ensures b != []
  {
    if n < 128 then [n] else [n % 128 + 128] + Varint(n / 128)
  }

  method PushVarint(buf: Bytes, n: u64) returns (r: Bytes)
    ensures r == buf + Varint(n)
  {
    var value: nat := n;
    r := buf;
    while value >= 128
      invariant r + Varint(value) == buf + Varint(n)
    {
      assert r + Varint(value) == r + [value % 128 + 128] + Varint(value / 128);
      r := r + [value % 128 + 128];
      value := value / 128;
    }
    r := r + [value];
  }

  function Pow128(k: nat): (r: nat)
    ensures r > 0
  {
    if k == 0 then 1 else 128 * Pow128(k - 1)
  }

  /** Value and length of the varint at the front of `s`, whose first byte is
      byte `i` of at most ten; minimality is not checked yet. */
  function RawVarint(s: Bytes, i: nat): (r: Option<(nat, nat)>)
    ensures r.Some? ==> 0 < r.value.1 <= |s|
    decreases |s|
  {
    if s == [] || i > 9 || (i == 9 && s[0] > 1) then None
    else if s[0] < 128 then Some((s[0], 1))
    else
      var more := RawVarint(s[1..], i + 1);
      if more.None? then None else Some((s[0] - 128 + 128 * more.value.0, more.value.1 + 1))
  }

  /** A minimal varint that fits 64 bits, and what follows it. */
  function ReadVarint(s: Bytes): (r: Option<(u64, Bytes)>)
    ensures r.Some? ==> |r.value.1| < |s|
  {
    var raw := RawVarint(s, 0);
    if raw.None? || |Varint(raw.value.0)| != raw.value.1 then None
    else
      RawBound(s, 0);
      Some((raw.value.0, s[raw.value.1..]))
  }

  /** Ten bytes, the last at most one, stay within 64 bits. */
  lemma {:induction false} RawBound(s: Bytes, i: nat)
    requires i <= 9 && RawVarint(s, i).Some?
    ensures RawVarint(s, i).value.0 < 2 * Pow128(9 - i)
    ensures i == 0 ==> RawVarint(s, i).value.0 < TWO_64
    decreases |s|
  {
    if s[0] >= 128 {
      RawBound(s[1..], i + 1);
    }
    assert Pow128(9) == 0x8000_0000_0000_0000 by {
      assert Pow128(3) == 0x20_0000;
      assert Pow128(6) == 128 * 128 * 128 * Pow128(3);
      assert Pow128(9) == 128 * 128 * 128 * Pow128(6);
    }
  }

  /** The loop over the bytes, with its running shift, then the minimality check. */
  method ReadVarintAt(bytes: Bytes, at: nat) returns (r: Option<u64>, next: nat)
    requires at <= |bytes|
    ensures var spec := ReadVarint(bytes[at..]);
            if spec.None? then r.None?
            else r == Some(spec.value.0) && next <= |bytes| && bytes[next..] == spec.value.1
  {
    var result: nat, scale: nat := 0, 1;
    var i := 0;
    while i <= 9
      invariant 0 <= i <= 10 && Reading(bytes, at, i, result, scale)
      decreases 10 - i
    {
      next := at + i;
      if next == |bytes| { return None, next; }
      var b: int := bytes[next];
      if i == 9 && b > 1 { return None, next; }
      next := next + 1;
      if b < 128 {
        var value := LastByte(bytes, at, i, result, scale);
        return if |Varint(value)| != next - at then None else Some(value), next;
      }
      result, scale := MoreBytes(bytes, at, i, result, scale);
      i := i + 1;
    }
    return None, at + i;
  }

  /** The value so far and the weight of the next byte account for the first `i` bytes. */
  ghost predicate Reading(bytes: Bytes, at: nat, i: nat, result: nat, scale: nat) {
    && at + i <= |bytes| && scale > 0
    && RawVarint(bytes[at..], 0) == Shifted(result, scale, i, RawVarint(bytes[at + i..], i))
  }

  method LastByte(bytes: Bytes, at: nat, i: nat, result: nat, scale: nat) returns (value: nat)
    requires i <= 9 && Reading(bytes, at, i, result, scale) && at + i < |bytes| && bytes[at + i] < 128 && !(i == 9 && bytes[at + i] > 1)
    ensures value < TWO_64
    ensures ReadVarint(bytes[at..]) == if |Varint(value)| != i + 1 then None else Some((value, bytes[at + i + 1..]))
  {
    ReadStep(bytes, at + i, result, scale, i);
    value := result + scale * bytes[at + i];
    ReadEnds(bytes, at, value, i + 1);
  }

  method MoreBytes(bytes: Bytes, at: nat, i: nat, result: nat, scale: nat) returns (result': nat, scale': nat)
    requires i <= 9 && Reading(bytes, at, i, result, scale) && at + i < |bytes| && bytes[at + i] >= 128 && i < 9
    ensures Reading(bytes, at, i + 1, result', scale')
  {
    ReadStep(bytes, at + i, result, scale, i);
    result' := result + scale * (bytes[at + i] - 128);
    scale' := 128 * scale;
  }

  lemma ReadStep(bytes: Bytes, next: nat, result: nat, scale: nat, i: nat)
    requires next < |bytes| && i <= 9 && !(i == 9 && bytes[next] > 1)
    ensures Shifted(result, scale, i, RawVarint(bytes[next..], i)) ==
            if bytes[next] < 128 then Some((result + scale * bytes[next], i + 1))
            else Shifted(result + scale * (bytes[next] - 128), 128 * scale, i + 1, RawVarint(bytes[next + 1..], i + 1))
  {
    var s := bytes[next..];
    assert s[0] == bytes[next] && s[1..] == bytes[next + 1..];
    RawStep(result, scale, i, s);
  }

  lemma ReadEnds(bytes: Bytes, at: nat, result: nat, len: nat)
    requires at + len <= |bytes| && RawVarint(bytes[at..], 0) == Some((result, len))
    ensures result < TWO_64
    ensures ReadVarint(bytes[at..]) == if |Varint(result)| != len then None else Some((result, bytes[at + len..]))
  {
    RawBound(bytes[at..], 0);
    assert bytes[at..][len..] == bytes[at + len..];
  }

  ghost function Shifted(result: nat, scale: nat, i: nat, more: Option<(nat, nat)>): Option<(nat, nat)> {
    if more.None? then None else Some((result + scale * more.value.0, i + more.value.1))
  }

  lemma RawStep(result: nat, scale: nat, i: nat, s: Bytes)
    requires s != [] && i <= 9 && !(i == 9 && s[0] > 1)
    ensures Shifted(result, scale, i, RawVarint(s, i)) ==
            if s[0] < 128 then Some((result + scale * s[0], i + 1))
            else Shifted(result + scale * (s[0] - 128), 128 * scale, i + 1, RawVarint(s[1..], i + 1))
  {
    if s[0] >= 128 {
      var more := RawVarint(s[1..], i + 1);
      if more.Some? {
        var x, y := s[0] - 128, more.value.0;
        assert scale * (x + 128 * y) == scale * x + 128 * scale * y;
      }
    }
  }

  lemma {:induction false} RawOfVarint(n: nat, i: nat, rest: Bytes)
    requires i <= 9 && n < 2 * Pow128(9 - i)
    ensures RawVarint(Varint(n) + rest, i) == Some((n, |Varint(n)|))
    decreases n
  {
    var s := Varint(n) + rest;
    if n >= 128 {
      assert s[1..] == Varint(n / 128) + rest;
      RawOfVarint(n / 128, i + 1, rest);
    }
  }

  /** Varints are read back. */
  lemma VarintRoundTrip(n: u64, rest: Bytes)
    ensures ReadVarint(Varint(n) + rest) == Some((n, rest))
  {
    assert Pow128(9) == 0x8000_0000_0000_0000 by {
      assert Pow128(3) == 0x20_0000;
      assert Pow128(6) == 128 * 128 * 128 * Pow128(3);
      assert Pow128(9) == 128 * 128 * 128 * Pow128(6);
    }
    RawOfVarint(n, 0, rest);
    assert (Varint(n) + rest)[|Varint(n)|..] == rest;
  }

  lemma {:induction false} RawIsVarint(s: Bytes, i: nat)
    requires RawVarint(s, i).Some?
    requires var (v, len) := RawVarint(s, i).value; |Varint(v)| == len
    ensures var (v, len) := RawVarint(s, i).value; s[..len] == Varint(v)
    decreases |s|
  {
    var (v, len) := RawVarint(s, i).value;
    if s[0] >= 128 {
      var (w, more) := RawVarint(s[1..], i + 1).value;
      assert v % 128 + 128 == s[0] && v / 128 == w;
      RawIsVarint(s[1..], i + 1);
      assert s[..len] == [s[0]] + s[1..][..more];
    }
  }

  /** Whatever is read was written minimally. */
  lemma VarintSound(s: Bytes)
    requires ReadVarint(s).Some?
    ensures var (n, rest) := ReadVarint(s).value; s == Varint(n) + rest
  {
    RawIsVarint(s, 0);
  }

  // --------------------------------------------------------- identifiers

  datatype HashAlgorithm = Sha256 | Blake3

  function Code(a: HashAlgorithm): u64 {
    match a
    case Sha256 => 0x12
    case Blake3 => 0x1e
  }

  type Digest = d: Bytes | |d| == 32 witness seq(32, _ => 0)

  datatype ObjectId = ObjectId(algorithm: HashAlgorithm, digest: Digest)

  function ToBytes(id: ObjectId): Bytes {
    Varint(0) + Varint(Code(id.algorithm)) + Varint(32) + id.digest
  }

  function FromBytes(b: Bytes): Option<ObjectId> {
    var format := ReadVarint(b);
    if format.None? || format.value.0 != 0 then None
    else
      var code := ReadVarint(format.value.1);
      if code.None? || (code.value.0 != 0x12 && code.value.0 != 0x1e) then None
      else
        var len := ReadVarint(code.value.1);
        if len.None? || len.value.0 != 32 || |len.value.1| != 32 then None
        else Some(ObjectId(if code.value.0 == 0x12 then Sha256 else Blake3, len.value.1))
  }

  lemma IdRoundTrip(id: ObjectId)
    ensures FromBytes(ToBytes(id)) == Some(id)
  {
    var code := Code(id.algorithm);
    var tail := Varint(32) + id.digest;
    assert ToBytes(id) == Varint(0) + (Varint(code) + tail);
    VarintRoundTrip(0, Varint(code) + tail);
    VarintRoundTrip(code, tail);
    VarintRoundTrip(32, id.digest);
  }

  /** Every accepted byte string is the encoding of the identifier it gives. */
  lemma IdUnique(b: Bytes)
    requires FromBytes(b).Some?
    ensures b == ToBytes(FromBytes(b).value)
  {
    VarintSound(b);
    var r1 := ReadVarint(b).value.1;
    VarintSound(r1);
    var r2 := ReadVarint(r1).value.1;
    VarintSound(r2);
    var r3 := ReadVarint(r2).value.1;
    var code := ReadVarint(r1).value.0;
    JoinParts(Varint(0), Varint(code), Varint(32), r3);
  }

  lemma JoinParts(a: Bytes, b: Bytes, c: Bytes, d: Bytes)
    ensures a + (b + (c + d)) == a + b + c + d
  {
  }

  // ------------------------------------------------------------ preimages

  const OBJECT_DOMAIN: Bytes := [0x52, 0x47, 0x49, 0x54, 0x2d, 0x4f, 0x42, 0x4a, 0x45, 0x43, 0x54, 0]

  function Preimage(kind: u64, schema: u64, payload: Bytes): Bytes {
    OBJECT_DOMAIN + Varint(kind) + Varint(schema) + payload
  }

  /** What is hashed: a domain, the kind, the schema version, and the payload. */
  ghost predicate IsPreimage(pre: Bytes, kind: u64, schema: u64, payload: Bytes) {
    && |pre| >= 12 && pre[..12] == Ascii("RGIT-OBJECT") + [0]
    && ReadVarint(pre[12..]).Some?
    && var (k, rest) := ReadVarint(pre[12..]).value;
    && k == kind && ReadVarint(rest) == Some((schema, payload))
  }

  lemma PreimageLayout(kind: u64, schema: u64, payload: Bytes)
    ensures IsPreimage(Preimage(kind, schema, payload), kind, schema, payload)
  {
    var pre := Preimage(kind, schema, payload);
    assert pre[12..] == Varint(kind) + (Varint(schema) + payload);
    VarintRoundTrip(kind, Varint(schema) + payload);
    VarintRoundTrip(schema, payload);
    assert OBJECT_DOMAIN == Ascii("RGIT-OBJECT") + [0];
    assert pre[..12] == OBJECT_DOMAIN;
  }

  lemma PreimageUnique(pre: Bytes, kind: u64, schema: u64, payload: Bytes)
    requires IsPreimage(pre, kind, schema, payload)
    ensures pre == Preimage(kind, schema, payload)
  {
    assert OBJECT_DOMAIN == Ascii("RGIT-OBJECT") + [0];
    VarintSound(pre[12..]);
    var rest := ReadVarint(pre[12..]).value.1;
    VarintSound(rest);
    assert pre == pre[..12] + pre[12..];
    JoinParts(OBJECT_DOMAIN, Varint(kind), Varint(schema), payload);
  }

  /** The preimage fixes all three parts. */
  lemma PreimageInjective(k: u64, s: u64, b: Bytes, k': u64, s': u64, b': Bytes)
    requires Preimage(k, s, b) == Preimage(k', s', b')
    ensures k == k' && s == s' && b == b'
  {
    var n := |OBJECT_DOMAIN|;
    assert Preimage(k, s, b)[n..] == Varint(k) + (Varint(s) + b);
    assert Preimage(k', s', b')[n..] == Varint(k') + (Varint(s') + b');
    VarintRoundTrip(k, Varint(s) + b);
    VarintRoundTrip(k', Varint(s') + b');
    VarintRoundTrip(s, b);
    VarintRoundTrip(s', b');
  }

  // -------------------------------------------------------------- objects

  /** What the model takes from elsewhere: the text tests, the hash functions and
      the per-kind field schemas. */
  datatype Platform = Platform(
    isUtf8: Bytes -> bool, isNfc: Bytes -> bool,
    hash: (HashAlgorithm, Bytes) -> Digest,
    validFields: (u64, u64, seq<Entry>) -> bool)

  const METADATA := Limits(1024 * 1024, 256 * 1024, 64 * 1024, 64, 65_536)
  const BULK := Limits(16 * 1024 * 1024, 4 * 1024 * 1024, 64 * 1024, 64, 1_000_000)

  function Min(a: u64, b: u64): u64 {
    if a < b then a else b
  }

  function RestrictedBy(a: Limits, b: Limits): (r: Limits)
    ensures Within(r, a) && Within(r, b)
    ensures forall l :: Within(l, a) && Within(l, b) ==> Within(l, r)
  {
    Limits(Min(a.maxBytes, b.maxBytes), Min(a.maxByteString, b.maxByteString), Min(a.maxText, b.maxText),
           Min(a.maxDepth, b.maxDepth), Min(a.maxItems, b.maxItems))
  }

  function Field(es: seq<Entry>, key: u64): Option<Value> {
    if es == [] then None else if es[0].key == key then Some(es[0].value) else Field(es[1..], key)
  }

  predicate IsKind(n: u64) {
    1 <= n <= 31
  }

  predicate Supports(kind: u64, schema: u64) {
    schema == 0 || (kind == 10 && schema == 1)
  }

  /** Chunks and blobs have the larger profile. */
  function KindLimits(kind: u64): Limits {
    if kind == 1 || kind == 2 then BULK else METADATA
  }

  datatype Object = Object(kind: u64, schema: u64, value: Value)

  function With(w: Platform, l: Limits): Profile {
    Profile(l, w.isUtf8, w.isNfc)
  }

  ghost function DecodeObject(w: Platform, bytes: Bytes, limits: Limits): Option<Object> {
    var value := DecodeCanonical(bytes, With(w, RestrictedBy(limits, BULK)));
    if value.None? || !value.value.Map? then None
    else
      var es := value.value.entries;
      var kind, schema := Field(es, 0), Field(es, 1);
      if kind.None? || !kind.value.Unsigned? || !IsKind(kind.value.n) then None
      else if schema.None? || !schema.value.Unsigned? || !Supports(kind.value.n, schema.value.n) then None
      else if !Encodable(value.value, With(w, RestrictedBy(limits, KindLimits(kind.value.n)))) then None
      else if !w.validFields(kind.value.n, schema.value.n, es) then None
      else Some(Object(kind.value.n, schema.value.n, value.value))
  }

  /** Re-encodes the value under its kind's limits and hashes the preimage. */
  ghost function IdOf(w: Platform, o: Object, a: HashAlgorithm): Option<ObjectId> {
    if !Encodable(o.value, With(w, KindLimits(o.kind))) then None
    else Some(ObjectId(a, w.hash(a, Preimage(o.kind, o.schema, Encode(o.value)))))
  }

  ghost function DecodeVerified(w: Platform, bytes: Bytes, id: ObjectId, limits: Limits): Option<Object> {
    var o := DecodeObject(w, bytes, limits);
    if o.None? || IdOf(w, o.value, id.algorithm) != Some(id) then None else o
  }

  lemma EncodableMonotone(w: Platform, v: Value, a: Limits, b: Limits)
    requires Encodable(v, With(w, a)) && Within(a, b)
    ensures Encodable(v, With(w, b))
  {
    FitsMonotone(v, With(w, a), With(w, b), 0);
  }

  /** The object says its own kind and schema version in fields 0 and 1. */
  ghost predicate SaysItsKind(o: Object) {
    o.value.Map? && Field(o.value.entries, 0) == Some(Unsigned(o.kind)) && Field(o.value.entries, 1) == Some(Unsigned(o.schema))
  }

  /** The identifier is a hash over the object's kind, its schema version and `bytes`. */
  ghost predicate Identifies(w: Platform, id: ObjectId, kind: u64, schema: u64, bytes: Bytes) {
    exists pre :: IsPreimage(pre, kind, schema, bytes) && id.digest == w.hash(id.algorithm, pre)
  }

  /** For every accepted input, under whatever limits the caller chose, the
      identifier exists and is the hash over the exact input bytes. */
  lemma IdentityIsOverExactBytes(w: Platform, bytes: Bytes, limits: Limits, a: HashAlgorithm)
    requires DecodeObject(w, bytes, limits).Some?
    ensures var o := DecodeObject(w, bytes, limits).value;
            && SaysItsKind(o) && Encode(o.value) == bytes
            && IdOf(w, o, a).Some? && IdOf(w, o, a).value.algorithm == a
            && Identifies(w, IdOf(w, o, a).value, o.kind, o.schema, bytes)
  {
    var o := DecodeObject(w, bytes, limits).value;
    DecodeExactly(bytes, With(w, RestrictedBy(limits, BULK)), o.value);
    EncodableMonotone(w, o.value, RestrictedBy(limits, KindLimits(o.kind)), KindLimits(o.kind));
    PreimageLayout(o.kind, o.schema, bytes);
  }

  /** An object is accepted under an identifier exactly when it decodes and the identifier
      is the hash over its kind, schema version and exact bytes. */
  lemma VerifiedExactly(w: Platform, bytes: Bytes, id: ObjectId, limits: Limits)
    ensures DecodeVerified(w, bytes, id, limits).Some? <==>
      && DecodeObject(w, bytes, limits).Some?
      && var o := DecodeObject(w, bytes, limits).value; Identifies(w, id, o.kind, o.schema, bytes)
  {
    if DecodeObject(w, bytes, limits).Some? {
      var o := DecodeObject(w, bytes, limits).value;
      IdentityIsOverExactBytes(w, bytes, limits, id.algorithm);
      if Identifies(w, id, o.kind, o.schema, bytes) {
        var pre :| IsPreimage(pre, o.kind, o.schema, bytes) && id.digest == w.hash(id.algorithm, pre);
        PreimageUnique(pre, o.kind, o.schema, bytes);
      }
    }
  }

  /** What decodes under the bulk limits decodes under its own kind's limits too. */
  lemma KindLimitsSuffice(w: Platform, bytes: Bytes, limits: Limits)
    requires DecodeObject(w, bytes, limits).Some?
    ensures var o := DecodeObject(w, bytes, limits).value;
            DecodeObject(w, bytes, KindLimits(o.kind)) == Some(o)
  {
    var o := DecodeObject(w, bytes, limits).value;
    var own := KindLimits(o.kind);
    DecodeExactly(bytes, With(w, RestrictedBy(limits, BULK)), o.value);
    EncodableMonotone(w, o.value, RestrictedBy(limits, own), own);
    assert RestrictedBy(own, BULK) == own && RestrictedBy(own, own) == own;
    DecodeExactly(bytes, With(w, own), o.value);
  }
}
