/** The byte layouts themselves: what a reader of the bytes sees, without the functions
    that write or read them. */
module Layouts {
  import opened Common
  import opened Canonical
  import opened CanonicalLaws
  import opened Identity
  import opened LooseFrame
  import Codec

  // ------------------------------------------------- section 3.1 of RFC 8949

  lemma BigEndianLast(n: nat, width: nat)
    requires width > 0
    ensures BigEndian(n, width) == BigEndian(n / 0x100, width - 1) + [n % 0x100]
  {
  }

  lemma OneByte(n: nat)
    ensures n < 0x100 ==> BigEndian(n, 1) == [n]
    ensures BigEndian(n, 1) == [n % 0x100]
  {
    BigEndianLast(n, 1);
    assert BigEndian(n / 0x100, 0) == [];
  }

  lemma TwoBytes(n: nat)
    ensures BigEndian(n, 2) == [n / 0x100 % 0x100, n % 0x100]
    ensures n < 0x1_0000 ==> BigEndian(n, 2) == [n / 0x100, n % 0x100]
  {
    BigEndianLast(n, 2);
    OneByte(n / 0x100);
  }

  /** The low four bytes, most significant first. */
  function Quad(n: nat): Bytes {
    [n / 0x100_0000 % 0x100, n / 0x1_0000 % 0x100, n / 0x100 % 0x100, n % 0x100]
  }

  lemma FourBytes(n: nat)
    ensures BigEndian(n, 4) == Quad(n)
  {
    BigEndianLast(n, 4);
    BigEndianLast(n / 0x100, 3);
    TwoBytes(n / 0x1_0000);
    assert n / 0x100 / 0x100 == n / 0x1_0000 && n / 0x1_0000 / 0x100 == n / 0x100_0000;
  }

  lemma EightBytes(n: nat)
    ensures BigEndian(n, 8) == Quad(n / 0x1_0000_0000) + Quad(n)
  {
    var high := BigEndian(n / 0x1_0000_0000, 4);
    FourBytes(n / 0x1_0000_0000);
    FourBytes(n);
    BigEndianLast(n, 8);
    BigEndianLast(n / 0x100, 7);
    BigEndianLast(n / 0x100 / 0x100, 6);
    BigEndianLast(n / 0x100 / 0x100 / 0x100, 5);
    BigEndianLast(n, 4);
    BigEndianLast(n / 0x100, 3);
    BigEndianLast(n / 0x100 / 0x100, 2);
    BigEndianLast(n / 0x100 / 0x100 / 0x100, 1);
    assert n / 0x100 / 0x100 / 0x100 / 0x100 == n / 0x1_0000_0000;
    JoinFour(high, n % 0x100, n / 0x100 % 0x100, n / 0x100 / 0x100 % 0x100, n / 0x100 / 0x100 / 0x100 % 0x100);
  }

  lemma JoinFour(high: Bytes, d: byte, c: byte, b: byte, a: byte)
    ensures high + [a] + [b] + [c] + [d] == high + ([] + [a] + [b] + [c] + [d])
  {
  }

  /** The head of an item: the major type in the high three bits, then the argument in
      the shortest of the five forms, most significant byte first. */
  lemma HeadBytes(m: major, n: u64)
    ensures n < 24 ==> Head(m, n) == [m * 32 + n]
    ensures 24 <= n < 0x100 ==> Head(m, n) == [m * 32 + 24, n]
    ensures 0x100 <= n < 0x1_0000 ==> Head(m, n) == [m * 32 + 25, n / 0x100, n % 0x100]
    ensures 0x1_0000 <= n < 0x1_0000_0000 ==> Head(m, n) == [m * 32 + 26] + Quad(n)
    ensures 0x1_0000_0000 <= n ==> Head(m, n) == [m * 32 + 27] + (Quad(n / 0x1_0000_0000) + Quad(n))
  {
    if n < 0x100 {
      OneByte(n);
    } else if n < 0x1_0000 {
      TwoBytes(n);
    } else if n < 0x1_0000_0000 {
      FourBytes(n);
    } else {
      EightBytes(n);
    }
  }

  /** The form of each kind of item. */
  lemma ItemForms(v: Value)
    ensures v.Unsigned? ==> Emit(v) == Head(0, v.n)
    ensures v.Signed? && v.i < 0 ==> Emit(v) == Head(1, -1 - v.i)
    ensures v.Signed? && v.i >= 0 ==> Emit(v) == Head(0, v.i)
    ensures v.ByteString? ==> Emit(v) == Head(2, |v.bytes|) + v.bytes
    ensures v.Text? ==> Emit(v) == Head(3, |v.utf8|) + v.utf8
    ensures v.Array? ==> Head(4, |v.items|) <= Emit(v)
    ensures v.Map? ==> Head(5, |v.entries|) <= Emit(v)
    ensures v == Bool(false) ==> Emit(v) == [0xf4]
    ensures v == Bool(true) ==> Emit(v) == [0xf5]
    ensures v == Null ==> Emit(v) == [0xf6]
  {
  }

  /** Items and entries follow their head one after another, a key before its value. */
  lemma MembersFollow(items: seq<Value>, w: Value, e: Entry, es: seq<Entry>)
    ensures Emit(Array([])) == [0x80] && Emit(Map([])) == [0xa0]
    ensures EmitItems([w] + items) == Emit(w) + EmitItems(items)
    ensures EmitEntries([e] + es) == Head(0, e.key) + Emit(e.value) + EmitEntries(es)
  {
    assert ([w] + items)[1..] == items && ([e] + es)[1..] == es;
  }

  // ------------------------------------------------------------ normal forms

  /** `n` says what `v` says: the same but for the order of entries and for how a
      non-negative number is written. */
  ghost predicate SaysTheSame(v: Value, n: Value) {
    match v
    case Signed(i) => n == if i >= 0 then Unsigned(i) else v
    case Array(items) => n.Array? && |n.items| == |items| && forall k :: 0 <= k < |items| ==> SaysTheSame(items[k], n.items[k])
    case Map(entries) => n.Map? && |n.entries| == |entries| && forall e :: e in entries ==> HasEntry(e, n.entries)
    case _ => n == v
  }

  ghost predicate HasEntry(e: Entry, es: seq<Entry>) {
    exists d :: d in es && d.key == e.key && SaysTheSame(e.value, d.value)
  }

  /** What an encoding writes, and its decoding returns, says what the value said. */
  lemma {:induction false} NormalSaysTheSame(v: Value)
    ensures SaysTheSame(v, Normal(v))
    decreases v
  {
    if v.Array? {
      forall k | 0 <= k < |v.items|
        ensures SaysTheSame(v.items[k], NormalItems(v.items)[k])
      {
        NormalSaysTheSame(v.items[k]);
        NormalItemsAt(v.items, k);
      }
    } else if v.Map? {
      var normal := NormalEntries(v.entries);
      Codec.SortDistinct(normal);
      forall e | e in v.entries
        ensures HasEntry(e, SortEntries(normal))
      {
        var i: nat :| i < |v.entries| && v.entries[i] == e;
        NormalSaysTheSame(e.value);
        NormalEntriesAt(v.entries, i);
        assert NormalEntry(e) in normal;
      }
    }
  }

  // ------------------------------------------------------------------ limits

  ghost predicate IsMember(v: Value, c: Value) {
    || (v.Array? && c in v.items)
    || (v.Map? && exists e :: e in v.entries && e.value == c)
  }

  /** `w` is nested `depth` levels inside `v`. */
  ghost predicate Nested(v: Value, depth: nat, w: Value) {
    if depth == 0 then v == w else exists c :: IsMember(v, c) && Nested(c, depth - 1, w)
  }

  predicate WithinLimits(w: Value, p: Profile) {
    && (w.ByteString? ==> |w.bytes| <= p.limits.maxByteString)
    && (w.Text? ==> |w.utf8| <= p.limits.maxText && p.isUtf8(w.utf8) && p.isNfc(w.utf8))
    && (w.Array? ==> |w.items| <= p.limits.maxItems)
    && (w.Map? ==> |w.entries| <= p.limits.maxItems && DistinctKeys(w.entries))
  }

  ghost predicate AllWithin(v: Value, p: Profile, depth: nat) {
    forall d: nat, w :: Nested(v, d, w) ==> depth + d <= p.limits.maxDepth && WithinLimits(w, p)
  }

  lemma MembersWithin(v: Value, p: Profile, depth: nat)
    ensures AllWithin(v, p, depth) <==>
            depth <= p.limits.maxDepth && WithinLimits(v, p) && forall c :: IsMember(v, c) ==> AllWithin(c, p, depth + 1)
  {
    if AllWithin(v, p, depth) {
      assert Nested(v, 0, v);
      forall c, d: nat, w | IsMember(v, c) && Nested(c, d, w)
        ensures depth + 1 + d <= p.limits.maxDepth && WithinLimits(w, p)
      {
        assert Nested(v, d + 1, w);
      }
    }
    if depth <= p.limits.maxDepth && WithinLimits(v, p) && forall c :: IsMember(v, c) ==> AllWithin(c, p, depth + 1) {
      forall d: nat, w | Nested(v, d, w)
        ensures depth + d <= p.limits.maxDepth && WithinLimits(w, p)
      {
        if d > 0 {
          var c :| IsMember(v, c) && Nested(c, d - 1, w);
          assert AllWithin(c, p, depth + 1);
        }
      }
    }
  }

  /** A value fits when every value nested in it, however deep, is within the limits of
      its own kind and no deeper than the profile allows. */
  lemma {:induction false} FitsExactly(v: Value, p: Profile, depth: nat)
    ensures Fits(v, p, depth) <==> AllWithin(v, p, depth)
    decreases v
  {
    MembersWithin(v, p, depth);
    if v.Array? {
      forall c | c in v.items
        ensures IsMember(v, c) && (Fits(c, p, depth + 1) <==> AllWithin(c, p, depth + 1))
      {
        FitsExactly(c, p, depth + 1);
      }
    } else if v.Map? {
      forall e | e in v.entries
        ensures IsMember(v, e.value) && (Fits(e.value, p, depth + 1) <==> AllWithin(e.value, p, depth + 1))
      {
        FitsExactly(e.value, p, depth + 1);
      }
    }
  }

  // ---------------------------------------------------- varints, identifiers

  /** The value of a little-endian base-128 number. */
  function Weighted(b: Bytes): nat {
    if b == [] then 0 else b[0] % 128 + 128 * Weighted(b[1..])
  }

  /** Seven bits a byte, least significant first, the high bit on every byte but the
      last, and no zero byte at the end of a longer one. */
  lemma {:induction false} VarintForm(n: nat)
    ensures Weighted(Varint(n)) == n
    ensures forall i :: 0 <= i < |Varint(n)| - 1 ==> Varint(n)[i] >= 128
    ensures Varint(n)[|Varint(n)| - 1] < 128
    ensures |Varint(n)| > 1 ==> Varint(n)[|Varint(n)| - 1] != 0
    decreases n
  {
    if n >= 128 {
      VarintForm(n / 128);
      assert Varint(n)[1..] == Varint(n / 128);
      assert forall i :: 0 < i < |Varint(n)| ==> Varint(n)[i] == Varint(n / 128)[i - 1];
    }
  }

  /** Format 0, the hash function's multicodec number, the digest length, the digest. */
  lemma IdentifierLayout(id: ObjectId)
    ensures ToBytes(id) == [0, if id.algorithm.Sha256? then 0x12 else 0x1e, 32] + id.digest
  {
  }

  // ------------------------------------------------------------- loose frames

  /** Magic and version, the identifier, kind, schema and length, the payload, and a
      checksum over all of it. */
  ghost predicate IsFrameOf(w: Platform, s: Bytes, r: Record) {
    && |s| >= 76 && s[..8] == Ascii("RGITLOOS") && s[8] == 0 && s[9..44] == ToBytes(r.id)
    && ReadVarint(s[44..]).Some? && var (kind, rest) := ReadVarint(s[44..]).value;
    && ReadVarint(rest).Some? && var (schema, rest2) := ReadVarint(rest).value;
    && ReadVarint(rest2).Some? && var (len, rest3) := ReadVarint(rest2).value;
    && kind == r.kind && schema == r.schema && len == |r.payload|
    && |rest3| == len + 32 && rest3[..len] == r.payload
    && rest3[len..] == w.hash(Sha256, Ascii("RGIT-LOOSE-CHECKSUM") + [0] + s[..|s| - 32])
  }

  lemma DomainTexts()
    ensures MAGIC == Ascii("RGITLOOS") && CHECKSUM_DOMAIN == Ascii("RGIT-LOOSE-CHECKSUM") + [0]
  {
    var a := Ascii("RGIT-LOOSE-CHECKSUM") + [0];
    assert forall i :: 0 <= i < 20 ==> CHECKSUM_DOMAIN[i] == a[i];
    assert forall i :: 0 <= i < 8 ==> MAGIC[i] == Ascii("RGITLOOS")[i];
  }

  lemma FrameLayout(w: Platform, r: Record)
    requires |r.payload| < TWO_64
    ensures IsFrameOf(w, Frame(w, r), r)
  {
    var s, sum := Frame(w, r), w.hash(Sha256, CHECKSUM_DOMAIN + Body(r));
    var tail := Varint(r.kind) + (Varint(r.schema) + (Varint(|r.payload|) + (r.payload + sum)));
    DomainTexts();
    FrameParts(w, r);
    HeaderParts(r, r.payload + sum);
    VarintRoundTrip(r.kind, Varint(r.schema) + (Varint(|r.payload|) + (r.payload + sum)));
    VarintRoundTrip(r.schema, Varint(|r.payload|) + (r.payload + sum));
    VarintRoundTrip(|r.payload|, r.payload + sum);
  }

  lemma HeaderParts(r: Record, rest: Bytes)
    ensures var s := Header(r) + rest;
            && |s| >= 44 + |rest| && s[..8] == MAGIC && s[8] == 0 && s[9..44] == ToBytes(r.id)
            && s[44..] == Varint(r.kind) + (Varint(r.schema) + (Varint(|r.payload|) + rest))
  {
    IdentifierLayout(r.id);
    var id, lengths := ToBytes(r.id), Lengths(r);
    assert Header(r) + rest == MAGIC + [0] + id + (lengths + rest);
    JoinParts(Varint(r.kind), Varint(r.schema), Varint(|r.payload|), rest);
  }

  // ------------------------------------------------------- accepted objects

  lemma FitsBoth(w: Platform, v: Value, a: Limits, b: Limits)
    ensures Encodable(v, With(w, RestrictedBy(a, b))) <==> Encodable(v, With(w, a)) && Encodable(v, With(w, b))
  {
    var p, q, r := With(w, a), With(w, b), With(w, RestrictedBy(a, b));
    FitsExactly(v, p, 0);
    FitsExactly(v, q, 0);
    FitsExactly(v, r, 0);
    if AllWithin(v, p, 0) && AllWithin(v, q, 0) {
      forall d: nat, x | Nested(v, d, x)
        ensures d <= r.limits.maxDepth && WithinLimits(x, r)
      {
        assert WithinLimits(x, p) && WithinLimits(x, q);
      }
    }
    if AllWithin(v, r, 0) {
      forall d: nat, x | Nested(v, d, x)
        ensures d <= p.limits.maxDepth && WithinLimits(x, p) && d <= q.limits.maxDepth && WithinLimits(x, q)
      {
        assert WithinLimits(x, r);
      }
    }
  }

  ghost predicate Inside(w: Platform, v: Value, bytes: Bytes, limits: Limits) {
    AllWithin(v, With(w, limits), 0) && |bytes| <= limits.maxBytes
  }

  /** The object decoder accepts exactly the canonical encodings, within the caller's and
      the kind's limits, of maps that name a registered kind and a schema it supports in
      fields 0 and 1 and whose fields follow that schema. */
  lemma ObjectExactly(w: Platform, bytes: Bytes, limits: Limits, o: Object)
    ensures DecodeObject(w, bytes, limits) == Some(o) <==>
      && SaysItsKind(o) && 1 <= o.kind <= 31 && (o.schema == 0 || (o.kind == 10 && o.schema == 1))
      && IsCanonical(o.value) && Encode(o.value) == bytes
      && Inside(w, o.value, bytes, limits)
      && Inside(w, o.value, bytes, if o.kind <= 2 then Limits(0x100_0000, 0x40_0000, 0x1_0000, 64, 1_000_000)
                                   else Limits(0x10_0000, 0x4_0000, 0x1_0000, 64, 65_536))
      && w.validFields(o.kind, o.schema, o.value.entries)
  {
    FitsExactly(o.value, With(w, limits), 0);
    FitsExactly(o.value, With(w, KindLimits(o.kind)), 0);
    FitsBoth(w, o.value, limits, BULK);
    FitsBoth(w, o.value, limits, KindLimits(o.kind));
    FitsBoth(w, o.value, KindLimits(o.kind), BULK);
    assert RestrictedBy(KindLimits(o.kind), BULK) == KindLimits(o.kind);
    DecodeExactly(bytes, With(w, RestrictedBy(limits, BULK)), o.value);
  }
}
