/** Round trip, uniqueness and limit laws of the canonical encoding. */
module CanonicalLaws {
  import opened Common
  import opened Canonical

  // ------------------------------------------------------------- heads

  lemma {:induction false} BigEndianRoundTrip(n: nat, width: nat)
    requires n < Pow256(width)
    ensures FromBigEndian(BigEndian(n, width)) == n
  {
    if width > 0 {
      BigEndianRoundTrip(n / 256, width - 1);
      var high := BigEndian(n / 256, width - 1);
      assert (high + [n % 256])[..width - 1] == high;
    }
  }

  lemma {:induction false} BigEndianUnique(b: Bytes)
    ensures BigEndian(FromBigEndian(b), |b|) == b
  {
    if b != [] {
      var high, last := b[..|b| - 1], b[|b| - 1];
      var n := FromBigEndian(b);
      assert n / 256 == FromBigEndian(high) && n % 256 == last;
      BigEndianUnique(high);
    }
  }

  lemma SizedRoundTrip(first: byte, n: u64, width: nat, least: nat, rest: Bytes)
    requires width <= 8 && least <= n < Pow256(width)
    ensures var s := [first] + BigEndian(n, width) + rest;
            s[0] == first && Sized(s[1..], width, least) == Some((n, rest))
  {
    var s := [first] + BigEndian(n, width) + rest;
    BigEndianRoundTrip(n, width);
    FirstThenRest(first, BigEndian(n, width), rest);
  }

  lemma FirstThenRest(first: byte, middle: Bytes, rest: Bytes)
    ensures var s := [first] + middle + rest;
            s[0] == first && s[1..][..|middle|] == middle && s[1..][|middle|..] == rest
  {
    assert ([first] + middle + rest)[1..] == middle + rest;
  }

  lemma SizedSound(s: Bytes, width: nat, least: nat)
    requires width <= 8 && s != [] && Sized(s[1..], width, least).Some?
    ensures var (n, rest) := Sized(s[1..], width, least).value;
            least <= n < Pow256(width) && s == [s[0]] + BigEndian(n, width) + rest
  {
    var (n, rest) := Sized(s[1..], width, least).value;
    BigEndianUnique(s[1..][..width]);
    BigEndianBound(s[1..][..width]);
    assert s == [s[0]] + s[1..][..width] + s[1..][width..];
  }

  /** The additional information and the width a shortest head uses. */
  function Info(n: u64): (int, nat, nat) {
    if n < 0x100 then (24, 1, 24)
    else if n < 0x1_0000 then (25, 2, 0x100)
    else if n < 0x1_0000_0000 then (26, 4, 0x1_0000)
    else (27, 8, 0x1_0000_0000)
  }

  /** A head is read back with its major type and its argument. */
  lemma HeadParses(m: major, n: u64, rest: Bytes)
    ensures var s := Head(m, n) + rest;
            s[0] / 32 == m && Argument(s[0] % 32, s[1..]) == Some((n, rest))
  {
    if n < 24 {
      assert ([m * 32 + n] + rest)[1..] == rest;
    } else {
      var (info, width, least) := Info(n);
      SizedRoundTrip(m * 32 + info, n, width, least, rest);
    }
  }

  /** Any head that parses is the shortest head of its argument. */
  lemma HeadSound(s: Bytes)
    requires s != [] && Argument(s[0] % 32, s[1..]).Some?
    ensures var (n, rest) := Argument(s[0] % 32, s[1..]).value;
            s == Head(s[0] / 32, n) + rest
  {
    var (n, rest) := Argument(s[0] % 32, s[1..]).value;
    var m, a := s[0] / 32, s[0] % 32;
    assert s[0] == m * 32 + a;
    if a < 24 {
      assert s == [s[0]] + s[1..];
    } else {
      WideHeadSound(s, a);
    }
  }

  lemma WideHeadSound(s: Bytes, a: int)
    requires s != [] && 24 <= a && a == s[0] % 32 && Argument(a, s[1..]).Some?
    ensures var (n, rest) := Argument(a, s[1..]).value;
            s == Head(s[0] / 32, n) + rest
  {
    var (n, rest) := Argument(a, s[1..]).value;
    var width := if a == 24 then 1 else if a == 25 then 2 else if a == 26 then 4 else 8;
    var least := if a == 24 then 24 else if a == 25 then 0x100 else if a == 26 then 0x1_0000 else 0x1_0000_0000;
    SizedSound(s, width, least);
    assert Info(n) == (a, width, least);
  }

  // ------------------------------------------------ reading an encoding

  lemma DecodeHead(m: major, n: u64, rest: Bytes, p: Profile, depth: nat)
    requires m < 7 && depth <= p.limits.maxDepth
    ensures Decode(Head(m, n) + rest, p, depth) == DecodeBody(m, n, rest, p, depth)
  {
    HeadParses(m, n, rest);
  }

  lemma Reassociate(a: Bytes, b: Bytes, c: Bytes)
    ensures a + b + c == a + (b + c)
    ensures (b + c)[..|b|] == b && (b + c)[|b|..] == c
  {
  }

  lemma {:induction false} DecodeEmit(v: Value, p: Profile, depth: nat, rest: Bytes)
    requires IsCanonical(v) && Fits(v, p, depth)
    ensures Decode(Emit(v) + rest, p, depth) == Some((v, rest))
    decreases v, 1
  {
    match v
    case Unsigned(n) => DecodeHead(0, n, rest, p, depth);
    case Signed(i) => DecodeHead(1, -1 - i, rest, p, depth);
    case ByteString(b) =>
      DecodeHead(2, |b|, b + rest, p, depth);
      Reassociate(Head(2, |b|), b, rest);
    case Text(t) =>
      DecodeHead(3, |t|, t + rest, p, depth);
      Reassociate(Head(3, |t|), t, rest);
    case Array(items) =>
      DecodeHead(4, |items|, EmitItems(items) + rest, p, depth);
      Reassociate(Head(4, |items|), EmitItems(items), rest);
      DecodeEmitItems(items, p, depth + 1, rest);
    case Map(es) =>
      DecodeHead(5, |es|, EmitEntries(es) + rest, p, depth);
      Reassociate(Head(5, |es|), EmitEntries(es), rest);
      DecodeEmitEntries(es, None, p, depth + 1, rest);
    case Bool(b) => assert (Emit(v) + rest)[1..] == rest;
    case Null => assert (Emit(v) + rest)[1..] == rest;
  }

  lemma {:induction false} DecodeEmitItems(items: seq<Value>, p: Profile, depth: nat, rest: Bytes)
    requires forall x :: x in items ==> IsCanonical(x) && Fits(x, p, depth)
    ensures DecodeItems(EmitItems(items) + rest, |items|, p, depth) == Some((items, rest))
    decreases items, 0
  {
    if items == [] {
      assert EmitItems(items) + rest == rest;
    } else {
      var others := EmitItems(items[1..]) + rest;
      Reassociate(Emit(items[0]), EmitItems(items[1..]), rest);
      DecodeEmit(items[0], p, depth, others);
      DecodeEmitItems(items[1..], p, depth, rest);
      assert items == [items[0]] + items[1..];
    }
  }

  lemma {:induction false} DecodeEmitEntry(e: Entry, previous: Option<u64>, p: Profile, depth: nat, rest: Bytes)
    requires IsCanonical(e.value) && Fits(e.value, p, depth) && (previous.Some? ==> previous.value < e.key)
    ensures DecodeEntry(EmitEntry(e) + rest, previous, p, depth) == Some((e, rest))
    decreases e
  {
    Reassociate(Head(0, e.key), Emit(e.value), rest);
    HeadParses(0, e.key, Emit(e.value) + rest);
    DecodeEmit(e.value, p, depth, rest);
  }

  ghost predicate After(previous: Option<u64>, es: seq<Entry>) {
    previous.Some? && es != [] ==> previous.value < es[0].key
  }

  lemma {:induction false} DecodeEmitEntries(es: seq<Entry>, previous: Option<u64>, p: Profile, depth: nat, rest: Bytes)
    requires SortedKeys(es) && After(previous, es)
    requires forall e :: e in es ==> IsCanonical(e.value) && Fits(e.value, p, depth)
    ensures DecodeEntries(EmitEntries(es) + rest, |es|, previous, p, depth) == Some((es, rest))
    decreases es, 0
  {
    if es == [] {
      assert EmitEntries(es) + rest == rest;
    } else {
      var others := EmitEntries(es[1..]) + rest;
      Reassociate(EmitEntry(es[0]), EmitEntries(es[1..]), rest);
      DecodeEmitEntry(es[0], previous, p, depth, others);
      DecodeEmitEntries(es[1..], Some(es[0].key), p, depth, rest);
      assert es == [es[0]] + es[1..];
    }
  }

  // ------------------------------------------------- what decoding accepts

  lemma {:induction false} DecodeSound(s: Bytes, p: Profile, depth: nat)
    requires Decode(s, p, depth).Some?
    ensures var (v, rest) := Decode(s, p, depth).value;
            IsCanonical(v) && Fits(v, p, depth) && s == Emit(v) + rest
    decreases |s|, 1, 0
  {
    var m := s[0] / 32;
    if m == 7 {
      assert s == [s[0]] + s[1..];
    } else {
      HeadSound(s);
      var (n, r) := Argument(s[0] % 32, s[1..]).value;
      DecodeBodySound(m, n, r, p, depth);
    }
  }

  lemma {:induction false} DecodeBodySound(m: major, n: u64, s: Bytes, p: Profile, depth: nat)
    requires DecodeBody(m, n, s, p, depth).Some? && depth <= p.limits.maxDepth
    ensures var (v, rest) := DecodeBody(m, n, s, p, depth).value;
            IsCanonical(v) && Fits(v, p, depth) && Head(m, n) + s == Emit(v) + rest
    decreases |s|, 3, 0
  {
    var (v, rest) := DecodeBody(m, n, s, p, depth).value;
    if m == 2 || m == 3 {
      assert s == s[..n] + s[n..];
      Reassociate(Head(m, n), s[..n], s[n..]);
    } else if m == 4 {
      DecodeItemsSound(s, n, p, depth + 1);
      Reassociate(Head(m, n), EmitItems(v.items), rest);
    } else if m == 5 {
      DecodeEntriesSound(s, n, None, p, depth + 1);
      Reassociate(Head(m, n), EmitEntries(v.entries), rest);
    }
  }

  lemma {:induction false} DecodeItemsSound(s: Bytes, n: nat, p: Profile, depth: nat)
    requires DecodeItems(s, n, p, depth).Some?
    ensures var (items, rest) := DecodeItems(s, n, p, depth).value;
            && s == EmitItems(items) + rest
            && forall x :: x in items ==> IsCanonical(x) && Fits(x, p, depth)
    decreases |s|, 2, n
  {
    if n == 0 {
      assert s == [] + s;
    } else {
      var (v, r) := Decode(s, p, depth).value;
      var (others, rest) := DecodeItems(r, n - 1, p, depth).value;
      DecodeSound(s, p, depth);
      DecodeItemsSound(r, n - 1, p, depth);
      assert ([v] + others)[1..] == others;
      Reassociate(Emit(v), EmitItems(others), rest);
    }
  }

  lemma ConsSorted(e: Entry, es: seq<Entry>)
    requires SortedKeys(es) && After(Some(e.key), es)
    ensures SortedKeys([e] + es)
  {
    var all := [e] + es;
    assert forall i :: 0 < i < |all| ==> all[i] == es[i - 1];
  }

  lemma {:induction false} DecodeEntrySound(s: Bytes, previous: Option<u64>, p: Profile, depth: nat)
    requires DecodeEntry(s, previous, p, depth).Some?
    ensures var (e, rest) := DecodeEntry(s, previous, p, depth).value;
            && s == EmitEntry(e) + rest && (previous.Some? ==> previous.value < e.key)
            && IsCanonical(e.value) && Fits(e.value, p, depth)
    decreases |s|, 1, 1
  {
    HeadSound(s);
    var (key, r) := Argument(s[0] % 32, s[1..]).value;
    DecodeSound(r, p, depth);
    var (v, rest) := Decode(r, p, depth).value;
    Reassociate(Head(0, key), Emit(v), rest);
  }

  lemma {:induction false} DecodeEntriesSound(s: Bytes, n: nat, previous: Option<u64>, p: Profile, depth: nat)
    requires DecodeEntries(s, n, previous, p, depth).Some?
    ensures var (es, rest) := DecodeEntries(s, n, previous, p, depth).value;
            && s == EmitEntries(es) + rest && SortedKeys(es) && After(previous, es)
            && forall e :: e in es ==> IsCanonical(e.value) && Fits(e.value, p, depth)
    decreases |s|, 2, n
  {
    if n == 0 {
      assert s == [] + s;
    } else {
      var (e, r) := DecodeEntry(s, previous, p, depth).value;
      var (others, rest) := DecodeEntries(r, n - 1, Some(e.key), p, depth).value;
      DecodeEntrySound(s, previous, p, depth);
      DecodeEntriesSound(r, n - 1, Some(e.key), p, depth);
      ConsSorted(e, others);
      assert ([e] + others)[1..] == others;
      Reassociate(EmitEntry(e), EmitEntries(others), rest);
    }
  }

  // ------------------------------------------------------ normalization

  ghost predicate SameMembers(a: seq<Entry>, b: seq<Entry>) {
    |a| == |b| && forall x :: x in a <==> x in b
  }

  lemma {:induction false} InsertKeeps(e: Entry, es: seq<Entry>)
    requires SortedKeys(es) && forall x :: x in es ==> x.key != e.key
    ensures SortedKeys(Insert(e, es)) && SameMembers(Insert(e, es), [e] + es)
  {
    if es != [] && e.key > es[0].key {
      InsertKeeps(e, es[1..]);
      var tail := Insert(e, es[1..]);
      assert es == [es[0]] + es[1..];
      ConsSorted(es[0], tail);
    } else {
      ConsSorted(e, es);
    }
  }

  lemma {:induction false} SortKeeps(es: seq<Entry>)
    requires DistinctKeys(es)
    ensures SortedKeys(SortEntries(es)) && SameMembers(SortEntries(es), es)
  {
    if es != [] {
      SortKeeps(es[1..]);
      forall x | x in SortEntries(es[1..])
        ensures x.key != es[0].key
      {
        assert x in es[1..];
      }
      InsertKeeps(es[0], SortEntries(es[1..]));
      assert es == [es[0]] + es[1..];
    }
  }

  lemma {:induction false} SortedStays(es: seq<Entry>)
    requires SortedKeys(es)
    ensures SortEntries(es) == es
  {
    if es != [] {
      SortedStays(es[1..]);
      assert es == [es[0]] + es[1..];
    }
  }

  lemma {:induction false} NormalItemsAt(items: seq<Value>, i: nat)
    requires i < |items|
    ensures NormalItems(items)[i] == Normal(items[i])
  {
    if i > 0 { NormalItemsAt(items[1..], i - 1); }
  }

  lemma {:induction false} NormalEntriesAt(es: seq<Entry>, i: nat)
    requires i < |es|
    ensures NormalEntries(es)[i] == NormalEntry(es[i])
  {
    if i > 0 { NormalEntriesAt(es[1..], i - 1); }
  }

  lemma NormalEntriesDistinct(es: seq<Entry>)
    requires DistinctKeys(es)
    ensures DistinctKeys(NormalEntries(es))
    ensures forall i :: 0 <= i < |es| ==> NormalEntries(es)[i] == NormalEntry(es[i])
  {
    forall i | 0 <= i < |es| { NormalEntriesAt(es, i); }
  }

  /** The normal form is canonical and within the same limits. */
  lemma {:induction false} NormalIsCanonical(v: Value, p: Profile, depth: nat)
    requires Fits(v, p, depth)
    ensures IsCanonical(Normal(v)) && Fits(Normal(v), p, depth)
    decreases v
  {
    match v
    case Array(items) =>
      forall x | x in NormalItems(items)
        ensures IsCanonical(x) && Fits(x, p, depth + 1)
      {
        var i :| 0 <= i < |items| && NormalItems(items)[i] == x;
        NormalItemsAt(items, i);
        assert items[i] in items;
        NormalIsCanonical(items[i], p, depth + 1);
      }
    case Map(es) =>
      NormalEntriesDistinct(es);
      SortKeeps(NormalEntries(es));
      forall e | e in NormalEntries(es)
        ensures IsCanonical(e.value) && Fits(e.value, p, depth + 1)
      {
        var i :| 0 <= i < |es| && NormalEntries(es)[i] == e;
        NormalIsCanonical(es[i].value, p, depth + 1);
      }
    case _ =>
  }

  /** A canonical value is its own normal form. */
  lemma {:induction false} CanonicalIsNormal(v: Value)
    requires IsCanonical(v)
    ensures Normal(v) == v
    decreases v
  {
    match v
    case Array(items) =>
      forall i | 0 <= i < |items|
        ensures NormalItems(items)[i] == items[i]
      {
        NormalItemsAt(items, i);
        CanonicalIsNormal(items[i]);
      }
      assert NormalItems(items) == items;
    case Map(es) =>
      forall i | 0 <= i < |es|
        ensures NormalEntries(es)[i] == es[i]
      {
        NormalEntriesAt(es, i);
        CanonicalIsNormal(es[i].value);
      }
      assert NormalEntries(es) == es;
      SortedStays(es);
    case _ =>
  }

  // ------------------------------------------------------- main theorems

  /** Whatever encodes within the limits is read back in normal form. */
  lemma RoundTrip(v: Value, p: Profile)
    requires Encodable(v, p)
    ensures DecodeCanonical(Encode(v), p) == Some(Normal(v))
  {
    NormalIsCanonical(v, p, 0);
    DecodeEmit(Normal(v), p, 0, []);
    assert Encode(v) + [] == Encode(v);
  }

  /** The decoder accepts exactly the encodings of canonical values within the
      limits, and re-encoding gives the input back under the same limits. */
  lemma DecodeExactly(input: Bytes, p: Profile, v: Value)
    ensures DecodeCanonical(input, p) == Some(v)
            <==> IsCanonical(v) && Encodable(v, p) && Encode(v) == input
  {
    if DecodeCanonical(input, p) == Some(v) {
      DecodeSound(input, p, 0);
      assert input == Emit(v) + [] == Emit(v);
      CanonicalIsNormal(v);
    }
    if IsCanonical(v) && Encodable(v, p) && Encode(v) == input {
      RoundTrip(v, p);
      CanonicalIsNormal(v);
    }
  }

  /** One byte string, one value. */
  lemma EncodingUnique(v: Value, w: Value, p: Profile)
    requires Encodable(v, p) && Encodable(w, p) && Encode(v) == Encode(w)
    ensures Normal(v) == Normal(w)
  {
    RoundTrip(v, p);
    RoundTrip(w, p);
  }

  predicate Within(a: Limits, b: Limits) {
    && a.maxBytes <= b.maxBytes && a.maxByteString <= b.maxByteString && a.maxText <= b.maxText
    && a.maxDepth <= b.maxDepth && a.maxItems <= b.maxItems
  }

  /** Looser limits accept no less. */
  lemma {:induction false} FitsMonotone(v: Value, p: Profile, q: Profile, depth: nat)
    requires Fits(v, p, depth) && Within(p.limits, q.limits) && p.isUtf8 == q.isUtf8 && p.isNfc == q.isNfc
    ensures Fits(v, q, depth)
    decreases v
  {
    match v
    case Array(items) =>
      forall x | x in items { FitsMonotone(x, p, q, depth + 1); }
    case Map(es) =>
      forall e | e in es
        ensures Fits(e.value, q, depth + 1)
      {
        FitsMonotone(e.value, p, q, depth + 1);
      }
    case _ =>
  }

  // ------------------------------------------------------------ key order

  predicate LexLess(a: Bytes, b: Bytes) {
    b != [] && (a == [] || a[0] < b[0] || (a[0] == b[0] && LexLess(a[1..], b[1..])))
  }

  lemma {:induction false} BigEndianOrder(a: nat, b: nat, width: nat)
    requires a < Pow256(width) && b < Pow256(width)
    ensures LexLess(BigEndian(a, width), BigEndian(b, width)) <==> a < b
  {
    if width > 0 {
      BigEndianOrder(a / 256, b / 256, width - 1);
      LexSnoc(BigEndian(a / 256, width - 1), BigEndian(b / 256, width - 1), a % 256, b % 256);
      if a / 256 == b / 256 { assert a == a / 256 * 256 + a % 256 && b == b / 256 * 256 + b % 256; }
      else {
        BigEndianRoundTrip(a / 256, width - 1);
        BigEndianRoundTrip(b / 256, width - 1);
      }
    }
  }

  lemma {:induction false} LexSnoc(s: Bytes, t: Bytes, x: byte, y: byte)
    requires |s| == |t|
    ensures LexLess(s + [x], t + [y]) <==> LexLess(s, t) || (s == t && x < y)
  {
    if s != [] {
      LexSnoc(s[1..], t[1..], x, y);
      assert (s + [x])[1..] == s[1..] + [x] && (t + [y])[1..] == t[1..] + [y];
      assert s == t <==> s[0] == t[0] && s[1..] == t[1..] by {
        assert s == [s[0]] + s[1..] && t == [t[0]] + t[1..];
      }
    }
  }

  function Tier(n: u64): nat {
    if n < 24 then 0 else if n < 0x100 then 1 else if n < 0x1_0000 then 2 else if n < 0x1_0000_0000 then 4 else 8
  }

  /** Sorting map keys as numbers is sorting their encodings bytewise. */
  lemma KeyOrder(a: u64, b: u64)
    ensures LexLess(Head(0, a), Head(0, b)) <==> a < b
  {
    var w := Tier(a);
    if w == Tier(b) {
      if w >= 1 {
        BigEndianOrder(a, b, w);
      }
    }
  }
}
