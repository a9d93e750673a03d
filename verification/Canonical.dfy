/** Restricted deterministic CBOR: the value model, its encoding, and the decoder
    as a function on byte suffixes.  Lengths are 64-bit, as `usize` is. */
module Canonical {
  import opened Common

  type i64 = x: int | -0x8000_0000_0000_0000 <= x < 0x8000_0000_0000_0000

  datatype Value =
    | Unsigned(n: u64)
    | Signed(i: i64)
    | ByteString(bytes: Bytes)
    | Text(utf8: Bytes)
    | Array(items: seq<Value>)
    | Map(entries: seq<Entry>)
    | Bool(b: bool)
    | Null

  datatype Entry = Entry(key: u64, value: Value)

  datatype Limits = Limits(
    maxBytes: u64, maxByteString: u64, maxText: u64, maxDepth: u64, maxItems: u64)

  /** Limits together with the two text tests the Unicode tables decide. */
  datatype Profile = Profile(limits: Limits, isUtf8: Bytes -> bool, isNfc: Bytes -> bool)

  // ------------------------------------------------------------- heads

  function BigEndian(n: nat, width: nat): (b: Bytes)
    ensures |b| == width
  {
    if width == 0 then [] else BigEndian(n / 256, width - 1) + [n % 256]
  }

  function FromBigEndian(b: Bytes): (n: nat) {
    if b == [] then 0 else FromBigEndian(b[..|b| - 1]) * 256 + b[|b| - 1]
  }

  type major = x: int | 0 <= x < 8

  /** Shortest-form head; arguments are 64-bit. */
  function Head(m: major, n: nat): Bytes {
    if n < 24 then [m * 32 + n]
    else if n < 0x100 then [m * 32 + 24] + BigEndian(n, 1)
    else if n < 0x1_0000 then [m * 32 + 25] + BigEndian(n, 2)
    else if n < 0x1_0000_0000 then [m * 32 + 26] + BigEndian(n, 4)
    else [m * 32 + 27] + BigEndian(n, 8)
  }

  // ------------------------------------------------------ canonical form

  predicate SortedKeys(es: seq<Entry>) {
    forall i, j | 0 <= i < j < |es| :: es[i].key < es[j].key
  }

  predicate DistinctKeys(es: seq<Entry>) {
    forall i, j | 0 <= i < j < |es| :: es[i].key != es[j].key
  }

  /** What a decoder can return: keys in order, no non-negative `Signed`. */
  ghost predicate IsCanonical(v: Value) {
    match v
    case Signed(i) => i < 0
    case Array(items) => forall x :: x in items ==> IsCanonical(x)
    case Map(entries) => SortedKeys(entries) && forall e :: e in entries ==> IsCanonical(e.value)
    case _ => true
  }

  /** Emission in the order given; the bytes of a canonical value. */
  function Emit(v: Value): Bytes {
    match v
    case Unsigned(n) => Head(0, n)
    case Signed(i) => if i >= 0 then Head(0, i) else Head(1, -1 - i)
    case ByteString(bytes) => Head(2, |bytes|) + bytes
    case Text(utf8) => Head(3, |utf8|) + utf8
    case Array(items) => Head(4, |items|) + EmitItems(items)
    case Map(entries) => Head(5, |entries|) + EmitEntries(entries)
    case Bool(b) => [if b then 0xf5 else 0xf4]
    case Null => [0xf6]
  }

  function EmitItems(items: seq<Value>): Bytes {
    if items == [] then [] else Emit(items[0]) + EmitItems(items[1..])
  }

  function EmitEntry(e: Entry): Bytes {
    Head(0, e.key) + Emit(e.value)
  }

  function EmitEntries(es: seq<Entry>): Bytes {
    if es == [] then [] else EmitEntry(es[0]) + EmitEntries(es[1..])
  }

  function Insert(e: Entry, es: seq<Entry>): seq<Entry> {
    if es == [] || e.key <= es[0].key then [e] + es else [es[0]] + Insert(e, es[1..])
  }

  function SortEntries(es: seq<Entry>): seq<Entry> {
    if es == [] then [] else Insert(es[0], SortEntries(es[1..]))
  }

  /** The value a decoder reads back: entries sorted, non-negatives unsigned. */
  function Normal(v: Value): Value {
    match v
    case Signed(i) => if i >= 0 then Unsigned(i) else v
    case Array(items) => Array(NormalItems(items))
    case Map(entries) => Map(SortEntries(NormalEntries(entries)))
    case _ => v
  }

  function NormalItems(items: seq<Value>): (r: seq<Value>)
    ensures |r| == |items|
  {
    if items == [] then [] else [Normal(items[0])] + NormalItems(items[1..])
  }

  function NormalEntry(e: Entry): Entry {
    Entry(e.key, Normal(e.value))
  }

  function NormalEntries(es: seq<Entry>): (r: seq<Entry>)
    ensures |r| == |es|
  {
    if es == [] then [] else [NormalEntry(es[0])] + NormalEntries(es[1..])
  }

  function Encode(v: Value): Bytes {
    Emit(Normal(v))
  }

  /** The per-node limits; the total size is a separate condition. */
  ghost predicate Fits(v: Value, p: Profile, depth: nat) {
    && depth <= p.limits.maxDepth
    && match v
       case ByteString(bytes) => |bytes| <= p.limits.maxByteString
       case Text(utf8) => p.isUtf8(utf8) && p.isNfc(utf8) && |utf8| <= p.limits.maxText
       case Array(items) => |items| <= p.limits.maxItems && forall x :: x in items ==> Fits(x, p, depth + 1)
       case Map(entries) =>
         && |entries| <= p.limits.maxItems && DistinctKeys(entries)
         && forall e :: e in entries ==> Fits(e.value, p, depth + 1)
       case _ => true
  }

  ghost predicate Encodable(v: Value, p: Profile) {
    Fits(v, p, 0) && |Encode(v)| <= p.limits.maxBytes
  }

  // ------------------------------------------------------------ decoding

  function Argument(additional: int, s: Bytes): (r: Option<(u64, Bytes)>)
    ensures r.Some? ==> |r.value.1| <= |s|
  {
    if 0 <= additional < 24 then Some((additional, s))
    else if additional == 24 then Sized(s, 1, 24)
    else if additional == 25 then Sized(s, 2, 0x100)
    else if additional == 26 then Sized(s, 4, 0x1_0000)
    else if additional == 27 then Sized(s, 8, 0x1_0000_0000)
    else None
  }

  /** A big-endian argument of a fixed width, refused when a shorter form exists. */
  function Sized(s: Bytes, width: nat, least: nat): (r: Option<(u64, Bytes)>)
    requires width <= 8
    ensures r.Some? ==> |r.value.1| <= |s|
  {
    if |s| < width then None
    else
      BigEndianBound(s[..width]);
      Pow256Bound(width);
      var n := FromBigEndian(s[..width]);
      if n < least then None else Some((n, s[width..]))
  }

  function Pow256(k: nat): nat {
    if k == 0 then 1 else 256 * Pow256(k - 1)
  }

  lemma Pow256Bound(k: nat)
    requires k <= 8
    ensures Pow256(k) <= TWO_64
  {
    assert Pow256(8) == TWO_64 by {
      assert Pow256(4) == 0x1_0000_0000;
      assert Pow256(8) == 256 * 256 * 256 * 256 * Pow256(4);
    }
    Pow256Monotone(k, 8);
  }

  lemma {:induction false} Pow256Monotone(j: nat, k: nat)
    requires j <= k
    ensures Pow256(j) <= Pow256(k)
    decreases k
  {
    if j < k { Pow256Monotone(j, k - 1); }
  }

  lemma {:induction false} BigEndianBound(b: Bytes)
    ensures FromBigEndian(b) < Pow256(|b|)
  {
    if b != [] { BigEndianBound(b[..|b| - 1]); }
  }

  function Decode(s: Bytes, p: Profile, depth: nat): (r: Option<(Value, Bytes)>)
    ensures r.Some? ==> |r.value.1| < |s|
    decreases |s|, 1, 0
  {
    if depth > p.limits.maxDepth || s == [] then None
    else
      var m, additional := s[0] / 32, s[0] % 32;
      if m == 7 then
        if additional == 20 then Some((Bool(false), s[1..]))
        else if additional == 21 then Some((Bool(true), s[1..]))
        else if additional == 22 then Some((Null, s[1..]))
        else None
      else
        var arg := Argument(additional, s[1..]);
        if arg.None? then None else DecodeBody(m, arg.value.0, arg.value.1, p, depth)
  }

  /** What follows a head of major type `m` and argument `n`. */
  function DecodeBody(m: major, n: u64, s: Bytes, p: Profile, depth: nat): (r: Option<(Value, Bytes)>)
    ensures r.Some? ==> |r.value.1| <= |s|
    decreases |s|, 3, 0
  {
    match m
    case 0 => Some((Unsigned(n), s))
    case 1 => if n >= 0x8000_0000_0000_0000 then None else Some((Signed(-1 - n), s))
    case 2 =>
      if n > p.limits.maxByteString || n > |s| then None else Some((ByteString(s[..n]), s[n..]))
    case 3 =>
      if n > p.limits.maxText || n > |s| || !p.isUtf8(s[..n]) || !p.isNfc(s[..n]) then None
      else Some((Text(s[..n]), s[n..]))
    case 4 =>
      if n > p.limits.maxItems then None
      else
        var items := DecodeItems(s, n, p, depth + 1);
        if items.None? then None else Some((Array(items.value.0), items.value.1))
    case 5 =>
      if n > p.limits.maxItems then None
      else
        var entries := DecodeEntries(s, n, None, p, depth + 1);
        if entries.None? then None else Some((Map(entries.value.0), entries.value.1))
    case _ => None
  }

  function DecodeItems(s: Bytes, n: nat, p: Profile, depth: nat): (r: Option<(seq<Value>, Bytes)>)
    ensures r.Some? ==> |r.value.1| <= |s| && |r.value.0| == n
    decreases |s|, 2, n
  {
    if n == 0 then Some(([], s))
    else
      var first := Decode(s, p, depth);
      if first.None? then None
      else
        var others := DecodeItems(first.value.1, n - 1, p, depth);
        if others.None? then None else Some(([first.value.0] + others.value.0, others.value.1))
  }

  /** One entry: an unsigned key above the previous one, then a value. */
  function DecodeEntry(s: Bytes, previous: Option<u64>, p: Profile, depth: nat): (r: Option<(Entry, Bytes)>)
    ensures r.Some? ==> |r.value.1| < |s|
    decreases |s|, 1, 1
  {
    if s == [] || s[0] / 32 != 0 then None
    else
      var arg := Argument(s[0] % 32, s[1..]);
      if arg.None? || (previous.Some? && previous.value >= arg.value.0) then None
      else
        var value := Decode(arg.value.1, p, depth);
        if value.None? then None else Some((Entry(arg.value.0, value.value.0), value.value.1))
  }

  function DecodeEntries(s: Bytes, n: nat, previous: Option<u64>, p: Profile, depth: nat)
    : (r: Option<(seq<Entry>, Bytes)>)
    ensures r.Some? ==> |r.value.1| <= |s| && |r.value.0| == n
    decreases |s|, 2, n
  {
    if n == 0 then Some(([], s))
    else
      var first := DecodeEntry(s, previous, p, depth);
      if first.None? then None
      else
        var others := DecodeEntries(first.value.1, n - 1, Some(first.value.0.key), p, depth);
        if others.None? then None else Some(([first.value.0] + others.value.0, others.value.1))
  }

  /** The whole input, within the size limit, and nothing after it. */
  function DecodeCanonical(input: Bytes, p: Profile): Option<Value> {
    if |input| > p.limits.maxBytes then None
    else
      var r := Decode(input, p, 0);
      if r.None? || r.value.1 != [] then None else Some(r.value.0)
  }
}
