/** The encoder that appends to a buffer under a size limit, tied to the functions of
    `Canonical`. */
module Codec {
  import opened Common
  import opened Canonical
  import opened CanonicalLaws

  // ------------------------------------------------------------ encoding

  method Extend(buf: Bytes, more: Bytes, p: Profile) returns (r: Option<Bytes>)
    ensures r == if |buf| + |more| <= p.limits.maxBytes then Some(buf + more) else None
  {
    if |buf| + |more| > p.limits.maxBytes { return None; }
    return Some(buf + more);
  }

  method PushHead(buf: Bytes, m: major, n: u64, p: Profile) returns (r: Option<Bytes>)
    ensures r == if |buf| + |Head(m, n)| <= p.limits.maxBytes then Some(buf + Head(m, n)) else None
  {
    if n < 24 {
      r := Extend(buf, [m * 32 + n], p);
    } else {
      var (info, width, _) := Info(n);
      r := Extend(buf, [m * 32 + info], p);
      if r.None? { return; }
      assert buf + [m * 32 + info] + BigEndian(n, width) == buf + ([m * 32 + info] + BigEndian(n, width));
      r := Extend(r.value, BigEndian(n, width), p);
    }
  }

  lemma {:induction false} EmitItemsConcat(a: seq<Value>, b: seq<Value>)
    ensures EmitItems(a + b) == EmitItems(a) + EmitItems(b)
  {
    if a == [] {
      assert a + b == b;
    } else {
      assert (a + b)[1..] == a[1..] + b;
      EmitItemsConcat(a[1..], b);
    }
  }

  lemma {:induction false} EmitEntriesConcat(a: seq<Entry>, b: seq<Entry>)
    ensures EmitEntries(a + b) == EmitEntries(a) + EmitEntries(b)
  {
    if a == [] {
      assert a + b == b;
    } else {
      assert (a + b)[1..] == a[1..] + b;
      EmitEntriesConcat(a[1..], b);
    }
  }

  /** The next element extends what has been emitted, and the whole is no shorter. */
  lemma EmitNextItem(items: seq<Value>, i: nat)
    requires i < |items|
    ensures EmitItems(items[..i + 1]) == EmitItems(items[..i]) + Emit(items[i])
    ensures |EmitItems(items[..i + 1])| <= |EmitItems(items)|
  {
    assert items[..i + 1] == items[..i] + [items[i]];
    EmitItemsConcat(items[..i], [items[i]]);
    assert EmitItems([items[i]]) == Emit(items[i]);
    assert items == items[..i + 1] + items[i + 1..];
    EmitItemsConcat(items[..i + 1], items[i + 1..]);
  }

  lemma EmitNextEntry(es: seq<Entry>, i: nat)
    requires i < |es|
    ensures EmitEntries(es[..i + 1]) == EmitEntries(es[..i]) + EmitEntry(es[i])
    ensures |EmitEntries(es[..i + 1])| <= |EmitEntries(es)|
  {
    assert es[..i + 1] == es[..i] + [es[i]];
    EmitEntriesConcat(es[..i], [es[i]]);
    assert EmitEntries([es[i]]) == EmitEntry(es[i]);
    assert es == es[..i + 1] + es[i + 1..];
    EmitEntriesConcat(es[..i + 1], es[i + 1..]);
  }

  lemma {:induction false} InsertNormal(e: Entry, es: seq<Entry>)
    ensures Insert(NormalEntry(e), NormalEntries(es)) == NormalEntries(Insert(e, es))
  {
    if es != [] && e.key > es[0].key {
      InsertNormal(e, es[1..]);
    } else {
      assert ([e] + es)[1..] == es;
    }
  }

  /** Sorting before or after normalizing the values is the same. */
  lemma {:induction false} SortNormal(es: seq<Entry>)
    ensures SortEntries(NormalEntries(es)) == NormalEntries(SortEntries(es))
  {
    if es != [] {
      SortNormal(es[1..]);
      InsertNormal(es[0], SortEntries(es[1..]));
    }
  }

  lemma {:induction false} InsertMembers(e: Entry, es: seq<Entry>)
    ensures multiset(Insert(e, es)) == multiset(es) + multiset{e}
  {
    if es != [] && e.key > es[0].key {
      InsertMembers(e, es[1..]);
      assert es == [es[0]] + es[1..];
    }
  }

  lemma {:induction false} SortMembers(es: seq<Entry>)
    ensures multiset(SortEntries(es)) == multiset(es)
  {
    if es != [] {
      SortMembers(es[1..]);
      InsertMembers(es[0], SortEntries(es[1..]));
      assert es == [es[0]] + es[1..];
    }
  }

  /** The encoder.  It fails exactly when a limit, a repeated key or a text test
      says so, and otherwise appends the canonical bytes. */
  method EncodeInto(v: Value, p: Profile, depth: nat, buf: Bytes) returns (r: Option<Bytes>)
    ensures r == if Fits(v, p, depth) && |buf| + |Encode(v)| <= p.limits.maxBytes then Some(buf + Encode(v)) else None
    decreases v, 1, 0
  {
    if depth > p.limits.maxDepth { return None; }
    match v
    case Unsigned(n) => r := PushHead(buf, 0, n, p);
    case Signed(i) =>
      if i >= 0 { r := PushHead(buf, 0, i, p); } else { r := PushHead(buf, 1, -1 - i, p); }
    case ByteString(b) =>
      if |b| > p.limits.maxByteString { return None; }
      r := PushHead(buf, 2, |b|, p);
      if r.None? { return; }
      assert buf + Head(2, |b|) + b == buf + Encode(v);
      r := Extend(r.value, b, p);
    case Text(t) =>
      if !p.isUtf8(t) || !p.isNfc(t) || |t| > p.limits.maxText { return None; }
      r := PushHead(buf, 3, |t|, p);
      if r.None? { return; }
      assert buf + Head(3, |t|) + t == buf + Encode(v);
      r := Extend(r.value, t, p);
    case Array(items) => r := EncodeArray(v, p, depth, buf);
    case Map(es) => r := EncodeMap(v, p, depth, buf);
    case Bool(b) => r := Extend(buf, [if b then 0xf5 else 0xf4], p);
    case Null => r := Extend(buf, [0xf6], p);
  }

  method EncodeArray(v: Value, p: Profile, depth: nat, buf: Bytes) returns (r: Option<Bytes>)
    requires v.Array? && depth <= p.limits.maxDepth
    ensures r == if Fits(v, p, depth) && |buf| + |Encode(v)| <= p.limits.maxBytes then Some(buf + Encode(v)) else None
    decreases v, 0, 1
  {
    if |v.items| > p.limits.maxItems { return None; }
    r := PushHead(buf, 4, |v.items|, p);
    if r.None? { return; }
    assert buf + Head(4, |v.items|) + EmitItems(NormalItems(v.items)) == buf + Encode(v);
    r := EncodeItems(v, p, depth + 1, r.value);
  }

  /** The item loop of an array. */
  method EncodeItems(v: Value, p: Profile, depth: nat, buf: Bytes) returns (r: Option<Bytes>)
    requires v.Array? && |buf| <= p.limits.maxBytes
    ensures var bytes := EmitItems(NormalItems(v.items));
            r == if (forall x :: x in v.items ==> Fits(x, p, depth)) && |buf| + |bytes| <= p.limits.maxBytes
                 then Some(buf + bytes) else None
    decreases v, 0, 0
  {
    var items := v.items;
    var out := buf;
    NothingEmitted(buf, items);
    for i := 0 to |items|
      invariant out == ItemsSoFar(buf, items, i) && |out| <= p.limits.maxBytes
      invariant forall j :: 0 <= j < i ==> Fits(items[j], p, depth)
    {
      NextItem(buf, items, i);
      assert items[i] in items;
      var next := EncodeInto(items[i], p, depth, out);
      if next.None? { return None; }
      out := next.value;
    }
    return Some(out);
  }

  /** The buffer once the first `i` items are in it. */
  ghost function ItemsSoFar(buf: Bytes, items: seq<Value>, i: int): Bytes
    requires 0 <= i <= |items|
  {
    buf + EmitItems(NormalItems(items)[..i])
  }

  lemma NothingEmitted(buf: Bytes, items: seq<Value>)
    ensures ItemsSoFar(buf, items, 0) == buf && ItemsSoFar(buf, items, |items|) == buf + EmitItems(NormalItems(items))
  {
    var normal := NormalItems(items);
    assert normal[..0] == [] && normal[..|items|] == normal;
  }

  lemma NextItem(buf: Bytes, items: seq<Value>, i: nat)
    requires i < |items|
    ensures ItemsSoFar(buf, items, i + 1) == ItemsSoFar(buf, items, i) + Encode(items[i])
    ensures |ItemsSoFar(buf, items, i)| + |Encode(items[i])| <= |buf| + |EmitItems(NormalItems(items))|
  {
    var normal := NormalItems(items);
    NormalItemsAt(items, i);
    EmitNextItem(normal, i);
    JoinThree(buf, EmitItems(normal[..i]), Emit(normal[i]));
  }

  lemma JoinThree(a: Bytes, b: Bytes, c: Bytes)
    ensures a + (b + c) == (a + b) + c
  {
  }

  predicate OrderedKeys(es: seq<Entry>) {
    forall i, j | 0 <= i < j < |es| :: es[i].key <= es[j].key
  }

  /** Whether neighbours share a key, in an already sorted sequence. */
  method HasRepeatedKey(es: seq<Entry>) returns (repeated: bool)
    requires OrderedKeys(es)
    ensures repeated <==> !DistinctKeys(es)
  {
    if es == [] { return false; }
    for i := 1 to |es|
      invariant forall a, b :: 0 <= a < b < i ==> es[a].key < es[b].key
    {
      if es[i - 1].key == es[i].key { return true; }
    }
    return false;
  }

  lemma {:induction false} InsertOrdered(e: Entry, es: seq<Entry>)
    requires OrderedKeys(es)
    ensures OrderedKeys(Insert(e, es))
  {
    if es != [] && e.key > es[0].key {
      InsertOrdered(e, es[1..]);
      InsertMembers(e, es[1..]);
      var tail := Insert(e, es[1..]);
      forall i | 0 <= i < |tail|
        ensures es[0].key <= tail[i].key
      {
        assert tail[i] in multiset(tail);
        assert tail[i] == e || tail[i] in es[1..];
      }
    }
  }

  lemma {:induction false} SortOrdered(es: seq<Entry>)
    ensures OrderedKeys(SortEntries(es))
  {
    if es != [] {
      SortOrdered(es[1..]);
      InsertOrdered(es[0], SortEntries(es[1..]));
    }
  }

  lemma ConsDistinct(e: Entry, es: seq<Entry>)
    ensures DistinctKeys([e] + es) <==> DistinctKeys(es) && forall x :: x in es ==> x.key != e.key
  {
    var all := [e] + es;
    assert forall i :: 0 < i < |all| ==> all[i] == es[i - 1];
    if DistinctKeys(all) {
      forall i, j | 0 <= i < j < |es|
        ensures es[i].key != es[j].key
      {
        assert all[i + 1] == es[i] && all[j + 1] == es[j];
      }
      forall x | x in es
        ensures x.key != e.key
      {
        var k :| 0 <= k < |es| && es[k] == x;
        assert all[k + 1] == x && all[0] == e;
      }
    }
  }

  lemma {:induction false} InsertDistinct(e: Entry, es: seq<Entry>)
    ensures DistinctKeys(Insert(e, es)) <==> DistinctKeys([e] + es)
  {
    ConsDistinct(e, es);
    if es != [] && e.key > es[0].key {
      var rest := es[1..];
      assert es == [es[0]] + rest;
      InsertDistinct(e, rest);
      InsertMembers(e, rest);
      forall x
        ensures x in Insert(e, rest) <==> x in rest || x == e
      {
        assert x in Insert(e, rest) <==> x in multiset(Insert(e, rest));
      }
      ConsDistinct(es[0], Insert(e, rest));
      ConsDistinct(es[0], rest);
      ConsDistinct(e, rest);
    }
  }

  lemma {:induction false} SortDistinct(es: seq<Entry>)
    ensures DistinctKeys(SortEntries(es)) <==> DistinctKeys(es)
    ensures forall x :: x in SortEntries(es) <==> x in es
    ensures |SortEntries(es)| == |es|
  {
    SortMembers(es);
    forall x
      ensures x in SortEntries(es) <==> x in es
    {
      assert x in SortEntries(es) <==> x in multiset(SortEntries(es));
    }
    assert |multiset(SortEntries(es))| == |es|;
    if es != [] {
      var rest := es[1..];
      assert es == [es[0]] + rest;
      SortDistinct(rest);
      InsertDistinct(es[0], SortEntries(rest));
      ConsDistinct(es[0], SortEntries(rest));
      ConsDistinct(es[0], rest);
    }
  }

  method EncodeMap(v: Value, p: Profile, depth: nat, buf: Bytes) returns (r: Option<Bytes>)
    requires v.Map? && depth <= p.limits.maxDepth
    ensures r == if Fits(v, p, depth) && |buf| + |Encode(v)| <= p.limits.maxBytes then Some(buf + Encode(v)) else None
    decreases v, 0, 1
  {
    var es := v.entries;
    SortedSame(es);
    if |es| > p.limits.maxItems { return None; }
    r := PushHead(buf, 5, |es|, p);
    MapBytes(buf, es);
    if r.None? { return; }
    var ordered := SortEntries(es);
    var repeated := HasRepeatedKey(ordered);
    if repeated { return None; }
    r := EncodeEntries(v, ordered, p, depth + 1, r.value);
  }

  lemma SortedSame(es: seq<Entry>)
    ensures OrderedKeys(SortEntries(es)) && (DistinctKeys(SortEntries(es)) <==> DistinctKeys(es))
    ensures forall x :: x in SortEntries(es) <==> x in es
  {
    SortDistinct(es);
    SortOrdered(es);
  }

  /** The bytes of a map: its head, then its sorted entries. */
  lemma MapBytes(buf: Bytes, es: seq<Entry>)
    requires |es| < TWO_64
    ensures var entries := EmitEntries(NormalEntries(SortEntries(es)));
            && buf + Encode(Map(es)) == buf + Head(5, |es|) + entries
            && |Encode(Map(es))| == |Head(5, |es|)| + |entries|
  {
    SortNormal(es);
    SortDistinct(es);
    JoinThree(buf, Head(5, |es|), EmitEntries(NormalEntries(SortEntries(es))));
  }

  /** The entry loop, over the sorted entries of `v`. */
  method EncodeEntries(ghost v: Value, ordered: seq<Entry>, p: Profile, depth: nat, buf: Bytes) returns (r: Option<Bytes>)
    requires v.Map? && (forall e :: e in ordered ==> e in v.entries) && |buf| <= p.limits.maxBytes
    ensures var bytes := EmitEntries(NormalEntries(ordered));
            r == if (forall e :: e in ordered ==> Fits(e.value, p, depth)) && |buf| + |bytes| <= p.limits.maxBytes
                 then Some(buf + bytes) else None
    decreases v, 0, 0
  {
    var out := buf;
    NoEntryEmitted(buf, ordered);
    for i := 0 to |ordered|
      invariant out == EntriesSoFar(buf, ordered, i) && |out| <= p.limits.maxBytes
      invariant forall j :: 0 <= j < i ==> Fits(ordered[j].value, p, depth)
    {
      NextEntry(buf, ordered, i);
      var e := ordered[i];
      assert e in ordered;
      var next := EncodeEntry(e, p, depth, out);
      if next.None? { return None; }
      out := next.value;
    }
    return Some(out);
  }

  /** The buffer once the first `i` entries are in it. */
  ghost function EntriesSoFar(buf: Bytes, es: seq<Entry>, i: int): Bytes
    requires 0 <= i <= |es|
  {
    buf + EmitEntries(NormalEntries(es)[..i])
  }

  lemma NoEntryEmitted(buf: Bytes, es: seq<Entry>)
    ensures EntriesSoFar(buf, es, 0) == buf && EntriesSoFar(buf, es, |es|) == buf + EmitEntries(NormalEntries(es))
  {
    var normal := NormalEntries(es);
    assert normal[..0] == [] && normal[..|es|] == normal;
  }

  lemma NextEntry(buf: Bytes, es: seq<Entry>, i: nat)
    requires i < |es|
    ensures EntriesSoFar(buf, es, i + 1) == EntriesSoFar(buf, es, i) + EmitEntry(NormalEntry(es[i]))
    ensures |EntriesSoFar(buf, es, i)| + |EmitEntry(NormalEntry(es[i]))| <= |buf| + |EmitEntries(NormalEntries(es))|
  {
    var normal := NormalEntries(es);
    NormalEntriesAt(es, i);
    EmitNextEntry(normal, i);
    JoinThree(buf, EmitEntries(normal[..i]), EmitEntry(normal[i]));
  }

  method EncodeEntry(e: Entry, p: Profile, depth: nat, buf: Bytes) returns (r: Option<Bytes>)
    ensures var bytes := EmitEntry(NormalEntry(e));
            r == if Fits(e.value, p, depth) && |buf| + |bytes| <= p.limits.maxBytes then Some(buf + bytes) else None
    decreases e
  {
    r := PushHead(buf, 0, e.key, p);
    if r.None? { return; }
    assert buf + Head(0, e.key) + Encode(e.value) == buf + EmitEntry(NormalEntry(e));
    r := EncodeInto(e.value, p, depth, r.value);
  }

  /** Encoding from an empty buffer. */
  method EncodeWithLimits(v: Value, p: Profile) returns (r: Option<Bytes>)
    ensures r == if Encodable(v, p) then Some(Encode(v)) else None
  {
    r := EncodeInto(v, p, 0, []);
    assert [] + Encode(v) == Encode(v);
  }
}
