/** The offset-moving decoder and the complete `decode_canonical`. */
module CanonicalDecoder {
  import opened Common
  import opened Canonical
  import opened CanonicalLaws
  import Codec

  class Decoder {
    const input: Bytes
    const p: Profile
    var offset: nat

    constructor (input: Bytes, p: Profile)
      ensures this.input == input && this.p == p && offset == 0
    {
      this.input, this.p, offset := input, p, 0;
    }

    function Rest(): Bytes
      requires offset <= |input|
      reads this
    {
      input[offset..]
    }

    method Byte() returns (r: Option<byte>)
      requires offset <= |input|
      modifies this`offset
      ensures offset <= |input| && offset >= old(offset)
      ensures r == if old(Rest()) == [] then None else Some(old(Rest())[0])
      ensures r.Some? ==> offset == old(offset) + 1 && Rest() == old(Rest())[1..]
    {
      if offset == |input| { return None; }
      r := Some(input[offset]);
      offset := offset + 1;
    }

    method Take(n: nat) returns (r: Option<Bytes>)
      requires offset <= |input|
      modifies this`offset
      ensures offset <= |input| && offset >= old(offset)
      ensures r == if n > |old(Rest())| then None else Some(old(Rest())[..n])
      ensures r.Some? ==> Rest() == old(Rest())[n..]
    {
      if offset + n > |input| { return None; }
      assert Rest()[..n] == input[offset..offset + n];
      r := Some(input[offset..offset + n]);
      offset := offset + n;
    }

    method ReadArgument(additional: int) returns (r: Option<u64>)
      requires offset <= |input|
      modifies this`offset
      ensures offset <= |input| && offset >= old(offset)
      ensures var spec := Argument(additional, old(Rest()));
              if spec.None? then r.None? else r == Some(spec.value.0) && Rest() == spec.value.1
    {
      if 0 <= additional < 24 { return Some(additional); }
      if additional < 24 || additional > 27 { return None; }
      var width := if additional == 24 then 1 else if additional == 25 then 2 else if additional == 26 then 4 else 8;
      var least := if additional == 24 then 24 else if additional == 25 then 0x100
                   else if additional == 26 then 0x1_0000 else 0x1_0000_0000;
      var bytes := Take(width);
      if bytes.None? { return None; }
      BigEndianBound(bytes.value);
      Pow256Bound(width);
      var n := FromBigEndian(bytes.value);
      if n < least { return None; }
      return Some(n);
    }

    method ReadValue(depth: nat) returns (r: Option<Value>)
      requires offset <= |input|
      modifies this`offset
      ensures offset <= |input| && offset >= old(offset)
      ensures var spec := Decode(old(Rest()), p, depth);
              if spec.None? then r.None? else r == Some(spec.value.0) && Rest() == spec.value.1
      decreases |input| - offset, 1, 0
    {
      if depth > p.limits.maxDepth { return None; }
      var initial := Byte();
      if initial.None? { return None; }
      var m, additional := initial.value / 32, initial.value % 32;
      if m == 7 {
        return if additional == 20 then Some(Bool(false))
               else if additional == 21 then Some(Bool(true))
               else if additional == 22 then Some(Null) else None;
      }
      var n := ReadArgument(additional);
      if n.None? { return None; }
      r := ReadBody(m, n.value, depth);
    }

    method ReadBody(m: major, n: u64, depth: nat) returns (r: Option<Value>)
      requires offset <= |input|
      modifies this`offset
      ensures offset <= |input| && offset >= old(offset)
      ensures var spec := DecodeBody(m, n, old(Rest()), p, depth);
              if spec.None? then r.None? else r == Some(spec.value.0) && Rest() == spec.value.1
      decreases |input| - offset, 3, 0
    {
      match m
      case 0 => return Some(Unsigned(n));
      case 1 => return if n >= 0x8000_0000_0000_0000 then None else Some(Signed(-1 - n));
      case 2 =>
        if n > p.limits.maxByteString { return None; }
        var bytes := Take(n);
        return if bytes.None? then None else Some(ByteString(bytes.value));
      case 3 =>
        if n > p.limits.maxText { return None; }
        var bytes := Take(n);
        if bytes.None? { return None; }
        return if p.isUtf8(bytes.value) && p.isNfc(bytes.value) then Some(Text(bytes.value)) else None;
      case 4 =>
        if n > p.limits.maxItems { return None; }
        var items := ReadItems(n, depth + 1);
        return if items.None? then None else Some(Array(items.value));
      case 5 =>
        if n > p.limits.maxItems { return None; }
        var entries := ReadEntries(n, depth + 1);
        return if entries.None? then None else Some(Map(entries.value));
      case _ => return None;
    }

    method ReadItems(n: nat, depth: nat) returns (r: Option<seq<Value>>)
      requires offset <= |input|
      modifies this`offset
      ensures offset <= |input| && offset >= old(offset)
      ensures var spec := DecodeItems(old(Rest()), n, p, depth);
              if spec.None? then r.None? else r == Some(spec.value.0) && Rest() == spec.value.1
      decreases |input| - offset, 2, 0
    {
      var items: seq<Value> := [];
      ghost var spec := DecodeItems(Rest(), n, p, depth);
      AfterNone(spec);
      for i := 0 to n
        invariant old(offset) <= offset <= |input| && |items| == i
        invariant i > 0 ==> offset > old(offset)
        invariant spec == AfterRead(items, DecodeItems(Rest(), n - i, p, depth))
      {
        ghost var before := Rest();
        var item := ReadValue(depth);
        if item.None? { return None; }
        ItemsStep(items, before, n - i, p, depth);
        items := items + [item.value];
        assert |Rest()| < |before|;
      }
      assert items + [] == items;
      return Some(items);
    }

    method ReadEntry(previous: Option<u64>, depth: nat) returns (r: Option<Entry>)
      requires offset <= |input|
      modifies this`offset
      ensures offset <= |input| && offset >= old(offset)
      ensures var spec := DecodeEntry(old(Rest()), previous, p, depth);
              if spec.None? then r.None? else r == Some(spec.value.0) && Rest() == spec.value.1
      decreases |input| - offset, 1, 1
    {
      var initial := Byte();
      if initial.None? || initial.value / 32 != 0 { return None; }
      var key := ReadArgument(initial.value % 32);
      if key.None? || (previous.Some? && previous.value >= key.value) { return None; }
      var value := ReadValue(depth);
      return if value.None? then None else Some(Entry(key.value, value.value));
    }

    method ReadEntries(n: nat, depth: nat) returns (r: Option<seq<Entry>>)
      requires offset <= |input|
      modifies this`offset
      ensures offset <= |input| && offset >= old(offset)
      ensures var spec := DecodeEntries(old(Rest()), n, None, p, depth);
              if spec.None? then r.None? else r == Some(spec.value.0) && Rest() == spec.value.1
      decreases |input| - offset, 2, 0
    {
      var entries: seq<Entry> := [];
      var previous: Option<u64> := None;
      ghost var spec := DecodeEntries(Rest(), n, None, p, depth);
      AfterNone(spec);
      for i := 0 to n
        invariant old(offset) <= offset <= |input| && |entries| == i
        invariant spec == AfterRead(entries, DecodeEntries(Rest(), n - i, previous, p, depth))
      {
        ghost var before := Rest();
        var entry := ReadEntry(previous, depth);
        if entry.None? { return None; }
        EntriesStep(entries, before, n - i, previous, p, depth);
        entries := entries + [entry.value];
        previous := Some(entry.value.key);
      }
      assert entries + [] == entries;
      return Some(entries);
    }
  }

  /** What a loop that has read `done` will return, given what the rest decodes to. */
  ghost function AfterRead<T>(done: seq<T>, r: Option<(seq<T>, Bytes)>): Option<(seq<T>, Bytes)> {
    if r.None? then None else Some((done + r.value.0, r.value.1))
  }

  lemma AfterNone<T>(r: Option<(seq<T>, Bytes)>)
    ensures AfterRead([], r) == r
  {
    if r.Some? { assert [] + r.value.0 == r.value.0; }
  }

  lemma ItemsStep(items: seq<Value>, s: Bytes, n: nat, p: Profile, depth: nat)
    requires n > 0 && Decode(s, p, depth).Some?
    ensures var (v, rest) := Decode(s, p, depth).value;
            AfterRead(items, DecodeItems(s, n, p, depth)) == AfterRead(items + [v], DecodeItems(rest, n - 1, p, depth))
  {
    var (v, rest) := Decode(s, p, depth).value;
    var others := DecodeItems(rest, n - 1, p, depth);
    if others.Some? { assert items + ([v] + others.value.0) == items + [v] + others.value.0; }
  }

  lemma EntriesStep(es: seq<Entry>, s: Bytes, n: nat, previous: Option<u64>, p: Profile, depth: nat)
    requires n > 0 && DecodeEntry(s, previous, p, depth).Some?
    ensures var (e, rest) := DecodeEntry(s, previous, p, depth).value;
            AfterRead(es, DecodeEntries(s, n, previous, p, depth))
              == AfterRead(es + [e], DecodeEntries(rest, n - 1, Some(e.key), p, depth))
  {
    var (e, rest) := DecodeEntry(s, previous, p, depth).value;
    var others := DecodeEntries(rest, n - 1, Some(e.key), p, depth);
    if others.Some? { assert es + ([e] + others.value.0) == es + [e] + others.value.0; }
  }

  datatype DecodeError = Rejected | NonCanonical

  datatype Decoded = Accepted(value: Value) | Failed(error: DecodeError)

  /** Decodes, then re-encodes and compares, as the program does.  The comparison
      never fails, and an accepted value encodes to exactly the input. */
  method DecodeAndCompare(input: Bytes, p: Profile) returns (r: Decoded)
    ensures r != Failed(NonCanonical)
    ensures r.Accepted? ==> Encodable(r.value, p) && Encode(r.value) == input
    ensures r == if DecodeCanonical(input, p).Some? then Accepted(DecodeCanonical(input, p).value) else Failed(Rejected)
  {
    if |input| > p.limits.maxBytes { return Failed(Rejected); }
    var decoder := new Decoder(input, p);
    assert input[0..] == input;
    var value := decoder.ReadValue(0);
    if value.None? || decoder.offset != |input| { return Failed(Rejected); }
    DecodeExactly(input, p, value.value);
    var again := Codec.EncodeWithLimits(value.value, p);
    return if again == Some(input) then Accepted(value.value) else Failed(NonCanonical);
  }
}
