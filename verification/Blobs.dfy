/** The canonical blob of complete bytes: inline, or chunked with an identifier for each
    chunk. */
module Blobs {
  import opened Common
  import opened Canonical
  import opened CanonicalLaws
  import opened Identity
  import opened FastCdc

  const MAX_INLINE := 64 * 1024

  datatype ChunkRef = ChunkRef(id: ObjectId, length: u64)

  datatype Content = Inline(bytes: Bytes) | Chunked(chunks: seq<ChunkRef>)

  datatype ChunkProfile = ChunkProfile(version: u64, minSize: u64, targetSize: u64, maxSize: u64)

  const PROFILE := ChunkProfile(0, MIN_SIZE, TARGET_SIZE, MAX_SIZE)

  datatype Blob = Blob(byteLength: u64, content: Content, profile: Option<ChunkProfile>)

  /** The sum of the lengths, unless it overflows on the way. */
  function CheckedSum(chunks: seq<ChunkRef>): Option<u64> {
    if chunks == [] then Some(0)
    else
      var sum := CheckedSum(chunks[..|chunks| - 1]);
      if sum.None? || sum.value + chunks[|chunks| - 1].length >= TWO_64 then None
      else Some(sum.value + chunks[|chunks| - 1].length)
  }

  predicate ValidBlob(b: Blob) {
    match b.content
    case Inline(bytes) => b.profile.None? && |bytes| <= MAX_INLINE && |bytes| == b.byteLength
    case Chunked(chunks) =>
      && b.profile.Some? && b.byteLength > MAX_INLINE && chunks != []
      && (forall c :: c in chunks ==> 0 < c.length <= b.profile.value.maxSize)
      && CheckedSum(chunks) == Some(b.byteLength)
      && b.profile.value == PROFILE
  }

  /** The sum of the lengths, without bound. */
  function Total(chunks: seq<ChunkRef>): nat {
    if chunks == [] then 0 else Total(chunks[..|chunks| - 1]) + chunks[|chunks| - 1].length
  }

  lemma {:induction false} SumExactly(chunks: seq<ChunkRef>)
    ensures CheckedSum(chunks) == if Total(chunks) < TWO_64 then Some(Total(chunks)) else None
  {
    if chunks != [] { SumExactly(chunks[..|chunks| - 1]); }
  }

  /** A valid blob holds up to 64 KiB inline, or chunks that add up to its length, none
      empty or over 4 MiB, under the one chunk profile. */
  lemma ValidExactly(b: Blob)
    ensures b.content.Inline? ==>
      (ValidBlob(b) <==> b.profile == None && b.byteLength <= 0x1_0000 && |b.content.bytes| == b.byteLength)
    ensures b.content.Chunked? ==>
      (ValidBlob(b) <==>
         && b.profile == Some(ChunkProfile(0, 0x4_0000, 0x10_0000, 0x40_0000))
         && b.byteLength > 0x1_0000 && Total(b.content.chunks) == b.byteLength
         && forall c :: c in b.content.chunks ==> 0 < c.length <= 0x40_0000)
  {
    if b.content.Chunked? { SumExactly(b.content.chunks); }
  }

  // ------------------------------------------------------ chunk identifiers

  type PolicyId = b: Bytes | |b| == 16 witness seq(16, _ => 0)

  datatype PolicyRef = PolicyRef(policyId: PolicyId, version: ObjectId)

  function PolicyValue(policy: PolicyRef): Value {
    Map([Entry(0, ByteString(policy.policyId)), Entry(1, ByteString(ToBytes(policy.version)))])
  }

  function ChunkValue(policy: PolicyRef, bytes: Bytes): Value {
    Map([Entry(0, Unsigned(1)), Entry(1, Unsigned(0)), Entry(2, PolicyValue(policy)), Entry(3, ByteString(bytes))])
  }

  /** Validation, canonical encoding under the chunk's limits, and the hash. */
  ghost function ChunkId(w: Platform, policy: PolicyRef, a: HashAlgorithm, bytes: Bytes): Option<ObjectId> {
    if |bytes| > MAX_SIZE then None else IdOf(w, Object(1, 0, ChunkValue(policy, bytes)), a)
  }

  /** The fields of a chunk: kind 1, schema 0, its policy, its bytes. */
  lemma ChunkFields(policy: PolicyRef, bytes: Bytes)
    ensures var v := ChunkValue(policy, bytes);
            && v.Map? && |v.entries| == 4 && Field(v.entries, 0) == Some(Unsigned(1)) && Field(v.entries, 1) == Some(Unsigned(0))
            && Field(v.entries, 3) == Some(ByteString(bytes))
            && Field(v.entries, 2).Some? && var p := Field(v.entries, 2).value;
            && p.Map? && |p.entries| == 2
            && Field(p.entries, 0) == Some(ByteString(policy.policyId)) && Field(p.entries, 1) == Some(ByteString(ToBytes(policy.version)))
  {
    FieldNext(ChunkValue(policy, bytes).entries);
    FieldNext(ChunkValue(policy, bytes).entries[1..]);
    FieldNext(ChunkValue(policy, bytes).entries[2..]);
    FieldNext(PolicyValue(policy).entries);
  }

  lemma FieldNext(es: seq<Entry>)
    requires |es| >= 2
    ensures forall k: u64 :: k != es[0].key ==> Field(es, k) == Field(es[1..], k)
    ensures es[1].key != es[0].key ==> Field(es, es[1].key) == Some(es[1].value)
  {
  }

  lemma HeadIsShort(m: major, n: u64)
    ensures |Head(m, n)| <= 9
  {
  }

  lemma EmitBytes(bytes: Bytes)
    requires |bytes| < TWO_64
    ensures |Emit(ByteString(bytes))| <= |bytes| + 9
  {
    HeadIsShort(2, |bytes|);
  }

  lemma EntriesSize(e: Entry, es: seq<Entry>)
    ensures |EmitEntries([e] + es)| == |EmitEntry(e)| + |EmitEntries(es)|
  {
    assert ([e] + es)[1..] == es;
  }

  lemma EntryIsShort(e: Entry, n: nat)
    requires |Emit(e.value)| <= n
    ensures |EmitEntry(e)| <= n + 9
  {
    HeadIsShort(0, e.key);
  }

  lemma IdIsShort(id: ObjectId)
    ensures |ToBytes(id)| == 35
  {
    assert |Varint(0)| == 1 && |Varint(Code(id.algorithm))| == 1 && |Varint(32)| == 1;
  }

  lemma PolicyIsShort(policy: PolicyRef)
    ensures |Emit(PolicyValue(policy))| <= 100
  {
    var e, f := Entry(0, ByteString(policy.policyId)), Entry(1, ByteString(ToBytes(policy.version)));
    IdIsShort(policy.version);
    EmitBytes(policy.policyId);
    EmitBytes(ToBytes(policy.version));
    EntryIsShort(e, 25);
    EntryIsShort(f, 44);
    EntriesSize(f, []);
    EntriesSize(e, [f]);
    assert [e] + [f] == [e, f] && [f] + [] == [f];
    HeadIsShort(5, 2);
  }

  lemma ChunkIsShort(policy: PolicyRef, bytes: Bytes)
    requires |bytes| <= MAX_SIZE
    ensures |Emit(ChunkValue(policy, bytes))| <= |bytes| + 200
  {
    var e, f := Entry(0, Unsigned(1)), Entry(1, Unsigned(0));
    var g, h := Entry(2, PolicyValue(policy)), Entry(3, ByteString(bytes));
    HeadIsShort(0, 1);
    HeadIsShort(0, 0);
    PolicyIsShort(policy);
    EmitBytes(bytes);
    EntryIsShort(e, 9);
    EntryIsShort(f, 9);
    EntryIsShort(g, 100);
    EntryIsShort(h, |bytes| + 9);
    EntriesSize(h, []);
    EntriesSize(g, [h]);
    EntriesSize(f, [g, h]);
    EntriesSize(e, [f, g, h]);
    assert [h] + [] == [h] && [g] + [h] == [g, h] && [f] + [g, h] == [f, g, h] && [e] + [f, g, h] == [e, f, g, h];
    HeadIsShort(5, 4);
  }

  lemma ChunkIsCanonical(policy: PolicyRef, bytes: Bytes)
    ensures IsCanonical(ChunkValue(policy, bytes))
  {
    assert IsCanonical(PolicyValue(policy));
  }

  lemma ChunkFits(w: Platform, policy: PolicyRef, bytes: Bytes)
    requires |bytes| <= MAX_SIZE
    ensures Fits(ChunkValue(policy, bytes), With(w, BULK), 0)
  {
    IdIsShort(policy.version);
    assert Fits(PolicyValue(policy), With(w, BULK), 1);
  }

  /** A chunk within the maximum always has an identifier. */
  lemma ChunkHasId(w: Platform, policy: PolicyRef, a: HashAlgorithm, bytes: Bytes)
    requires |bytes| <= MAX_SIZE
    ensures ChunkId(w, policy, a, bytes).Some? && ChunkId(w, policy, a, bytes).value.algorithm == a
    ensures Identifies(w, ChunkId(w, policy, a, bytes).value, 1, 0, Encode(ChunkValue(policy, bytes)))
  {
    PreimageLayout(1, 0, Encode(ChunkValue(policy, bytes)));
    ChunkFits(w, policy, bytes);
    ChunkIsShort(policy, bytes);
    ChunkIsCanonical(policy, bytes);
    CanonicalIsNormal(ChunkValue(policy, bytes));
  }

  // ---------------------------------------------------------- the references

  /** Each reference has its chunk's identifier and length. */
  ghost predicate RefersTo(id: Bytes -> Option<ObjectId>, chunks: seq<Bytes>, refs: seq<ChunkRef>) {
    |refs| == |chunks| && forall i :: 0 <= i < |refs| ==> id(chunks[i]) == Some(refs[i].id) && refs[i].length == |chunks[i]|
  }

  method ReferTo(id: Bytes -> Option<ObjectId>, chunks: seq<Bytes>) returns (r: Option<seq<ChunkRef>>)
    requires forall i :: 0 <= i < |chunks| ==> |chunks[i]| <= MAX_SIZE
    ensures r.None? <==> exists i :: 0 <= i < |chunks| && id(chunks[i]).None?
    ensures r.Some? ==> RefersTo(id, chunks, r.value)
  {
    var refs: seq<ChunkRef> := [];
    for i := 0 to |chunks|
      invariant |refs| == i
      invariant forall j :: 0 <= j < i ==> id(chunks[j]) == Some(refs[j].id) && refs[j].length == |chunks[j]|
    {
      var chunk := id(chunks[i]);
      if chunk.None? { return None; }
      refs := refs + [ChunkRef(chunk.value, |chunks[i]|)];
    }
    return Some(refs);
  }

  lemma {:induction false} SumIsLength(id: Bytes -> Option<ObjectId>, chunks: seq<Bytes>, refs: seq<ChunkRef>)
    requires RefersTo(id, chunks, refs) && |Joined(chunks)| < TWO_64
    ensures CheckedSum(refs) == Some(|Joined(chunks)|)
  {
    if chunks != [] { SumIsLength(id, chunks[..|chunks| - 1], refs[..|refs| - 1]); }
  }

  // --------------------------------------------------------------- the blob

  datatype ChunkedBlob = ChunkedBlob(blob: Blob, chunks: seq<Bytes>)

  /** The one representation of the bytes: valid, inline up to the limit, otherwise the
      chunks of the chunker with their references. */
  ghost predicate Represents(gear: Gear, id: Bytes -> Option<ObjectId>, bytes: Bytes, r: ChunkedBlob) {
    && ValidBlob(r.blob) && r.blob.byteLength == |bytes|
    && (r.blob.content.Inline? <==> |bytes| <= MAX_INLINE)
    && (r.blob.content.Inline? ==> r.blob.content.bytes == bytes && r.chunks == [])
    && (r.blob.content.Chunked? ==>
          r.chunks == Chunks(gear, bytes) && RefersTo(id, r.chunks, r.blob.content.chunks))
  }

  lemma RefsAreValid(id: Bytes -> Option<ObjectId>, chunks: seq<Bytes>, refs: seq<ChunkRef>)
    requires RefersTo(id, chunks, refs) && forall c :: c in chunks ==> 0 < |c| <= MAX_SIZE
    ensures forall c :: c in refs ==> 0 < c.length <= MAX_SIZE
  {
    forall i | 0 <= i < |refs|
      ensures 0 < refs[i].length <= MAX_SIZE
    {
      assert chunks[i] in chunks;
    }
  }

  /** Small content stays inline, the rest is chunked; fails only for want of a chunk's
      identifier. */
  method FromBytes(gear: Gear, id: Bytes -> Option<ObjectId>, bytes: Bytes) returns (r: Option<ChunkedBlob>)
    requires |bytes| < TWO_64
    ensures r.None? <==> |bytes| > MAX_INLINE && exists c :: c in Chunks(gear, bytes) && id(c).None?
    ensures r.Some? ==> Represents(gear, id, bytes, r.value)
  {
    if |bytes| <= MAX_INLINE { return Some(ChunkedBlob(Blob(|bytes|, Inline(bytes), None), [])); }
    var chunks := FastCdcChunks(gear, bytes);
    ChunksExactly(gear, bytes);
    assert forall i :: 0 <= i < |chunks| ==> chunks[i] in chunks;
    var refs := ReferTo(id, chunks);
    if refs.None? { return None; }
    SumIsLength(id, chunks, refs.value);
    RefsAreValid(id, chunks, refs.value);
    return Some(ChunkedBlob(Blob(|bytes|, Chunked(refs.value), Some(PROFILE)), chunks));
  }

  /** With the program's own chunk identifiers it never fails: any bytes have a blob, and
      the blob passes validation. */
  method BlobOf(gear: Gear, id: Bytes -> Option<ObjectId>, bytes: Bytes, ghost w: Platform, ghost policy: PolicyRef, ghost a: HashAlgorithm)
    returns (r: Option<ChunkedBlob>)
    requires |bytes| < TWO_64 && forall b :: id(b) == ChunkId(w, policy, a, b)
    ensures r.Some? && Represents(gear, id, bytes, r.value)
  {
    ChunksExactly(gear, bytes);
    forall c | c in Chunks(gear, bytes)
      ensures id(c).Some?
    {
      ChunkHasId(w, policy, a, c);
    }
    r := FromBytes(gear, id, bytes);
  }
}
