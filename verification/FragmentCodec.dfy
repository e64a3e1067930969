/** Splitting a payload into chunks of 224 bytes, each behind a 4-byte fragment header. */
module FragmentCodec {
  import opened MeshTypes

  const FRAG_MAX_PAYLOAD: nat := 224
  const FRAG_MAX_FRAGMENTS: nat := 8
  const FRAG_HEADER_SIZE: nat := 4

  /** A fragment as the receiver reads it, with its data cut to one buffer. */
  datatype Fragment = Fragment(fragId: uint16, index: nat, total: nat, data: Bytes)

  function EncodeHeader(fragId: uint16, index: uint8, total: uint8): (r: Bytes)
    ensures |r| == FRAG_HEADER_SIZE
  {
    [fragId / 0x100, fragId % 0x100, index, total]
  }

  function HeaderId(b: Bytes): uint16
    requires |b| >= FRAG_HEADER_SIZE
  {
    var high: int := b[0];
    high * 0x100 + b[1]
  }

  /** The validation at the head of reassemble; None is a rejected fragment. */
  function Parse(b: Bytes): (f: Option<Fragment>)
    ensures f.Some? ==> f.value.index < f.value.total <= FRAG_MAX_FRAGMENTS && |f.value.data| <= FRAG_MAX_PAYLOAD
  {
    if |b| < FRAG_HEADER_SIZE then None
    else if b[3] == 0 || b[3] > FRAG_MAX_FRAGMENTS then None
    else if b[2] >= b[3] then None
    else
      var data := b[FRAG_HEADER_SIZE..];
      Some(Fragment(HeaderId(b), b[2], b[3], if |data| > FRAG_MAX_PAYLOAD then data[..FRAG_MAX_PAYLOAD] else data))
  }

  /** Number of chunks a payload of this length needs. */
  function ChunkCount(len: nat): nat
  {
    (len + FRAG_MAX_PAYLOAD - 1) / FRAG_MAX_PAYLOAD
  }

  /** Chunk i; all but the last are full. */
  function Chunk(p: Bytes, i: nat): (c: Bytes)
    requires FRAG_MAX_PAYLOAD * i <= |p|
    ensures |c| <= FRAG_MAX_PAYLOAD
  {
    var offset := FRAG_MAX_PAYLOAD * i;
    if |p| - offset > FRAG_MAX_PAYLOAD then p[offset..offset + FRAG_MAX_PAYLOAD] else p[offset..]
  }

  /** The first n chunks, joined. */
  function Joined(p: Bytes, n: nat): (r: Bytes)
    requires n <= ChunkCount(|p|)
  {
    if n == 0 then [] else Joined(p, n - 1) + Chunk(p, n - 1)
  }

  /** The value fragment() returns: the 8-bit chunk count, or 0 when that is too large. */
  function FragmentCount(len: nat, maxFragments: nat): (r: nat)
    ensures r <= FRAG_MAX_FRAGMENTS && r <= maxFragments
  {
    if len == 0 then 0
    else
      var total := ChunkCount(len) % 0x100;
      if total > FRAG_MAX_FRAGMENTS || total > maxFragments then 0 else total
  }

  /** Fragment i of n on the wire. */
  function FragmentBytes(p: Bytes, fragId: uint16, i: nat, n: nat): Bytes
    requires i < n <= FRAG_MAX_FRAGMENTS && n <= ChunkCount(|p|)
  {
    EncodeHeader(fragId, i, n) + Chunk(p, i)
  }

  lemma ChunkBounds(p: Bytes, i: nat)
    requires i < ChunkCount(|p|)
    ensures FRAG_MAX_PAYLOAD * i < |p|
    ensures 1 <= |Chunk(p, i)| <= FRAG_MAX_PAYLOAD
    ensures i + 1 < ChunkCount(|p|) ==> |Chunk(p, i)| == FRAG_MAX_PAYLOAD
  {
  }

  lemma ChunkExtendsPrefix(p: Bytes, i: nat)
    requires i < ChunkCount(|p|)
    ensures FRAG_MAX_PAYLOAD * i <= |p|
    ensures i + 1 == ChunkCount(|p|) ==> p[..FRAG_MAX_PAYLOAD * i] + Chunk(p, i) == p
    ensures i + 1 < ChunkCount(|p|) ==>
              && FRAG_MAX_PAYLOAD * (i + 1) <= |p|
              && p[..FRAG_MAX_PAYLOAD * i] + Chunk(p, i) == p[..FRAG_MAX_PAYLOAD * (i + 1)]
  {
  }

  lemma {:induction false} JoinedIsPrefix(p: Bytes, n: nat)
    requires n <= ChunkCount(|p|)
    ensures n < ChunkCount(|p|) ==> FRAG_MAX_PAYLOAD * n <= |p| && Joined(p, n) == p[..FRAG_MAX_PAYLOAD * n]
    ensures n == ChunkCount(|p|) ==> Joined(p, n) == p
  {
    if n > 0 {
      JoinedIsPrefix(p, n - 1);
      ChunkExtendsPrefix(p, n - 1);
    }
  }

  /** The fragments carry the whole payload. */
  ghost predicate Faithful(p: Bytes, n: nat)
  {
    n <= ChunkCount(|p|) && Joined(p, n) == p
  }

  /**
   fragment() either refuses or partitions the payload exactly, except when the chunk count
   overflows its 8-bit counter into the accepted range.
   */
  lemma FragmentIsFaithfulIff(p: Bytes, maxFragments: nat)
    ensures var n := FragmentCount(|p|, maxFragments);
            var c := ChunkCount(|p|);
            (n == 0 || Faithful(p, n)) <==>
              !(c > 0xFF && 1 <= c % 0x100 <= FRAG_MAX_FRAGMENTS && c % 0x100 <= maxFragments)
  {
    var n := FragmentCount(|p|, maxFragments);
    if 0 < n {
      JoinedIsPrefix(p, n);
    }
  }

  /** Up to 57120 bytes: 0 exactly for an empty or oversized payload, and otherwise an exact partition. */
  lemma FragmentPartition(p: Bytes, maxFragments: nat)
    requires |p| <= 57120
    ensures var n := FragmentCount(|p|, maxFragments);
            && (n == 0 <==> |p| == 0 || ChunkCount(|p|) > FRAG_MAX_FRAGMENTS || ChunkCount(|p|) > maxFragments)
            && (n > 0 ==>
                  && n == ChunkCount(|p|) && Joined(p, n) == p
                  && (forall i :: 0 <= i < n ==>
                        && 1 <= |Chunk(p, i)| <= FRAG_MAX_PAYLOAD
                        && (i < n - 1 ==> |Chunk(p, i)| == FRAG_MAX_PAYLOAD)
                        && 22 + |FragmentBytes(p, 0, i, n)| <= 250))
  {
    var n := FragmentCount(|p|, maxFragments);
    if n > 0 {
      JoinedIsPrefix(p, n);
      forall i | 0 <= i < n
        ensures 1 <= |Chunk(p, i)| <= FRAG_MAX_PAYLOAD && (i < n - 1 ==> |Chunk(p, i)| == FRAG_MAX_PAYLOAD)
      {
        ChunkBounds(p, i);
      }
    }
  }

  /** 57345 bytes are accepted as a single fragment, and all but 224 of them are lost. */
  lemma OversizedPayloadIsTruncated(p: Bytes)
    requires |p| == 57345
    ensures FragmentCount(|p|, FRAG_MAX_FRAGMENTS) == 1 && !Faithful(p, 1)
    ensures |Joined(p, 1)| == FRAG_MAX_PAYLOAD
  {
    assert ChunkCount(|p|) == 257;
    JoinedIsPrefix(p, 1);
  }

  /** What the receiver reads is what the sender wrote. */
  lemma ParseFragment(p: Bytes, fragId: uint16, i: nat, n: nat)
    requires i < n <= FRAG_MAX_FRAGMENTS && n <= ChunkCount(|p|)
    ensures Parse(FragmentBytes(p, fragId, i, n)) == Some(Fragment(fragId, i, n, Chunk(p, i)))
  {
  }

  /** Byte for byte: the id, most significant byte first, the index, the total, and 224 bytes of payload or the rest. */
  lemma FragmentOnTheWire(p: Bytes, fragId: uint16, i: nat, n: nat)
    requires i < n <= FRAG_MAX_FRAGMENTS && n <= ChunkCount(|p|)
    ensures var b := FragmentBytes(p, fragId, i, n);
            && |b| > 4 && b[0] == fragId / 0x100 && b[1] == fragId % 0x100 && b[2] == i && b[3] == n
            && b[4..] == if 224 * i + 224 <= |p| then p[224 * i..224 * i + 224] else p[224 * i..]
  {
    ChunkBounds(p, i);
  }

  /** What the receiver accepts, and what it takes from that: all bytes after the header, but at most 224. */
  lemma ParsedIff(b: Bytes)
    ensures match Parse(b)
            case None => |b| < 4 || b[3] == 0 || b[3] > 8 || b[2] >= b[3]
            case Some(f) =>
              && |b| >= 4 && 1 <= b[3] <= 8 && b[2] < b[3]
              && f.fragId / 0x100 == b[0] && f.fragId % 0x100 == b[1] && f.index == b[2] && f.total == b[3]
              && f.data == if |b| > 228 then b[4..228] else b[4..]
  {
  }
}
