/** The 12-byte wire form of a route advertisement entry. */
module RouteAdvCodec {
  import opened MeshTypes
  import opened RouteTable

  const ADV_MAX_ENTRIES: nat := 18

  /** memcpy of a uint32_t on a little-endian core. */
  function LittleEndian32(x: uint32): (r: Bytes)
  {
    [x % 0x100, x / 0x100 % 0x100, x / 0x100 / 0x100 % 0x100, x / 0x100 / 0x100 / 0x100]
  }

  function ReadLittleEndian32(b: Bytes): uint32
    requires |b| == 4
  {
    var w0: int, w1: int, w2: int, w3: int := b[0], b[1], b[2], b[3];
    w0 + 0x100 * (w1 + 0x100 * (w2 + 0x100 * w3))
  }

  function EncodeEntry(e: AdvEntry): Bytes
  {
    LittleEndian32(e.destIP) + e.destMac.Octets() + [e.hopCount, e.metric]
  }

  function DecodeEntry(b: Bytes): AdvEntry
    requires |b| == 12
  {
    AdvEntry(ReadLittleEndian32(b[..4]), Mac(b[4], b[5], b[6], b[7], b[8], b[9]), b[10], b[11])
  }

  function EncodeAll(es: seq<AdvEntry>): (r: Bytes)
    ensures |r| == 12 * |es|
  {
    if |es| == 0 then []
    else EncodeAll(es[..|es| - 1]) + EncodeEntry(es[|es| - 1])
  }

  /** A trailing partial entry is ignored. */
  function DecodeAll(b: Bytes): (r: seq<AdvEntry>)
    ensures |r| == |b| / 12
  {
    seq(|b| / 12, i requires 0 <= i < |b| / 12 => DecodeEntry(b[12 * i..12 * i + 12]))
  }

  lemma LittleEndianRoundTrip(x: uint32, b: Bytes)
    requires |b| == 4
    ensures ReadLittleEndian32(LittleEndian32(x)) == x
    ensures LittleEndian32(ReadLittleEndian32(b)) == b
  {
    var y: int := ReadLittleEndian32(b);
    var w1: int, w2: int, w3: int := b[1], b[2], b[3];
    assert y / 0x100 == w1 + 0x100 * (w2 + 0x100 * w3);
    assert y / 0x100 / 0x100 == w2 + 0x100 * w3;
  }

  /** Entries and 12-byte strings correspond one to one. */
  lemma EntryRoundTrip(e: AdvEntry, b: Bytes)
    requires |b| == 12
    ensures DecodeEntry(EncodeEntry(e)) == e
    ensures EncodeEntry(DecodeEntry(b)) == b
  {
    LittleEndianRoundTrip(e.destIP, b[..4]);
    assert EncodeEntry(e)[..4] == LittleEndian32(e.destIP);
    assert b == b[..4] + [b[4], b[5], b[6], b[7], b[8], b[9]] + [b[10], b[11]];
  }

  lemma EncodeAllNext(es: seq<AdvEntry>, e: AdvEntry)
    ensures EncodeAll(es + [e]) == EncodeAll(es) + EncodeEntry(e)
  {
  }

  lemma {:induction false} EntrySlice(es: seq<AdvEntry>, i: nat)
    requires i < |es|
    ensures EncodeAll(es)[12 * i..12 * i + 12] == EncodeEntry(es[i])
  {
    var n := |es| - 1;
    var p := EncodeAll(es[..n]);
    assert EncodeAll(es) == p + EncodeEntry(es[n]);
    if i < n {
      EntrySlice(es[..n], i);
      assert EncodeAll(es)[12 * i..12 * i + 12] == p[12 * i..12 * i + 12];
    }
  }

  /** A whole advert survives the wire. */
  lemma AdvertRoundTrip(es: seq<AdvEntry>)
    ensures DecodeAll(EncodeAll(es)) == es
  {
    var b := EncodeAll(es);
    var ds := DecodeAll(b);
    assert |ds| == |es|;
    forall i | 0 <= i < |es|
      ensures ds[i] == es[i]
    {
      assert ds[i] == DecodeEntry(b[12 * i..12 * i + 12]);
      EntrySlice(es, i);
      EntryRoundTrip(es[i], EncodeEntry(es[i]));
    }
  }

  /** The 12 bytes at position k: address, least significant byte first; MAC; hop count; metric. */
  ghost predicate WireEntry(b: Bytes, k: nat, e: RouteEntry, hops: uint8, metric: uint8)
    requires 12 * k + 12 <= |b|
  {
    && b[12 * k] == e.destIP % 0x100 && b[12 * k + 1] == e.destIP / 0x100 % 0x100
    && b[12 * k + 2] == e.destIP / 0x1_0000 % 0x100 && b[12 * k + 3] == e.destIP / 0x100_0000
    && b[12 * k + 4] == e.destMac.b0 && b[12 * k + 5] == e.destMac.b1 && b[12 * k + 6] == e.destMac.b2
    && b[12 * k + 7] == e.destMac.b3 && b[12 * k + 8] == e.destMac.b4 && b[12 * k + 9] == e.destMac.b5
    && b[12 * k + 10] == hops && b[12 * k + 11] == metric
  }

  /**
   What an advert says, byte for byte, of a valid slot that is among its entries: one hop more, or 16 hops
   and metric 255 to the neighbour that is the route's own next hop.
   */
  lemma AdvertOnTheWire(t: Table, exclude: Option<Mac>, max: nat, i: nat)
    requires i < |t| && t[i].valid && CountValid(t[..i]) < max
    ensures var b, k := EncodeAll(Advert(t, exclude, max)), CountValid(t[..i]);
            && 12 * k + 12 <= |b|
            && if exclude == Some(t[i].nextHopMac) then WireEntry(b, k, t[i], 16, 255)
               else WireEntry(b, k, t[i], (t[i].hopCount + 1) % 256, t[i].metric)
  {
    var es, k := Advert(t, exclude, max), CountValid(t[..i]);
    AdvertRank(t, exclude, max);
    EntrySlice(es, k);
    EntryBytes(EncodeAll(es), k, t[i], es[k]);
  }

  lemma EntryBytes(b: Bytes, k: nat, e: RouteEntry, a: AdvEntry)
    requires 12 * k + 12 <= |b| && b[12 * k..12 * k + 12] == EncodeEntry(a)
    requires a.destIP == e.destIP && a.destMac == e.destMac
    ensures WireEntry(b, k, e, a.hopCount, a.metric)
  {
    var s := EncodeEntry(a);
    assert forall j :: 0 <= j < 12 ==> b[12 * k + j] == s[j];
    assert e.destIP / 0x100 / 0x100 == e.destIP / 0x1_0000;
    assert e.destIP / 0x1_0000 / 0x100 == e.destIP / 0x100_0000;
  }
}
