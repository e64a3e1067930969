/** sendData: how a packet leaves its sender, in one frame or cut into fragments. */
module Sending {
  import opened MeshTypes
  import opened RouteTable
  import opened FragmentCodec

  const MESH_HEADER_SIZE: nat := 22
  const MESH_MAX_PAYLOAD: nat := 216
  const MESH_FRAME_MAX_SIZE: nat := 250

  /** _sendFrameVia sends nothing that does not fit one ESP-NOW frame. */
  predicate FitsFrame(len: nat)
  {
    MESH_HEADER_SIZE + len <= MESH_FRAME_MAX_SIZE
  }

  /** Without a route, the destination itself. */
  function FirstHop(t: Table, dst: Mac): Mac
  {
    if FindMac(t, dst) < |t| then t[FindMac(t, dst)].nextHopMac else dst
  }

  /** The payload of one frame that leaves the sender. */
  datatype Outgoing = Outgoing(nextHop: Mac, fragment: bool, payload: Bytes)

  lemma FragmentCountBound(len: nat)
    ensures FragmentCount(len, FRAG_MAX_FRAGMENTS) <= ChunkCount(len)
  {
  }

  /** A payload cut into fragments for nextHop; none when it is too large. */
  function Fragments(nextHop: Mac, data: Bytes, fragId: uint16): (out: seq<Outgoing>)
    ensures |out| == FragmentCount(|data|, FRAG_MAX_FRAGMENTS)
  {
    var n := FragmentCount(|data|, FRAG_MAX_FRAGMENTS);
    FragmentCountBound(|data|);
    seq(n, i requires 0 <= i < n => Outgoing(nextHop, true, FragmentBytes(data, fragId, i, n)))
  }

  /** sendData: one DATA frame, or the fragments, or nothing. */
  function Sends(t: Table, dst: Mac, data: Bytes, fragId: uint16): seq<Outgoing>
  {
    if |data| <= MESH_MAX_PAYLOAD then [Outgoing(FirstHop(t, dst), false, data)]
    else Fragments(FirstHop(t, dst), data, fragId)
  }

  /** The fragment loop of sendData. */
  method SendFragments(nextHop: Mac, data: Bytes, fragId: uint16) returns (out: seq<Outgoing>)
    ensures out == Fragments(nextHop, data, fragId)
  {
    var count := FragmentCount(|data|, FRAG_MAX_FRAGMENTS);
    FragmentCountBound(|data|);
    out := [];
    for i := 0 to count
      invariant out == Fragments(nextHop, data, fragId)[..i]
    {
      out := out + [Outgoing(nextHop, true, FragmentBytes(data, fragId, i, count))];
    }
  }

  /** What leaves the sender is the whole packet: as it is, or as fragments that join to it. */
  ghost predicate SentWhole(out: seq<Outgoing>, data: Bytes, fragId: uint16)
  {
    || (exists n :: out == [Outgoing(n, false, data)])
    || (|out| > 0 && Faithful(data, |out|) && forall i :: 0 <= i < |out| ==>
          out[i].fragment && Parse(out[i].payload) == Some(Fragment(fragId, i, |out|, Chunk(data, i))))
  }

  /** Longest packet that eight fragments carry. */
  const MAX_SENDABLE: nat := 1792

  lemma CountsAreExactUpTo(len: nat)
    requires MESH_MAX_PAYLOAD < len
    ensures 0 < FragmentCount(len, FRAG_MAX_FRAGMENTS) == ChunkCount(len) <==> len <= MAX_SENDABLE
  {
  }

  /** What sendData cuts a packet into, the receiver reads back as fragments of it. */
  lemma FragmentsAreRead(nextHop: Mac, data: Bytes, fragId: uint16, i: nat)
    requires i < |Fragments(nextHop, data, fragId)|
    ensures var out := Fragments(nextHop, data, fragId);
            && FragmentCount(|data|, FRAG_MAX_FRAGMENTS) <= ChunkCount(|data|)
            && out[i].nextHop == nextHop && out[i].fragment && FitsFrame(|out[i].payload|)
            && Parse(out[i].payload) == Some(Fragment(fragId, i, |out|, Chunk(data, i)))
  {
    FragmentCountBound(|data|);
    ParseFragment(data, fragId, i, FragmentCount(|data|, FRAG_MAX_FRAGMENTS));
  }

  lemma FragmentsWholeIff(nextHop: Mac, data: Bytes, fragId: uint16)
    requires |data| > MESH_MAX_PAYLOAD
    ensures SentWhole(Fragments(nextHop, data, fragId), data, fragId) <==> |data| <= MAX_SENDABLE
  {
    var out := Fragments(nextHop, data, fragId);
    CountsAreExactUpTo(|data|);
    FragmentCountBound(|data|);
    forall i | 0 <= i < |out|
      ensures out[i].fragment && Parse(out[i].payload) == Some(Fragment(fragId, i, |out|, Chunk(data, i)))
    {
      FragmentsAreRead(nextHop, data, fragId, i);
    }
    JoinedLength(data, |out|);
    if |data| <= MAX_SENDABLE { JoinedIsPrefix(data, |out|); }
    NotOneFrame(out, data);
  }

  lemma NotOneFrame(out: seq<Outgoing>, data: Bytes)
    requires forall i :: 0 <= i < |out| ==> out[i].fragment
    ensures forall n :: out != [Outgoing(n, false, data)]
  {
    forall n
      ensures out != [Outgoing(n, false, data)]
    {
      if |out| > 0 { assert out[0].fragment; }
    }
  }

  /** sendData puts a packet on the air whole exactly when it has at most 1792 bytes, and every frame of it fits. */
  lemma SendsWholeIff(t: Table, dst: Mac, data: Bytes, fragId: uint16)
    ensures var out := Sends(t, dst, data, fragId);
            && (SentWhole(out, data, fragId) <==> |data| <= MAX_SENDABLE)
            && (forall i :: 0 <= i < |out| ==> out[i].nextHop == FirstHop(t, dst) && FitsFrame(|out[i].payload|))
  {
    if |data| <= MESH_MAX_PAYLOAD {
      assert Sends(t, dst, data, fragId) == [Outgoing(FirstHop(t, dst), false, data)];
    } else {
      FragmentsWholeIff(FirstHop(t, dst), data, fragId);
      forall i | 0 <= i < |Sends(t, dst, data, fragId)|
        ensures Sends(t, dst, data, fragId)[i].nextHop == FirstHop(t, dst)
        ensures FitsFrame(|Sends(t, dst, data, fragId)[i].payload|)
      {
        FragmentsAreRead(FirstHop(t, dst), data, fragId, i);
      }
    }
  }

  /**
   Where the frames go and what they are: to the next hop of the first route, or to the destination itself when
   there is none; up to 216 bytes as one whole frame, and up to 1792 as that many fragments of 224 bytes.
   */
  lemma SendsHow(t: Table, dst: Mac, data: Bytes, fragId: uint16)
    ensures var out := Sends(t, dst, data, fragId);
            && (forall i: nat, k :: FirstRoute(t, dst, i) && 0 <= k < |out| ==> out[k].nextHop == t[i].nextHopMac)
            && (forall k :: (forall i: nat :: !FirstRoute(t, dst, i)) && 0 <= k < |out| ==> out[k].nextHop == dst)
            && (|data| <= 216 ==> |out| == 1 && !out[0].fragment && out[0].payload == data)
            && (216 < |data| <= 1792 ==> |out| == (|data| + 223) / 224)
            && (216 < |data| ==> forall k :: 0 <= k < |out| ==> out[k].fragment)
  {
    var out := Sends(t, dst, data, fragId);
    SendsWholeIff(t, dst, data, fragId);
    FirstRouteFound(t, dst);
    if FindMac(t, dst) < |t| { assert FirstRoute(t, dst, FindMac(t, dst)); }
    if 216 < |data| { CountsAreExactUpTo(|data|); }
  }

  /** Fewer chunks than a payload needs do not carry it. */
  lemma JoinedLength(p: Bytes, n: nat)
    requires n <= ChunkCount(|p|)
    ensures Joined(p, n) == p ==> n == ChunkCount(|p|)
  {
    JoinedIsPrefix(p, n);
  }
}
