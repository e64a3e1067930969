/** Fragmentation and reassembly of one node, with its four session slots and output buffer. */
module FragmentationClass {
  import opened MeshTypes
  import opened Bits
  import opened FragmentCodec
  import opened Reassembly
  import Memory

  const NO_SESSION := Session(Mac(0, 0, 0, 0, 0, 0), 0, 0, 0, seq(8, i => ZERO_BUFFER), seq(8, i => 0), 0, false)

  /** One outgoing frame payload: 228 bytes of space, of which `length` are used. */
  datatype FragmentBuffer = FragmentBuffer(data: Bytes, length: nat)

  ghost predicate HasSpace(b: FragmentBuffer)
  {
    |b.data| == FRAG_HEADER_SIZE + FRAG_MAX_PAYLOAD
  }

  class Fragmentation {
    const sessions: array<Session>
    var fragIdCounter: uint16
    const reassembledBuf: array<uint8>

    ghost predicate Valid()
      reads this, sessions
    {
      Reassembly.Valid(sessions[..]) && reassembledBuf.Length == 1792
    }

    constructor ()
      ensures Valid() && fresh(sessions) && fresh(reassembledBuf) && sessions.Length == 4
      ensures fragIdCounter == 0 && forall i :: 0 <= i < MAX_SESSIONS ==> !sessions[i].active
    {
      sessions := new Session[MAX_SESSIONS](_ => NO_SESSION);
      reassembledBuf := new uint8[1792](_ => 0);
      fragIdCounter := 0;
    }

    method NextFragId() returns (id: uint16)
      modifies `fragIdCounter
      ensures id == fragIdCounter == (old(fragIdCounter) + 1) % 0x1_0000
    {
      fragIdCounter := (fragIdCounter + 1) % 0x1_0000;
      id := fragIdCounter;
    }

    /** Writes the fragments into the caller's buffers; the bytes behind each length are left alone. */
    method FragmentPayload(payload: Bytes, fragId: uint16, outFragments: array<FragmentBuffer>, maxFragments: nat)
      returns (count: nat)
      requires maxFragments <= outFragments.Length
      requires forall i :: 0 <= i < outFragments.Length ==> HasSpace(outFragments[i])
      modifies outFragments
      ensures count == FragmentCount(|payload|, maxFragments) <= ChunkCount(|payload|)
      ensures forall i :: 0 <= i < count ==>
                && HasSpace(outFragments[i]) && outFragments[i].length <= FRAG_HEADER_SIZE + FRAG_MAX_PAYLOAD
                && outFragments[i].data[..outFragments[i].length] == FragmentBytes(payload, fragId, i, count)
      ensures forall i :: count <= i < outFragments.Length ==> outFragments[i] == old(outFragments[i])
    {
      if |payload| == 0 { return 0; }
      var totalFrags := (|payload| + FRAG_MAX_PAYLOAD - 1) / FRAG_MAX_PAYLOAD % 0x100;
      if totalFrags > FRAG_MAX_FRAGMENTS || totalFrags > maxFragments { return 0; }
      for i := 0 to totalFrags
        invariant forall k :: 0 <= k < i ==>
                    && HasSpace(outFragments[k]) && outFragments[k].length <= FRAG_HEADER_SIZE + FRAG_MAX_PAYLOAD
                    && outFragments[k].data[..outFragments[k].length] == FragmentBytes(payload, fragId, k, totalFrags)
        invariant forall k :: i <= k < outFragments.Length ==> outFragments[k] == old(outFragments[k])
      {
        var offset := FRAG_MAX_PAYLOAD * i;
        var chunkLen := |payload| - offset;
        if chunkLen > FRAG_MAX_PAYLOAD { chunkLen := FRAG_MAX_PAYLOAD; }
        var bytes := EncodeHeader(fragId, i, totalFrags) + payload[offset..offset + chunkLen];
        outFragments[i] := FragmentBuffer(Overwrite(outFragments[i].data, bytes), FRAG_HEADER_SIZE + chunkLen);
        assert payload[offset..offset + chunkLen] == Chunk(payload, i);
        assert outFragments[i].data[..FRAG_HEADER_SIZE + chunkLen] == bytes;
      }
      return totalFrags;
    }

    /** Slot of the active session for the key, or 4. */
    method FindSlotFor(srcMac: Mac, fragId: uint16) returns (slot: nat)
      requires Valid()
      ensures slot == FindSession(sessions[..], Key(srcMac, fragId))
    {
      for i := 0 to MAX_SESSIONS
        invariant forall j :: 0 <= j < i ==> !IsFor(Key(srcMac, fragId))(sessions[j])
      {
        if sessions[i].active && sessions[i].fragId == fragId && sessions[i].srcMac == srcMac {
          FirstIndexUnique(sessions[..], IsFor(Key(srcMac, fragId)), i);
          return i;
        }
      }
      FirstIndexUnique(sessions[..], IsFor(Key(srcMac, fragId)), MAX_SESSIONS);
      return MAX_SESSIONS;
    }

    /** Takes a free slot, or else the one that was started first. */
    method AllocSession(srcMac: Mac, fragId: uint16, totalFrags: uint8, now: uint32) returns (slot: nat)
      requires Valid() && FindSession(sessions[..], Key(srcMac, fragId)) == MAX_SESSIONS
      modifies sessions
      ensures Valid()
      ensures slot == SlotFor(old(sessions[..]), Key(srcMac, fragId))
      ensures sessions[..] == Opened(old(sessions[..]), Key(srcMac, fragId), totalFrags, now)
    {
      ghost var ss := sessions[..];
      OpenedValid(ss, Key(srcMac, fragId), totalFrags, now, Key(srcMac, fragId));
      for i := 0 to MAX_SESSIONS
        invariant sessions[..] == ss
        invariant forall j :: 0 <= j < i ==> !IsInactive()(sessions[j])
      {
        if !sessions[i].active {
          FirstIndexUnique(ss, IsInactive(), i);
          sessions[i] := NewSession(srcMac, fragId, totalFrags, now);
          assert sessions[..] == ss[i := NewSession(srcMac, fragId, totalFrags, now)];
          return i;
        }
      }
      FirstIndexUnique(ss, IsInactive(), MAX_SESSIONS);
      var oldest: int := UINT32_MAX;
      slot := 0;
      for i := 0 to MAX_SESSIONS
        invariant (slot, oldest) == OldestScan(ss, Started(), i)
      {
        if sessions[i].startedAt < oldest {
          oldest := sessions[i].startedAt;
          slot := i;
        }
      }
      sessions[slot] := NewSession(srcMac, fragId, totalFrags, now);
      assert sessions[..] == ss[slot := NewSession(srcMac, fragId, totalFrags, now)];
    }

    /** On completion the message is the first `total` bytes of reassembledBuf. */
    method Reassemble(srcMac: Mac, payload: Bytes, now: uint32) returns (complete: bool, total: nat)
      requires Valid()
      modifies sessions, reassembledBuf
      ensures Valid()
      ensures var o := Reassembly.Reassemble(old(sessions[..]), srcMac, payload, now);
              && sessions[..] == o.sessions
              && (complete <==> o.message.Some?)
              && (complete ==> total <= 1792 && reassembledBuf[..total] == o.message.value)
    {
      ghost var ss := sessions[..];
      complete, total := false, 0;
      var parsed := Parse(payload);
      if parsed.None? { return; }
      var f := parsed.value;
      ghost var key := Key(srcMac, f.fragId);
      ReassembleRefinesMap(ss, srcMac, payload, now, key);
      OpenedValid(ss, key, f.total, now, key);
      var slot := FindSlotFor(srcMac, f.fragId);
      if slot == MAX_SESSIONS {
        slot := AllocSession(srcMac, f.fragId, f.total, now);
      }
      complete, total := TakeFragment(slot, f);
    }

    /** The part of reassemble after the session has been found or opened. */
    method TakeFragment(slot: nat, f: Fragment) returns (complete: bool, total: nat)
      requires Valid() && slot < MAX_SESSIONS && sessions[slot].active
      requires f.index < f.total <= FRAG_MAX_FRAGMENTS && |f.data| <= FRAG_MAX_PAYLOAD
      modifies sessions, reassembledBuf
      ensures Valid()
      ensures var o := Take(old(sessions[..]), slot, f);
              && sessions[..] == o.sessions
              && (complete <==> o.message.Some?)
              && (complete ==> total <= 1792 && reassembledBuf[..total] == o.message.value)
    {
      ghost var ss := sessions[..];
      TakeRefinesMap(ss, slot, f, KeyOf(ss[slot]));
      complete, total := false, 0;
      var s := sessions[slot];
      s := s.(buffer := s.buffer[f.index := Overwrite(s.buffer[f.index], f.data)]);
      s := s.(fragLengths := s.fragLengths[f.index := |f.data|]);
      s := s.(receivedMask := BitOr(s.receivedMask, Pow2(f.index)) % 0x100);
      sessions[slot] := s;
      assert sessions[..] == ss[slot := StoreFragment(ss[slot], f)];
      if s.receivedMask != ExpectedMask(f.total) { return; }
      total := CopyOut(s, f.total);
      complete := true;
      sessions[slot] := s.(active := false);
      assert sessions[..] == ss[slot := StoreFragment(ss[slot], f).(active := false)];
    }

    /** Joins the buffers of s at the start of reassembledBuf, never writing past its 1792 bytes. */
    method CopyOut(s: Session, n: nat) returns (total: nat)
      requires reassembledBuf.Length == 1792 && BuffersFit(s) && n <= 8
      modifies reassembledBuf
      ensures total <= 1792 && reassembledBuf[..total] == Gathered(s, n)
    {
      total := 0;
      for i := 0 to n
        invariant total <= FRAG_MAX_PAYLOAD * i && reassembledBuf[..total] == Gathered(s, i)
      {
        Memory.CopyBytes(reassembledBuf, total, s.buffer[i][..s.fragLengths[i]]);
        total := total + s.fragLengths[i];
      }
    }

    method Update(now: uint32)
      requires Valid()
      modifies sessions
      ensures Valid()
      ensures sessions[..] == DropStale(old(sessions[..]), now)
    {
      ghost var ss := sessions[..];
      for i := 0 to MAX_SESSIONS
        invariant forall k :: 0 <= k < i ==> sessions[k] == DropStale(ss, now)[k]
        invariant forall k :: i <= k < MAX_SESSIONS ==> sessions[k] == ss[k]
      {
        if TimedOut(sessions[i], now) {
          sessions[i] := sessions[i].(active := false);
        }
      }
      assert sessions[..] == DropStale(ss, now);
      DropStaleRefinesMap(ss, now, Key(Mac(0, 0, 0, 0, 0, 0), 0));
    }
  }
}
