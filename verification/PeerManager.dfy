/** The peer table of one node, updated in place, against the map it stands for. */
module PeerManagerClass {
  import opened MeshTypes
  import opened PeerTable
  import opened PeerMaps

  class PeerManager {
    const peers: array<PeerEntry>
    var count: nat

    ghost predicate Valid()
      reads this, peers
    {
      peers.Length == MAX_PEERS && WellFormed(peers[..]) && count == CountPeers(peers[..])
    }

    ghost function Peers(): PeerMap
      requires Valid()
      reads this, peers
    {
      View(peers[..])
    }

    constructor ()
      ensures Valid() && fresh(peers) && peers.Length == 16 && Peers() == map[]
    {
      peers := new PeerEntry[MAX_PEERS](_ => NO_PEER);
      count := 0;
      new;
      CountExtremes(peers[..], IsPeer());
    }

    method GetPeerCount() returns (n: nat)
      requires Valid()
      ensures n == |Peers()| <= MAX_PEERS
    {
      CountIsSize(peers[..]);
      n := count;
    }

    /** -1 when the peer is unknown. */
    method Probe(mac: Mac) returns (pos: int)
      requires Valid()
      ensures -1 <= pos < MAX_PEERS
      ensures pos == -1 <==> mac !in Peers()
      ensures pos >= 0 ==> peers[pos].valid && peers[pos].mac == mac && Peers()[mac] == peers[pos]
    {
      var idx := Hash(mac);
      for i := 0 to MAX_PEERS
        invariant ProbedPast(peers[..], mac, i)
      {
        ProbeDist(idx, i);
        pos := (idx + i) % 16;
        if !peers[pos].valid {
          EmptySlotEndsSearch(peers[..], mac, pos);
          return -1;
        }
        if peers[pos].mac == mac {
          ViewAt(peers[..], pos);
          return;
        }
      }
      WholeLapEndsSearch(peers[..], mac);
      return -1;
    }

    /** The slot of the peer, -1 for nullptr. */
    method FindPeer(mac: Mac) returns (slot: int)
      requires Valid()
      ensures -1 <= slot < MAX_PEERS
      ensures slot == -1 <==> mac !in Peers()
      ensures slot >= 0 ==> peers[slot].valid && peers[slot].mac == mac && Peers()[mac] == peers[slot]
    {
      slot := Probe(mac);
    }

    /** Stores new field values for a peer through the pointer to its slot. */
    method Store(slot: nat, e: PeerEntry)
      requires Valid() && slot < MAX_PEERS && peers[slot].valid && e.valid && e.mac == peers[slot].mac
      modifies peers
      ensures Valid() && Peers() == old(Peers())[e.mac := e] && peers[slot] == e
    {
      TouchKeepsPaths(peers[..], slot, e);
      ghost var t := peers[..];
      peers[slot] := e;
      assert peers[..] == t[slot := e];
    }

    method AddPeer(mac: Mac, now: uint32) returns (slot: int)
      requires Valid()
      modifies peers, `count
      ensures Valid()
      ensures AddStep(old(Peers()), Peers(), mac, now, slot >= 0)
      ensures -1 <= slot < MAX_PEERS
      ensures slot >= 0 ==> peers[slot].valid && peers[slot].mac == mac && Peers()[mac] == peers[slot]
      ensures mac in old(Peers()) ==> slot >= 0 && Peers() == old(Peers())[mac := old(Peers())[mac].(lastSeen := now)]
      ensures slot >= 0 && mac !in old(Peers()) ==>
                var e := Peers()[mac];
                && e.mac == mac && e.lastSeen == now && !e.keyEstablished && e.linkKey == seq(KEY_SIZE, i => 0)
                && e.epoch == 0 && e.lastSeqTx == 0 && e.lastSeqRx == 0 && e.routeCount == 0 && e.rssiEwma == 0.0
                && !e.isBattery && e.sleepIntervalMs == 0
      decreases if count < MAX_PEERS then 0 else 1, 1  // calls itself at most once, after an eviction
    {
      CountIsSize(peers[..]);
      slot := Probe(mac);
      if slot >= 0 {
        Store(slot, peers[slot].(lastSeen := now));
        return;
      }
      ghost var before := Peers();
      slot := InsertIfRoom(mac, now);
      if slot < 0 { slot := EvictThenAdd(mac, now); }
      if slot >= 0 { Added(before, Peers(), mac, now); }
    }

    /** The last branch of addPeer, on a full table. */
    method EvictThenAdd(mac: Mac, now: uint32) returns (slot: int)
      requires Valid() && mac !in Peers() && count == |Peers()| == MAX_PEERS
      modifies peers, `count
      ensures Valid()
      ensures AddStep(old(Peers()), Peers(), mac, now, slot >= 0)
      ensures -1 <= slot < MAX_PEERS
      ensures slot >= 0 ==> peers[slot].valid && peers[slot].mac == mac && Peers()[mac] == peers[slot]
      decreases 1, 0
    {
      ghost var full := Peers();
      var evicted := EvictLRU();
      if !evicted { return -1; }
      CountIsSize(peers[..]);
      ghost var reduced := Peers();
      slot := AddPeer(mac, now);
      AddAfterEviction(full, reduced, Peers(), mac, now, slot >= 0);
    }

    /** The insertion loop of addPeer; -1 when all slots are taken. */
    method InsertIfRoom(mac: Mac, now: uint32) returns (slot: int)
      requires Valid() && mac !in Peers()
      modifies peers, `count
      ensures Valid()
      ensures -1 <= slot < MAX_PEERS
      ensures slot >= 0 <==> old(count) < MAX_PEERS
      ensures slot >= 0 ==> peers[slot].valid && peers[slot].mac == mac && Peers()[mac] == peers[slot]
      ensures Peers() == if slot >= 0 then old(Peers())[mac := NewPeer(mac, now)] else old(Peers())
      ensures slot == -1 ==> count == old(count)
    {
      ghost var t := peers[..];
      CountExtremes(t, IsPeer());
      slot := FirstFreeFrom(Hash(mac));
      if slot >= 0 {
        InsertKeepsPaths(t, NewPeer(mac, now), slot);
        peers[slot] := NewPeer(mac, now);
        count := count + 1;
        assert peers[..] == t[slot := NewPeer(mac, now)];
      }
    }

    /** The probe loop for an empty slot, common to addPeer and the rehash loop; -1 when there is none. */
    method FirstFreeFrom(idx: nat) returns (pos: int)
      requires peers.Length == MAX_PEERS && idx < MAX_PEERS
      ensures -1 <= pos < MAX_PEERS
      ensures pos >= 0 ==> FirstEmpty(peers[..], idx, pos)
      ensures pos == -1 ==> forall q :: 0 <= q < MAX_PEERS ==> peers[q].valid
    {
      for i := 0 to MAX_PEERS
        invariant forall q :: 0 <= q < MAX_PEERS && Dist(idx, q) < i ==> peers[q].valid
      {
        ProbeDist(idx, i);
        pos := (idx + i) % 16;
        if !peers[pos].valid { return; }
      }
      return -1;
    }

    method RemovePeer(mac: Mac) returns (removed: bool)
      requires Valid()
      modifies peers, `count
      ensures Valid()
      ensures RemoveStep(old(Peers()), Peers(), mac, removed)
      ensures count == old(count) - (if removed then 1 else 0)
    {
      var idx := Probe(mac);
      if idx < 0 { return false; }
      OpenHole(idx);
      var pos := (idx + 1) % 16;
      ghost var hole, rest := idx, View(peers[..]);
      while peers[pos].valid
        invariant 0 <= pos < MAX_PEERS && hole < MAX_PEERS && !peers[hole].valid
        invariant Rehashing(pos) && View(peers[..]) == rest && count == old(count) - 1
        decreases Displacement(peers[..]), Dist(pos, hole)
      {
        ghost var moved := Rehash(pos);
        if moved { hole := pos; } else { NextIsNearer(pos, hole); }
        pos := (pos + 1) % 16;
      }
      LoopDone(peers[..], pos);
      return true;
    }

    /** The table between two turns of the rehash loop. */
    ghost predicate Rehashing(pos: nat)
      reads this, peers
    {
      && peers.Length == MAX_PEERS && pos < MAX_PEERS
      && Unique(peers[..]) && GapsOnlyAhead(peers[..], pos) && count == CountPeers(peers[..])
    }

    /** Clears the slot of the peer to be removed. */
    method OpenHole(idx: nat)
      requires Valid() && idx < MAX_PEERS && peers[idx].valid
      modifies peers, `count
      ensures !peers[idx].valid && Rehashing(Next(idx))
      ensures View(peers[..]) == old(Peers()) - {old(peers[idx].mac)}
      ensures count == old(count) - 1
    {
      ghost var t := peers[..];
      HoleOpens(t, idx);
      ViewUpdate(t, idx, NO_PEER);
      CountUpdate(t, IsPeer(), idx, NO_PEER);
      peers[idx] := NO_PEER;
      count := count - 1;
      assert peers[..] == t[idx := NO_PEER];
    }

    /**
     The body of the rehash loop: the entry at pos is taken out and re-inserted at the first
     empty slot from its hash. Either it comes to lie strictly nearer to its hash, which
     leaves a new hole at pos, or nothing changes.
     */
    method Rehash(pos: nat) returns (ghost moved: bool)
      requires Rehashing(pos) && peers[pos].valid
      modifies peers, `count
      ensures Rehashing(Next(pos))
      ensures View(peers[..]) == old(View(peers[..]))
      ensures count == old(count)
      ensures if moved
              then !peers[pos].valid && Displacement(peers[..]) < old(Displacement(peers[..]))
              else peers[..] == old(peers[..])
    {
      ghost var t := peers[..];
      var tmp := peers[pos];
      CountUpdate(t, IsPeer(), pos, tmp.(valid := false));
      peers[pos] := tmp.(valid := false);
      count := count - 1;
      assert peers[..] == t[pos := tmp.(valid := false)];
      var newPos := FirstFreeFrom(Hash(tmp.mac));
      RehashStep(t, pos, newPos);
      peers[newPos] := tmp;
      count := count + 1;
      assert peers[..] == Moved(t, pos, newPos);
      moved := newPos != pos;
    }

    method EvictLRU() returns (evicted: bool)
      requires Valid()
      modifies peers, `count
      ensures Valid()
      ensures EvictStep(old(Peers()), Peers(), evicted)
      ensures evicted ==> count == old(count) - 1
    {
      var candidate := LeastRecentlySeen();
      if candidate < 0 { return false; }
      var victim := peers[candidate].mac;
      assert IsVictim(Peers(), victim);
      evicted := RemovePeer(victim);
    }

    /** The two scans of evictLRU. */
    method LeastRecentlySeen() returns (candidate: int)
      requires Valid()
      ensures -1 <= candidate < MAX_PEERS
      ensures candidate == -1 <==> NoVictim(Peers())
      ensures candidate >= 0 ==> peers[candidate].valid && IsVictim(Peers(), peers[candidate].mac)
    {
      candidate := -1;
      var oldestTime: int := UINT32_MAX;
      ghost var t, m := peers[..], Peers();
      for i := 0 to MAX_PEERS
        invariant -1 <= candidate < i && oldestTime <= UINT32_MAX
        invariant candidate == -1 ==> oldestTime == UINT32_MAX
        invariant candidate >= 0 ==> t[candidate].valid && Idle(t[candidate]) && t[candidate].lastSeen == oldestTime
        invariant forall j :: 0 <= j < i && t[j].valid && t[j].routeCount == 0 ==> oldestTime <= t[j].lastSeen
      {
        if peers[i].valid && peers[i].routeCount == 0 {
          if peers[i].lastSeen < oldestTime {
            oldestTime := peers[i].lastSeen;
            candidate := i;
          }
        }
      }
      if candidate >= 0 {
        VictimIdle(t, candidate);
        return;
      }
      for i := 0 to MAX_PEERS
        invariant -1 <= candidate < i && oldestTime <= UINT32_MAX
        invariant candidate == -1 ==> oldestTime == UINT32_MAX
        invariant candidate >= 0 ==> t[candidate].valid && t[candidate].lastSeen == oldestTime < UINT32_MAX
        invariant forall j :: 0 <= j < i && t[j].valid ==> oldestTime <= t[j].lastSeen
      {
        if peers[i].valid && peers[i].lastSeen < oldestTime {
          oldestTime := peers[i].lastSeen;
          candidate := i;
        }
      }
      VictimAny(t, candidate);
    }

    method GetNextSeqTx(mac: Mac) returns (sequence: uint16)
      requires Valid()
      modifies peers
      ensures Valid()
      ensures SendStep(old(Peers()), Peers(), mac, sequence)
      ensures sequence == if mac in old(Peers()) then (old(Peers())[mac].lastSeqTx + 1) % 0x1_0000 else 0
    {
      var slot := FindPeer(mac);
      if slot < 0 { return 0; }
      sequence := (peers[slot].lastSeqTx + 1) % 0x1_0000;
      Store(slot, peers[slot].(lastSeqTx := sequence));
    }

    method CheckAndUpdateSeqRx(mac: Mac, sequence: uint16) returns (accepted: bool)
      requires Valid()
      modifies peers
      ensures Valid()
      ensures CheckStep(old(Peers()), Peers(), mac, sequence, accepted)
      ensures accepted <==>
              mac in old(Peers()) && 1 <= (sequence - old(Peers())[mac].lastSeqRx) % 0x1_0000 <= 0x7FFF
      ensures Peers() ==
              if accepted then old(Peers())[mac := old(Peers())[mac].(lastSeqRx := sequence)] else old(Peers())
    {
      ghost var before := Peers();
      accepted := RecordIfFresher(mac, sequence);
      Checked(before, Peers(), mac, sequence, accepted);
    }

    /** The body of checkAndUpdateSeqRx. */
    method RecordIfFresher(mac: Mac, sequence: uint16) returns (accepted: bool)
      requires Valid()
      modifies peers
      ensures Valid()
      ensures CheckStep(old(Peers()), Peers(), mac, sequence, accepted)
    {
      var slot := FindPeer(mac);
      if slot < 0 { return false; }
      var diff := ToInt16(sequence - peers[slot].lastSeqRx);
      if diff <= 0 { return false; }
      Store(slot, peers[slot].(lastSeqRx := sequence));
      return true;
    }

    method SetLinkKey(mac: Mac, key: Bytes, epoch: uint8) returns (ok: bool)
      requires Valid() && |key| == KEY_SIZE
      modifies peers
      ensures Valid()
      ensures KeyStep(old(Peers()), Peers(), mac, key, epoch, ok)
    {
      var slot := FindPeer(mac);
      if slot < 0 { return false; }
      Store(slot, WithKey(peers[slot], key, epoch));
      return true;
    }
  }

  lemma VictimIdle(t: Slots, c: nat)
    requires Unique(t) && c < |t| && t[c].valid && Idle(t[c])
    requires forall j :: 0 <= j < |t| && t[j].valid && t[j].routeCount == 0 ==> t[c].lastSeen <= t[j].lastSeen
    ensures IsVictim(View(t), t[c].mac) && !NoVictim(View(t))
  {
  }

  lemma VictimAny(t: Slots, c: int)
    requires Unique(t) && -1 <= c < |t|
    requires forall j :: 0 <= j < |t| && t[j].valid ==> !Idle(t[j])
    requires c == -1 ==> forall j :: 0 <= j < |t| && t[j].valid ==> t[j].lastSeen == UINT32_MAX
    requires c >= 0 ==> t[c].valid && t[c].lastSeen < UINT32_MAX
                        && forall j :: 0 <= j < |t| && t[j].valid ==> t[c].lastSeen <= t[j].lastSeen
    ensures c == -1 <==> NoVictim(View(t))
    ensures c >= 0 ==> IsVictim(View(t), t[c].mac)
  {
    var m := View(t);
    forall k | k in m
      ensures !Idle(m[k]) && if c == -1 then m[k].lastSeen == UINT32_MAX else t[c].lastSeen <= m[k].lastSeen
    {
      var j := ViewSlot(t, k);
    }
    if c >= 0 { ViewAt(t, c); }
  }
}
