/** What the operations of the peer table do to the map from MAC to entry that it stands for. */
module PeerMaps {
  import opened MeshTypes
  import opened PeerTable

  type PeerMap = map<Mac, PeerEntry>

  function NewPeer(mac: Mac, now: uint32): PeerEntry
  {
    NO_PEER.(mac := mac, valid := true, lastSeen := now, keyEstablished := false)
  }

  predicate Idle(e: PeerEntry)
  {
    e.routeCount == 0 && e.lastSeen < UINT32_MAX
  }

  /** Least recently seen among the peers no route uses; among all peers when there is none of those. */
  ghost predicate IsVictim(m: PeerMap, k: Mac)
  {
    && k in m
    && if exists j :: j in m && Idle(m[j])
       then Idle(m[k]) && forall j :: j in m && m[j].routeCount == 0 ==> m[k].lastSeen <= m[j].lastSeen
       else m[k].lastSeen < UINT32_MAX && forall j :: j in m ==> m[k].lastSeen <= m[j].lastSeen
  }

  /** A peer that routes use goes only when routes use all the others seen before 2^32 - 1. */
  lemma VictimIsUnused(m: PeerMap, k: Mac, j: Mac)
    requires IsVictim(m, k) && j in m && m[j].lastSeen < UINT32_MAX
    ensures m[k].routeCount == 0 || m[j].routeCount > 0
    ensures (m[k].routeCount == 0 <==> m[j].routeCount == 0) ==> m[k].lastSeen <= m[j].lastSeen
  {
    assert Idle(m[j]) <==> m[j].routeCount == 0;
  }

  ghost predicate NoVictim(m: PeerMap)
  {
    forall j :: j in m ==> m[j].lastSeen == UINT32_MAX
  }

  /** addPeer: refresh, insert, or evict one peer of a full table and insert. */
  ghost predicate AddStep(m: PeerMap, m': PeerMap, mac: Mac, now: uint32, ok: bool)
  {
    if mac in m then ok && m' == m[mac := m[mac].(lastSeen := now)]
    else if |m| < MAX_PEERS then ok && m' == m[mac := NewPeer(mac, now)]
    else if NoVictim(m) then !ok && m' == m
    else ok && exists v :: IsVictim(m, v) && m' == (m - {v})[mac := NewPeer(mac, now)]
  }

  function WithKey(e: PeerEntry, key: Bytes, epoch: uint8): PeerEntry
  {
    e.(linkKey := key, epoch := epoch, keyEstablished := true, lastSeqTx := 0, lastSeqRx := 0)
  }

  /** (int16_t)x */
  function ToInt16(x: int): (r: int)
    ensures -0x8000 <= r < 0x8000 && (x - r) % 0x1_0000 == 0
  {
    var m := x % 0x1_0000;
    if m < 0x8000 then m else m - 0x1_0000
  }

  predicate Fresher(sequence: uint16, last: uint16)
  {
    ToInt16(sequence - last) > 0
  }

  /** Fresh is what lies 1 to 32767 ahead, modulo 2^16. */
  lemma FresherIsAhead(sequence: uint16, last: uint16)
    ensures Fresher(sequence, last) <==> 1 <= (sequence - last) % 0x1_0000 <= 0x7FFF
  {
  }

  ghost predicate RemoveStep(m: PeerMap, m': PeerMap, mac: Mac, removed: bool)
  {
    (removed <==> mac in m) && m' == m - {mac}
  }

  /** Fails only when every peer was last seen at time 2^32 - 1. */
  ghost predicate EvictStep(m: PeerMap, m': PeerMap, evicted: bool)
  {
    && (evicted <==> !NoVictim(m))
    && if evicted then exists v :: IsVictim(m, v) && m' == m - {v} else m' == m
  }

  /** checkAndUpdateSeqRx: only a fresher number of a known peer is accepted, and recorded. */
  ghost predicate CheckStep(m: PeerMap, m': PeerMap, mac: Mac, sequence: uint16, accepted: bool)
  {
    && (accepted <==> mac in m && Fresher(sequence, m[mac].lastSeqRx))
    && m' == if accepted then m[mac := m[mac].(lastSeqRx := sequence)] else m
  }

  /** getNextSeqTx: zero for an unknown peer; wraps at 2^16. */
  ghost predicate SendStep(m: PeerMap, m': PeerMap, mac: Mac, sequence: uint16)
  {
    if mac in m
    then sequence == (m[mac].lastSeqTx + 1) % 0x1_0000 && m' == m[mac := m[mac].(lastSeqTx := sequence)]
    else sequence == 0 && m' == m
  }

  /** setLinkKey also restarts both sequence counters. */
  ghost predicate KeyStep(m: PeerMap, m': PeerMap, mac: Mac, key: Bytes, epoch: uint8, ok: bool)
  {
    && (ok <==> mac in m)
    && m' == if ok then m[mac := WithKey(m[mac], key, epoch)] else m
  }

  /** A new peer starts without a key, with fresh counters; a known one keeps all but the time it was last seen. */
  lemma Added(m: PeerMap, m': PeerMap, mac: Mac, now: uint32)
    requires AddStep(m, m', mac, now, true)
    ensures mac in m' && m'[mac].lastSeen == now
    ensures mac in m ==> m' == m[mac := m[mac].(lastSeen := now)]
    ensures mac !in m ==>
              var e := m'[mac];
              && e.mac == mac && e.valid && !e.keyEstablished && e.linkKey == seq(KEY_SIZE, i => 0) && e.epoch == 0
              && e.lastSeqTx == 0 && e.lastSeqRx == 0 && e.routeCount == 0 && e.rssiEwma == 0.0
              && !e.isBattery && e.sleepIntervalMs == 0
    ensures mac !in m && |m| < 16 ==> m' == m[mac := m'[mac]]
    ensures mac !in m && |m| >= 16 ==> exists v :: IsVictim(m, v) && m' == (m - {v})[mac := m'[mac]]
  {
    assert NO_PEER.linkKey == seq(KEY_SIZE, i => 0);
  }

  /** evictLRU finds somebody to evict unless all were last seen at 2^32 - 1; one peer goes and the rest stay. */
  lemma Evicted(m: PeerMap, m': PeerMap, evicted: bool)
    requires EvictStep(m, m', evicted)
    ensures evicted <==> exists k :: k in m && m[k].lastSeen != 0xFFFF_FFFF
    ensures evicted ==> exists v :: v in m && IsVictim(m, v) && m' == m - {v}
    ensures !evicted ==> m' == m
  {
  }

  /** setLinkKey touches the key, its epoch and flag, and the two counters of one peer. */
  lemma KeySet(m: PeerMap, m': PeerMap, mac: Mac, key: Bytes, epoch: uint8, ok: bool)
    requires KeyStep(m, m', mac, key, epoch, ok) && mac in m
    ensures m'.Keys == m.Keys && forall k :: k in m && k != mac ==> m'[k] == m[k]
    ensures var e, e' := m[mac], m'[mac];
            && e'.keyEstablished && e'.linkKey == key && e'.epoch == epoch && e'.lastSeqTx == 0 && e'.lastSeqRx == 0
            && e'.mac == e.mac && e'.valid == e.valid && e'.lastSeen == e.lastSeen && e'.rssiEwma == e.rssiEwma
            && e'.routeCount == e.routeCount && e'.isBattery == e.isBattery && e'.sleepIntervalMs == e.sleepIntervalMs
  {
  }

  /** checkAndUpdateSeqRx accepts exactly what lies 1 to 32767 ahead of the last number accepted, and records it. */
  lemma Checked(m: PeerMap, m': PeerMap, mac: Mac, sequence: uint16, accepted: bool)
    requires CheckStep(m, m', mac, sequence, accepted)
    ensures accepted <==> mac in m && 1 <= (sequence - m[mac].lastSeqRx) % 0x1_0000 <= 0x7FFF
    ensures m' == if accepted then m[mac := m[mac].(lastSeqRx := sequence)] else m
  {
    if mac in m { FresherIsAhead(sequence, m[mac].lastSeqRx); }
  }

  /** Evicting from a full table and then adding is one addPeer step. */
  lemma AddAfterEviction(full: PeerMap, reduced: PeerMap, m': PeerMap, mac: Mac, now: uint32, ok: bool)
    requires mac !in full && |full| >= MAX_PEERS && |reduced| < MAX_PEERS
    requires EvictStep(full, reduced, true) && AddStep(reduced, m', mac, now, ok)
    ensures AddStep(full, m', mac, now, ok) && ok
  {
  }

  /* ----- Registering a peer with its link key ----- */

  /** addPeer has an entry to give. */
  ghost predicate CanAdd(m: PeerMap, mac: Mac)
  {
    mac in m || |m| < MAX_PEERS || !NoVictim(m)
  }

  /** addPeer, then setLinkKey when that gave an entry. */
  ghost predicate RegisterStep(m: PeerMap, m': PeerMap, mac: Mac, key: Bytes, epoch: uint8, now: uint32)
  {
    exists mid, ok :: AddStep(m, mid, mac, now, ok) && if ok then KeyStep(mid, m', mac, key, epoch, true) else m' == mid
  }

  lemma RegisteredBy(m: PeerMap, mid: PeerMap, m': PeerMap, mac: Mac, key: Bytes, epoch: uint8, now: uint32, ok: bool)
    requires AddStep(m, mid, mac, now, ok)
    requires if ok then KeyStep(mid, m', mac, key, epoch, true) else m' == mid
    ensures RegisterStep(m, m', mac, key, epoch, now)
  {
  }

  ghost predicate HoldsKey(m: PeerMap, mac: Mac, key: Bytes)
  {
    mac in m && m[mac].linkKey == key && m[mac].keyEstablished && m[mac].lastSeqRx == 0 && m[mac].lastSeqTx == 0
  }

  /** The peer is now there, with that key and fresh counters, exactly when addPeer had an entry to give. */
  lemma Registered(m: PeerMap, m': PeerMap, mac: Mac, key: Bytes, epoch: uint8, now: uint32)
    requires RegisterStep(m, m', mac, key, epoch, now)
    ensures CanAdd(m, mac) ==> HoldsKey(m', mac, key) && m'[mac].epoch == epoch && m'[mac].lastSeen == now
    ensures !CanAdd(m, mac) ==> m' == m && mac !in m'
  {
  }
}
