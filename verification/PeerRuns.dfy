/**
 Whole runs of a peer table, in terms of its map: what the 16-bit sequence counters of one peer
 guarantee, and where its link key comes from, while other peers come, go and are evicted.
 */
module PeerRuns {
  import opened MeshTypes
  import opened PeerTable
  import opened PeerMaps

  const WRAP: int := 0x1_0000

  datatype Event =
    | Add(mac: Mac, now: uint32, ok: bool)
    | Remove(mac: Mac, ok: bool)
    | Evict(ok: bool)
    | SetKey(mac: Mac, key: Bytes, epoch: uint8, ok: bool)
    | Check(mac: Mac, sequence: uint16, accepted: bool)
    | Send(mac: Mac, sequence: uint16)
    | Touch(mac: Mac, entry: PeerEntry)   // other fields written through a pointer to the entry

  ghost predicate PeerStep(m: PeerMap, ev: Event, m': PeerMap)
  {
    match ev
    case Add(mac, now, ok) => AddStep(m, m', mac, now, ok)
    case Remove(mac, ok) => RemoveStep(m, m', mac, ok)
    case Evict(ok) => EvictStep(m, m', ok)
    case SetKey(mac, key, epoch, ok) => KeyStep(m, m', mac, key, epoch, ok)
    case Check(mac, sequence, accepted) => CheckStep(m, m', mac, sequence, accepted)
    case Send(mac, sequence) => SendStep(m, m', mac, sequence)
    case Touch(mac, e) => mac in m && e.mac == mac && Bookkeeping(m[mac], e) && m' == m[mac := e]
  }

  /** Only setLinkKey writes a key or says that there is one, and only the counters' own methods move them. */
  predicate Bookkeeping(was: PeerEntry, e: PeerEntry)
  {
    && e.linkKey == was.linkKey && (e.keyEstablished ==> was.keyEstablished)
    && e.lastSeqTx == was.lastSeqTx && e.lastSeqRx == was.lastSeqRx
  }

  /** A run: the map before and after each event. */
  datatype History = History(maps: seq<PeerMap>, events: seq<Event>)

  ghost predicate StepAt(h: History, i: nat)
    requires i < |h.events| && |h.maps| == |h.events| + 1
  {
    PeerStep(h.maps[i], h.events[i], h.maps[i + 1])
  }

  ghost predicate IsRun(h: History)
  {
    |h.maps| == |h.events| + 1 && forall i :: 0 <= i < |h.events| ==> StepAt(h, i)
  }

  /** Peer k stays in the table throughout and is not given a new link key. */
  ghost predicate NotReset(h: History, k: Mac)
  {
    && (forall i :: 0 <= i < |h.maps| ==> k in h.maps[i])
    && (forall i :: 0 <= i < |h.events| ==> !(h.events[i].SetKey? && h.events[i].mac == k))
  }

  predicate Accepts(ev: Event, k: Mac)
  {
    ev.Check? && ev.mac == k && ev.accepted
  }

  /** How far the accepted number lies ahead of the last one, modulo 2^16. */
  function Advance(h: History, k: Mac, i: nat): nat
    requires |h.maps| == |h.events| + 1 && i < |h.events| && k in h.maps[i]
  {
    if Accepts(h.events[i], k) then (h.events[i].sequence - h.maps[i][k].lastSeqRx) % WRAP else 0
  }

  /** The unbounded counter behind lastSeqRx after i events. */
  ghost function Lifted(h: History, k: Mac, i: nat): nat
    requires IsRun(h) && NotReset(h, k) && i <= |h.events|
  {
    if i == 0 then h.maps[0][k].lastSeqRx else Lifted(h, k, i - 1) + Advance(h, k, i - 1)
  }

  function AcceptedIn(events: seq<Event>, k: Mac, lo: nat, hi: nat): nat
    requires lo <= hi <= |events|
  {
    if lo == hi then 0 else AcceptedIn(events, k, lo, hi - 1) + (if Accepts(events[hi - 1], k) then 1 else 0)
  }

  /** An event moves the counter of k forward by 1 to 32767 when it is an acceptance, and not at all otherwise. */
  lemma StepAdvances(h: History, k: Mac, i: nat)
    requires IsRun(h) && NotReset(h, k) && i < |h.events|
    ensures k in h.maps[i] && k in h.maps[i + 1]
    ensures if Accepts(h.events[i], k)
            then 1 <= Advance(h, k, i) <= 0x7FFF && h.maps[i + 1][k].lastSeqRx == h.events[i].sequence
            else Advance(h, k, i) == 0 && h.maps[i + 1][k].lastSeqRx == h.maps[i][k].lastSeqRx
    ensures h.events[i].Check? && h.events[i].mac == k ==>
              (h.events[i].accepted <==> 1 <= (h.events[i].sequence - h.maps[i][k].lastSeqRx) % 0x1_0000 <= 0x7FFF)
  {
    assert StepAt(h, i);
    assert k in h.maps[i + 1];
    if h.events[i].Check? {
      Checked(h.maps[i], h.maps[i + 1], h.events[i].mac, h.events[i].sequence, h.events[i].accepted);
    }
  }

  /**
   The accepted 16-bit numbers of a peer that is not reset lift to an unbounded counter: it
   is congruent to lastSeqRx, grows at every acceptance by 1 to 32767, and nothing done to
   other peers moves it.
   */
  lemma {:induction false} CounterLifts(h: History, k: Mac, i: nat)
    requires IsRun(h) && NotReset(h, k) && i <= |h.events|
    ensures Lifted(h, k, i) % WRAP == h.maps[i][k].lastSeqRx
    ensures i < |h.events| ==>
              if Accepts(h.events[i], k)
              then Lifted(h, k, i) < Lifted(h, k, i + 1) <= Lifted(h, k, i) + 0x7FFF
                   && Lifted(h, k, i + 1) % WRAP == h.events[i].sequence
              else Lifted(h, k, i + 1) == Lifted(h, k, i)
  {
    if i > 0 {
      CounterLifts(h, k, i - 1);
      StepAdvances(h, k, i - 1);
      AddModulo(Lifted(h, k, i - 1), h.maps[i - 1][k].lastSeqRx, h.maps[i][k].lastSeqRx);
    }
    if i < |h.events| {
      StepAdvances(h, k, i);
      AddModulo(Lifted(h, k, i), h.maps[i][k].lastSeqRx, h.maps[i + 1][k].lastSeqRx);
    }
  }

  lemma AddModulo(lifted: nat, last: uint16, sequence: uint16)
    requires lifted % WRAP == last
    ensures (lifted + (sequence - last) % WRAP) % WRAP == sequence
  {
  }

  /** A number that lies 1 to 32767 ahead of that counter is always accepted, and no other is. */
  lemma AcceptedIffAhead(h: History, k: Mac, i: nat)
    requires IsRun(h) && NotReset(h, k) && i < |h.events| && h.events[i].Check? && h.events[i].mac == k
    ensures h.events[i].accepted <==> 1 <= (h.events[i].sequence - Lifted(h, k, i)) % WRAP <= 0x7FFF
  {
    CounterLifts(h, k, i);
    StepAdvances(h, k, i);
    LastModulo(h.events[i].sequence, Lifted(h, k, i));
  }

  lemma LastModulo(a: int, b: nat)
    ensures (a - b % WRAP) % WRAP == (a - b) % WRAP
  {
  }

  lemma {:induction false} BoundedGrowth(h: History, k: Mac, lo: nat, hi: nat)
    requires IsRun(h) && NotReset(h, k) && lo <= hi <= |h.events|
    ensures Lifted(h, k, lo) <= Lifted(h, k, hi) <= Lifted(h, k, lo) + 0x7FFF * AcceptedIn(h.events, k, lo, hi)
  {
    if lo < hi {
      BoundedGrowth(h, k, lo, hi - 1);
      StepAdvances(h, k, hi - 1);
    }
  }

  /** The same sequence number is accepted again only after at least two other acceptances. */
  lemma ReplayNeedsTwoOthers(h: History, k: Mac, i: nat, j: nat)
    requires IsRun(h) && NotReset(h, k) && i < j < |h.events|
    requires Accepts(h.events[i], k) && Accepts(h.events[j], k)
    requires h.events[i].sequence == h.events[j].sequence
    ensures AcceptedIn(h.events, k, i + 1, j) >= 2
  {
    CounterLifts(h, k, i);
    CounterLifts(h, k, j);
    BoundedGrowth(h, k, i + 1, j);
    WholeLap(Lifted(h, k, i + 1), Lifted(h, k, j + 1));
  }

  lemma WholeLap(a: nat, b: nat)
    requires a < b && a % WRAP == b % WRAP
    ensures b - a >= 0x1_0000
  {
  }

  /* ----- Numbers sent, and numbers accepted ----- */

  predicate Sends(ev: Event, k: Mac)
  {
    ev.Send? && ev.mac == k
  }

  function SentIn(events: seq<Event>, k: Mac, n: nat): nat
    requires n <= |events|
  {
    if n == 0 then 0 else SentIn(events, k, n - 1) + (if Sends(events[n - 1], k) then 1 else 0)
  }

  lemma SendStepAt(h: History, k: Mac, i: nat)
    requires IsRun(h) && NotReset(h, k) && i < |h.events|
    ensures k in h.maps[i] && k in h.maps[i + 1]
    ensures if Sends(h.events[i], k)
            then h.events[i].sequence == h.maps[i + 1][k].lastSeqTx == (h.maps[i][k].lastSeqTx + 1) % 0x1_0000
            else h.maps[i + 1][k].lastSeqTx == h.maps[i][k].lastSeqTx
  {
    assert StepAt(h, i) && k in h.maps[i + 1];
  }

  /** The numbers sent to a peer that is not reset are consecutive modulo 2^16. */
  lemma {:induction false} SentInOrder(h: History, k: Mac, i: nat)
    requires IsRun(h) && NotReset(h, k) && i <= |h.events|
    ensures h.maps[i][k].lastSeqTx == (h.maps[0][k].lastSeqTx + SentIn(h.events, k, i)) % WRAP
    ensures i < |h.events| && Sends(h.events[i], k) ==>
              h.events[i].sequence == (h.maps[0][k].lastSeqTx + SentIn(h.events, k, i) + 1) % WRAP
  {
    if i > 0 {
      SentInOrder(h, k, i - 1);
      SendStepAt(h, k, i - 1);
      Successor(h.maps[0][k].lastSeqTx + SentIn(h.events, k, i - 1));
    }
    if i < |h.events| {
      SendStepAt(h, k, i);
      Successor(h.maps[0][k].lastSeqTx + SentIn(h.events, k, i));
    }
  }

  lemma Successor(a: nat)
    ensures (a % WRAP + 1) % 0x1_0000 == (a + 1) % WRAP
  {
  }

  /**
   Sender against receiver: when the last number that a receiver accepted is that of the sender's frame
   number c, a frame at most 32767 before or after it is accepted exactly when it was sent later.
   */
  lemma AcceptedIffLater(h: History, k: Mac, i: nat, c: nat, m: PeerMap, m': PeerMap, sender: Mac, accepted: bool)
    requires IsRun(h) && NotReset(h, k) && i < |h.events| && Sends(h.events[i], k)
    requires sender in m && m[sender].lastSeqRx == (h.maps[0][k].lastSeqTx + c) % WRAP
    requires PeerStep(m, Check(sender, h.events[i].sequence, accepted), m')
    requires -0x7FFF <= SentIn(h.events, k, i + 1) - c <= 0x7FFF
    ensures accepted <==> SentIn(h.events, k, i + 1) > c
    ensures accepted ==> m'[sender].lastSeqRx == (h.maps[0][k].lastSeqTx + SentIn(h.events, k, i + 1)) % WRAP
  {
    SentInOrder(h, k, i);
    Checked(m, m', sender, h.events[i].sequence, accepted);
    Ahead(h.maps[0][k].lastSeqTx + SentIn(h.events, k, i + 1), h.maps[0][k].lastSeqTx + c);
  }

  lemma Ahead(a: nat, b: nat)
    requires -0x7FFF <= a - b <= 0x7FFF
    ensures 1 <= (a % WRAP - b % WRAP) % 0x1_0000 <= 0x7FFF <==> a > b
  {
  }

  /* ----- Where a link key comes from ----- */

  ghost predicate Keyed(m: PeerMap, k: Mac, key: Bytes)
  {
    k in m && m[k].keyEstablished && m[k].linkKey == key
  }

  predicate SetsKey(ev: Event, k: Mac, key: Bytes)
  {
    ev.SetKey? && ev.mac == k && ev.key == key && ev.ok
  }

  /** No step but setLinkKey gives a peer an established key, or another one. */
  lemma KeyedStep(m: PeerMap, ev: Event, m': PeerMap, k: Mac, key: Bytes)
    requires PeerStep(m, ev, m') && Keyed(m', k, key)
    ensures Keyed(m, k, key) || SetsKey(ev, k, key)
  {
    if ev.Add? && ev.ok { Added(m, m', ev.mac, ev.now); }
  }

  /** An established key was set by setLinkKey, and has been there ever since. */
  lemma {:induction false} KeySetBefore(h: History, k: Mac, key: Bytes, i: nat) returns (j: nat)
    requires IsRun(h) && i <= |h.events| && Keyed(h.maps[i], k, key) && !Keyed(h.maps[0], k, key)
    ensures j < i && SetsKey(h.events[j], k, key)
    ensures forall n :: j < n <= i ==> Keyed(h.maps[n], k, key)
  {
    assert StepAt(h, i - 1);
    KeyedStep(h.maps[i - 1], h.events[i - 1], h.maps[i], k, key);
    if SetsKey(h.events[i - 1], k, key) {
      j := i - 1;
    } else {
      j := KeySetBefore(h, k, key, i - 1);
    }
  }
}
