/**
 The peer table as a value: 16 slots, open addressing with linear probing from the hash of the
 MAC. The invariant is that no empty slot lies on any entry's probe path.
 */
module PeerTable {
  import opened MeshTypes

  const MAX_PEERS: nat := 16

  datatype PeerEntry = PeerEntry(
    mac: Mac,
    linkKey: Bytes,
    epoch: uint8,
    lastSeqTx: uint16,
    lastSeqRx: uint16,
    lastSeen: uint32,
    rssiEwma: real,
    routeCount: uint8,
    valid: bool,
    keyEstablished: bool,
    isBattery: bool,
    sleepIntervalMs: uint32)

  /** A zeroed entry (memset). */
  const NO_PEER := PeerEntry(Mac(0, 0, 0, 0, 0, 0), [0, 0, 0, 0, 0, 0, 0, 0, 0, 0, 0, 0, 0, 0, 0, 0],
                             0, 0, 0, 0, 0.0, 0, false, false, false, 0)

  type Slots = seq<PeerEntry>

  /** The last four bytes as a big-endian number, modulo the table size. */
  function Hash(mac: Mac): (h: nat)
    ensures h < MAX_PEERS
  {
    var high: int, mid: int, low: int := mac.b2, mac.b3, mac.b4;
    (high * 0x100_0000 + mid * 0x1_0000 + low * 0x100 + mac.b5) % 16
  }

  /** Only the last four bits of a MAC decide its first slot. */
  lemma HashIsLastNibble(mac: Mac)
    ensures Hash(mac) == mac.b5 % 16
  {
  }

  /** How many steps forward from slot a to slot b, going round. */
  function Dist(a: nat, b: nat): (r: nat)
    requires a < MAX_PEERS && b < MAX_PEERS
    ensures r < MAX_PEERS
    ensures r == 0 <==> a == b
  {
    if a <= b then b - a else b + MAX_PEERS - a
  }

  function Next(p: nat): (r: nat)
    requires p < MAX_PEERS
    ensures r < MAX_PEERS
  {
    (p + 1) % 16
  }

  lemma NextIsNearer(p: nat, hole: nat)
    requires p < MAX_PEERS && hole < MAX_PEERS && p != hole
    ensures Dist(Next(p), hole) == Dist(p, hole) - 1
  {
  }

  /** Slot s of the i-th probe from h. */
  lemma ProbeDist(h: nat, i: nat)
    requires h < MAX_PEERS && i < MAX_PEERS
    ensures (h + i) % 16 < MAX_PEERS && Dist(h, (h + i) % 16) == i
  {
  }

  ghost predicate Unique(t: Slots)
  {
    forall i, j :: 0 <= i < |t| && 0 <= j < |t| && i != j && t[i].valid && t[j].valid ==> t[i].mac != t[j].mac
  }

  /** q is probed before s when looking for the peer stored in s. */
  predicate OnPath(t: Slots, q: nat, s: nat)
    requires |t| == MAX_PEERS && q < MAX_PEERS && s < MAX_PEERS
  {
    Dist(Hash(t[s].mac), q) < Dist(Hash(t[s].mac), s)
  }

  ghost predicate NoGaps(t: Slots)
    requires |t| == MAX_PEERS
  {
    forall q, s :: 0 <= q < MAX_PEERS && 0 <= s < MAX_PEERS && t[s].valid && OnPath(t, q, s) ==> t[q].valid
  }

  ghost predicate WellFormed(t: Slots)
  {
    |t| == MAX_PEERS && Unique(t) && NoGaps(t)
  }

  /* ----- The table as a map keyed by MAC ----- */

  ghost function View(t: Slots): map<Mac, PeerEntry>
    requires Unique(t)
  {
    map i | 0 <= i < |t| && t[i].valid :: t[i].mac := t[i]
  }

  lemma ViewAt(t: Slots, i: nat)
    requires Unique(t) && i < |t| && t[i].valid
    ensures t[i].mac in View(t) && View(t)[t[i].mac] == t[i]
  {
  }

  lemma ViewSlot(t: Slots, mac: Mac) returns (i: nat)
    requires Unique(t) && mac in View(t)
    ensures i < |t| && t[i].valid && t[i].mac == mac && View(t)[mac] == t[i]
  {
    i :| 0 <= i < |t| && t[i].valid && t[i].mac == mac;
    ViewAt(t, i);
  }

  /** A map is the table's view when every peer is in it and it has nothing else. */
  lemma ViewIs(t: Slots, m: map<Mac, PeerEntry>)
    requires Unique(t)
    requires forall i :: 0 <= i < |t| && t[i].valid ==> t[i].mac in m && m[t[i].mac] == t[i]
    requires forall k :: k in m ==> exists i :: 0 <= i < |t| && t[i].valid && t[i].mac == k
    ensures View(t) == m
  {
  }

  function IsPeer(): PeerEntry -> bool
  {
    (e: PeerEntry) => e.valid
  }

  function CountPeers(t: Slots): nat
  {
    Count(t, IsPeer())
  }

  /** The stored count is the number of peers in the map. */
  lemma {:induction false} CountIsSize(t: Slots)
    requires Unique(t)
    ensures CountPeers(t) == |View(t)|
  {
    if |t| > 0 {
      var n := |t| - 1;
      var p := t[..n];
      CountIsSize(p);
      ViewLast(t);
      if t[n].valid {
        assert |View(p)[t[n].mac := t[n]]| == |View(p)| + 1 by {
          if t[n].mac in View(p) { var i := ViewSlot(p, t[n].mac); }
        }
      }
    } else {
      assert View(t) == map[];
    }
  }

  lemma ViewLast(t: Slots)
    requires |t| > 0 && Unique(t)
    ensures var n := |t| - 1;
            View(t) == if t[n].valid then View(t[..n])[t[n].mac := t[n]] else View(t[..n])
  {
    var n := |t| - 1;
    var p := t[..n];
    var m := if t[n].valid then View(p)[t[n].mac := t[n]] else View(p);
    forall i | 0 <= i < |t| && t[i].valid
      ensures t[i].mac in m && m[t[i].mac] == t[i]
    {
      if i < n { ViewAt(p, i); }
    }
    forall k | k in m
      ensures exists i :: 0 <= i < |t| && t[i].valid && t[i].mac == k
    {
      if k in View(p) { var i := ViewSlot(p, k); assert t[i] == p[i]; }
    }
    ViewIs(t, m);
  }

  /** Overwriting a slot replaces its peer in the map. */
  lemma ViewUpdate(t: Slots, i: nat, e: PeerEntry)
    requires Unique(t) && i < |t|
    requires e.valid ==> forall j :: 0 <= j < |t| && j != i && t[j].valid ==> t[j].mac != e.mac
    ensures Unique(t[i := e])
    ensures View(t[i := e]) == Replaced(View(t), t[i], e)
  {
    var u := t[i := e];
    var m := Replaced(View(t), t[i], e);
    forall j | 0 <= j < |u| && u[j].valid
      ensures u[j].mac in m && m[u[j].mac] == u[j]
    {
      if j != i { ViewAt(t, j); }
    }
    forall k | k in m
      ensures exists j :: 0 <= j < |u| && u[j].valid && u[j].mac == k
    {
      if e.valid && k == e.mac {
        assert u[i] == e;
      } else {
        var j := ViewSlot(t, k);
        assert u[j] == t[j];
      }
    }
    ViewIs(u, m);
  }

  ghost function Replaced(m: map<Mac, PeerEntry>, was: PeerEntry, e: PeerEntry): map<Mac, PeerEntry>
  {
    var rest := if was.valid then m - {was.mac} else m;
    if e.valid then rest[e.mac := e] else rest
  }

  /* ----- Probing ----- */

  /** Where the probe for mac ends when it walks i steps through other peers. */
  ghost predicate ProbedPast(t: Slots, mac: Mac, i: nat)
    requires |t| == MAX_PEERS
  {
    forall q :: 0 <= q < MAX_PEERS && Dist(Hash(mac), q) < i ==> t[q].valid && t[q].mac != mac
  }

  /** An empty slot ends the search: with no gaps, the peer cannot be stored farther on. */
  lemma EmptySlotEndsSearch(t: Slots, mac: Mac, p: nat)
    requires WellFormed(t) && p < MAX_PEERS && !t[p].valid
    requires ProbedPast(t, mac, Dist(Hash(mac), p))
    ensures mac !in View(t)
  {
  }

  lemma WholeLapEndsSearch(t: Slots, mac: Mac)
    requires |t| == MAX_PEERS && Unique(t) && ProbedPast(t, mac, MAX_PEERS)
    ensures mac !in View(t)
  {
  }

  /** p is the first empty slot counting from h. */
  ghost predicate FirstEmpty(t: Slots, h: nat, p: nat)
    requires |t| == MAX_PEERS && h < MAX_PEERS
  {
    && p < MAX_PEERS && !t[p].valid
    && forall q :: 0 <= q < MAX_PEERS && Dist(h, q) < Dist(h, p) ==> t[q].valid
  }

  /** Linear-probing insertion keeps probe paths free of gaps. */
  lemma InsertKeepsPaths(t: Slots, e: PeerEntry, p: nat)
    requires WellFormed(t) && e.valid && e.mac !in View(t) && FirstEmpty(t, Hash(e.mac), p)
    ensures WellFormed(t[p := e])
    ensures View(t[p := e]) == View(t)[e.mac := e]
    ensures CountPeers(t[p := e]) == CountPeers(t) + 1
  {
    forall j | 0 <= j < |t| && j != p && t[j].valid
      ensures t[j].mac != e.mac
    {
    }
    ViewUpdate(t, p, e);
    CountUpdate(t, IsPeer(), p, e);
    var u := t[p := e];
    forall q, s | 0 <= q < MAX_PEERS && 0 <= s < MAX_PEERS && u[s].valid && OnPath(u, q, s)
      ensures u[q].valid
    {
      if s != p { assert OnPath(t, q, s); }
    }
  }

  /** Changing other fields of a peer in place. */
  lemma TouchKeepsPaths(t: Slots, i: nat, e: PeerEntry)
    requires WellFormed(t) && i < MAX_PEERS && t[i].valid && e.valid && e.mac == t[i].mac
    ensures WellFormed(t[i := e])
    ensures View(t[i := e]) == View(t)[e.mac := e]
    ensures CountPeers(t[i := e]) == CountPeers(t)
  {
    ViewUpdate(t, i, e);
    CountUpdate(t, IsPeer(), i, e);
    var u := t[i := e];
    forall q, s | 0 <= q < MAX_PEERS && 0 <= s < MAX_PEERS && u[s].valid && OnPath(u, q, s)
      ensures u[q].valid
    {
      assert OnPath(t, q, s);
    }
  }

  /* ----- Deletion: the rehash loop ----- */

  /** Every slot from pos up to and including s is occupied. */
  ghost predicate Run(t: Slots, pos: nat, s: nat)
    requires |t| == MAX_PEERS && pos < MAX_PEERS && s < MAX_PEERS
  {
    forall r :: 0 <= r < MAX_PEERS && Dist(pos, r) <= Dist(pos, s) ==> t[r].valid
  }

  /**
   The state at the head of the rehash loop: a gap may remain only on the path of an entry
   that the loop, standing at pos, still has ahead of it in an unbroken run.
   */
  ghost predicate GapsOnlyAhead(t: Slots, pos: nat)
    requires |t| == MAX_PEERS && pos < MAX_PEERS
  {
    forall q, s :: 0 <= q < MAX_PEERS && 0 <= s < MAX_PEERS && t[s].valid && !t[q].valid && OnPath(t, q, s)
                   ==> Run(t, pos, s)
  }

  /** Opening a hole at idx leaves gaps only ahead of the next slot. */
  lemma HoleOpens(t: Slots, idx: nat)
    requires WellFormed(t) && idx < MAX_PEERS && t[idx].valid
    ensures GapsOnlyAhead(t[idx := NO_PEER], Next(idx))
  {
  }

  /** At an empty slot no gap is left at all. */
  lemma LoopDone(t: Slots, pos: nat)
    requires |t| == MAX_PEERS && pos < MAX_PEERS && !t[pos].valid && GapsOnlyAhead(t, pos)
    ensures NoGaps(t)
  {
  }

  /** The table after the entry at pos has been lifted out and put into slot np. */
  function Moved(t: Slots, pos: nat, np: nat): (u: Slots)
    requires |t| == MAX_PEERS && pos < MAX_PEERS && np < MAX_PEERS
    ensures |u| == MAX_PEERS
  {
    t[pos := t[pos].(valid := false)][np := t[pos]]
  }

  /** The entry at pos, taken out, finds its first free slot np at pos or nearer to its hash. */
  ghost predicate Rehomes(t: Slots, pos: nat, np: nat)
    requires |t| == MAX_PEERS && pos < MAX_PEERS
  {
    t[pos].valid && FirstEmpty(t[pos := t[pos].(valid := false)], Hash(t[pos].mac), np)
  }

  lemma RehashStays(t: Slots, pos: nat)
    requires |t| == MAX_PEERS && pos < MAX_PEERS && Rehomes(t, pos, pos) && GapsOnlyAhead(t, pos)
    ensures GapsOnlyAhead(t, Next(pos))
  {
    var v := t[pos := t[pos].(valid := false)];
    forall q, s | 0 <= q < MAX_PEERS && 0 <= s < MAX_PEERS && t[s].valid && !t[q].valid && OnPath(t, q, s)
      ensures Run(t, Next(pos), s)
    {
      assert Run(t, pos, s);
      assert Dist(Hash(t[pos].mac), q) < Dist(Hash(t[pos].mac), pos) ==> v[q].valid;
      assert s != pos;
      RunShrinks(t, pos, s);
    }
  }

  lemma RunShrinks(t: Slots, pos: nat, s: nat)
    requires |t| == MAX_PEERS && pos < MAX_PEERS && s < MAX_PEERS && s != pos && Run(t, pos, s)
    ensures Run(t, Next(pos), s)
  {
  }

  lemma RehashMoves(t: Slots, pos: nat, np: nat)
    requires |t| == MAX_PEERS && pos < MAX_PEERS && Rehomes(t, pos, np) && np != pos && GapsOnlyAhead(t, pos)
    ensures Dist(Hash(t[pos].mac), np) < Dist(Hash(t[pos].mac), pos) && !t[np].valid
    ensures GapsOnlyAhead(Moved(t, pos, np), Next(pos))
  {
    var v := t[pos := t[pos].(valid := false)];
    var u := Moved(t, pos, np);
    assert Dist(Hash(t[pos].mac), np) < Dist(Hash(t[pos].mac), pos) by {
      assert !v[pos].valid;
      assert Dist(Hash(t[pos].mac), np) != Dist(Hash(t[pos].mac), pos);
    }
    forall q, s | 0 <= q < MAX_PEERS && 0 <= s < MAX_PEERS && u[s].valid && !u[q].valid && OnPath(u, q, s)
      ensures Run(u, Next(pos), s)
    {
      assert s != pos;
      assert Dist(Hash(t[pos].mac), q) < Dist(Hash(t[pos].mac), np) ==> v[q].valid;
      if s != np {
        assert u[s] == t[s];
        forall r | 0 <= r < MAX_PEERS && Dist(Next(pos), r) <= Dist(Next(pos), s)
          ensures u[r].valid
        {
          MovedRunSlot(t, pos, np, q, s, r);
        }
      }
    }
  }

  /** Walking forward from p to s, every slot r met on the way is nearer than s, from p and from any h before p. */
  lemma Between(h: nat, p: nat, s: nat, r: nat)
    requires h < MAX_PEERS && p < MAX_PEERS && s < MAX_PEERS && r < MAX_PEERS
    requires s != p && Dist(Next(p), r) <= Dist(Next(p), s)
    ensures r != p && Dist(p, r) <= Dist(p, s)
    ensures Dist(h, p) < Dist(h, s) && r != s ==> Dist(h, r) < Dist(h, s)
  {
  }

  /** Inside RehashMoves: a hole r behind q on the way to s was a hole before, which the invariant forbids. */
  lemma MovedRunSlot(t: Slots, pos: nat, np: nat, q: nat, s: nat, r: nat)
    requires |t| == MAX_PEERS && pos < MAX_PEERS && np < MAX_PEERS && q < MAX_PEERS && s < MAX_PEERS && r < MAX_PEERS
    requires t[pos].valid && !t[np].valid && np != pos && GapsOnlyAhead(t, pos)
    requires s != pos && s != np && t[s].valid && OnPath(t, q, s)
    requires !Moved(t, pos, np)[q].valid
    requires Dist(Next(pos), r) <= Dist(Next(pos), s)
    ensures Moved(t, pos, np)[r].valid
  {
    Between(Hash(t[s].mac), pos, s, r);
    assert Moved(t, pos, np)[r].valid <==> t[r].valid || r == np;
    if q == pos {
      assert r != s ==> OnPath(t, r, s);
    } else {
      assert Run(t, pos, s);
    }
  }

  /** Lifting the entry at pos out and putting it into the free slot np loses nothing. */
  lemma MovedKeepsPeers(t: Slots, pos: nat, np: nat)
    requires |t| == MAX_PEERS && pos < MAX_PEERS && np < MAX_PEERS && Unique(t)
    requires t[pos].valid && (np == pos || !t[np].valid)
    ensures Unique(Moved(t, pos, np)) && View(Moved(t, pos, np)) == View(t)
  {
    var e := t[pos];
    ViewAt(t, pos);
    ViewUpdate(t, pos, e.(valid := false));
    ViewUpdate(t[pos := e.(valid := false)], np, e);
    assert View(t) == (View(t) - {e.mac})[e.mac := e];
  }

  lemma MovedKeepsCount(t: Slots, pos: nat, np: nat)
    requires |t| == MAX_PEERS && pos < MAX_PEERS && np < MAX_PEERS
    requires t[pos].valid && (np == pos || !t[np].valid)
    ensures CountPeers(Moved(t, pos, np)) == CountPeers(t)
  {
    var e := t[pos];
    CountUpdate(t, IsPeer(), pos, e.(valid := false));
    CountUpdate(t[pos := e.(valid := false)], IsPeer(), np, e);
  }

  lemma MovedLowersDisplacement(t: Slots, pos: nat, np: nat)
    requires |t| == MAX_PEERS && pos < MAX_PEERS && np < MAX_PEERS && np != pos
    requires t[pos].valid && !t[np].valid && Dist(Hash(t[pos].mac), np) < Dist(Hash(t[pos].mac), pos)
    ensures Displacement(Moved(t, pos, np)) < Displacement(t)
  {
    var e := t[pos];
    DisplacementUpdate(t, pos, e.(valid := false), |t|);
    DisplacementUpdate(t[pos := e.(valid := false)], np, e, |t|);
  }

  /** One turn of the loop keeps the invariant, the peers and their number. */
  lemma RehashStep(t: Slots, pos: nat, np: nat)
    requires |t| == MAX_PEERS && pos < MAX_PEERS && Unique(t) && Rehomes(t, pos, np) && GapsOnlyAhead(t, pos)
    ensures var u := Moved(t, pos, np);
            && Unique(u) && GapsOnlyAhead(u, Next(pos))
            && View(u) == View(t) && CountPeers(u) == CountPeers(t)
            && (np != pos ==> !u[pos].valid && Displacement(u) < Displacement(t))
            && (np == pos ==> u == t)
  {
    if np == pos {
      RehashStays(t, pos);
      assert Moved(t, pos, np) == t;
    } else {
      RehashMoves(t, pos, np);
      MovedLowersDisplacement(t, pos, np);
    }
    MovedKeepsPeers(t, pos, np);
    MovedKeepsCount(t, pos, np);
  }

  /* ----- Termination measure ----- */

  function SlotDisplacement(t: Slots, s: nat): nat
    requires |t| == MAX_PEERS && s < MAX_PEERS
  {
    if t[s].valid then Dist(Hash(t[s].mac), s) else 0
  }

  function DisplacementUpTo(t: Slots, n: nat): nat
    requires |t| == MAX_PEERS && n <= MAX_PEERS
  {
    if n == 0 then 0 else DisplacementUpTo(t, n - 1) + SlotDisplacement(t, n - 1)
  }

  /** The sum of all probe displacements. */
  function Displacement(t: Slots): nat
    requires |t| == MAX_PEERS
  {
    DisplacementUpTo(t, |t|)
  }

  lemma {:induction false} DisplacementUpdate(t: Slots, i: nat, e: PeerEntry, n: nat)
    requires |t| == MAX_PEERS && i < MAX_PEERS && n <= MAX_PEERS
    ensures var u := t[i := e];
            DisplacementUpTo(u, n) ==
            DisplacementUpTo(t, n) + (if i < n then SlotDisplacement(u, i) - SlotDisplacement(t, i) else 0)
  {
    if n > 0 { DisplacementUpdate(t, i, e, n - 1); }
  }
}
