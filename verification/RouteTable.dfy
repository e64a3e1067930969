/**
 Route tables as values: what every operation of the router does to its slots, and the
 properties of those operations that do not depend on the class holding the table.
 */
module RouteTable {
  import opened MeshTypes
  import opened Bits

  const MAX_ROUTES: nat := 64
  const INFINITY: uint8 := 16
  const ROUTE_EXPIRE_MS: int := 90000

  datatype RouteEntry = RouteEntry(
    destIP: uint32,
    destMac: Mac,
    nextHopMac: Mac,
    hopCount: uint8,
    metric: uint8,
    lastUpdated: uint32,
    valid: bool)

  type Table = seq<RouteEntry>

  /* ----- Searches ----- */

  function HasIP(ip: uint32): RouteEntry -> bool
  {
    (e: RouteEntry) => e.valid && e.destIP == ip
  }

  function HasMac(mac: Mac): RouteEntry -> bool
  {
    (e: RouteEntry) => e.valid && e.destMac == mac
  }

  function IsFree(): RouteEntry -> bool
  {
    (e: RouteEntry) => !e.valid
  }

  function FindIP(t: Table, ip: uint32): nat
  {
    FirstIndex(t, HasIP(ip))
  }

  function FindMac(t: Table, mac: Mac): nat
  {
    FirstIndex(t, HasMac(mac))
  }

  function FindFree(t: Table): nat
  {
    FirstIndex(t, IsFree())
  }

  function Lookup(t: Table, ip: uint32): Option<RouteEntry>
  {
    var i := FindIP(t, ip);
    if i < |t| then Some(t[i]) else None
  }

  /** Slot i holds the first valid route to d. */
  predicate FirstRoute(t: Table, d: Mac, i: nat)
  {
    && i < |t| && t[i].valid && t[i].destMac == d
    && forall j :: 0 <= j < i && t[j].valid ==> t[j].destMac != d
  }

  lemma FirstRouteFound(t: Table, d: Mac)
    ensures forall i: nat :: FirstRoute(t, d, i) <==> i < |t| && i == FindMac(t, d)
  {
    var k := FindMac(t, d);
    forall i: nat
      ensures FirstRoute(t, d, i) <==> i < |t| && i == k
    {
      if FirstRoute(t, d, i) { FirstIndexUnique(t, HasMac(d), i); }
    }
  }

  /* ----- The table as a partial map keyed by IP ----- */

  ghost predicate Unique(t: Table)
  {
    forall i, j :: 0 <= i < j < |t| && t[i].valid && t[j].valid ==> t[i].destIP != t[j].destIP
  }

  function IsRoute(): RouteEntry -> bool
  {
    (e: RouteEntry) => e.valid
  }

  function CountValid(t: Table): nat
  {
    Count(t, IsRoute())
  }

  lemma FullWhenNoFree(t: Table)
    ensures FindFree(t) == |t| <==> CountValid(t) == |t|
    ensures FindFree(t) < |t| ==> CountValid(t) < |t|
  {
    CountExtremes(t, IsRoute());
    var f := FindFree(t);
    if f < |t| {
      assert IsFree()(t[f]) && !IsRoute()(t[f]);
    } else {
      forall i | 0 <= i < |t|
        ensures IsRoute()(t[i])
      {
        assert !IsFree()(t[i]);
      }
    }
  }

  /** With unique destinations, any valid slot for an IP is the one the search finds. */
  lemma LookupOf(t: Table, i: nat)
    requires Unique(t) && i < |t| && t[i].valid
    ensures FindIP(t, t[i].destIP) == i
    ensures Lookup(t, t[i].destIP) == Some(t[i])
  {
  }

  lemma LookupSome(t: Table, ip: uint32)
    ensures Lookup(t, ip).Some? <==> exists i :: 0 <= i < |t| && t[i].valid && t[i].destIP == ip
    ensures Lookup(t, ip).Some? ==> FindIP(t, ip) < |t| && Lookup(t, ip).value == t[FindIP(t, ip)]
                                    && Lookup(t, ip).value.valid && Lookup(t, ip).value.destIP == ip
  {
  }

  /** Overwriting slot i changes the map only at the slot's old and new destination. */
  lemma LookupUpdate(t: Table, i: nat, e: RouteEntry, ip: uint32)
    requires Unique(t) && i < |t|
    requires e.valid ==> forall j :: 0 <= j < |t| && j != i && t[j].valid ==> t[j].destIP != e.destIP
    ensures Unique(t[i := e])
    ensures Lookup(t[i := e], ip) ==
            if e.valid && e.destIP == ip then Some(e)
            else if t[i].valid && t[i].destIP == ip then None
            else Lookup(t, ip)
  {
    var u := t[i := e];
    LookupSome(t, ip);
    LookupSome(u, ip);
    if Lookup(u, ip).Some? {
      var k := FindIP(u, ip);
      LookupOf(u, k);
      if k != i { LookupOf(t, k); }
    }
    if e.valid && e.destIP == ip {
      LookupOf(u, i);
    } else if Lookup(t, ip).Some? {
      var k := FindIP(t, ip);
      if k != i {
        assert u[k] == t[k];
        LookupOf(u, k);
      }
    }
  }

  /* ----- Eviction ----- */

  function Age(now: uint32, e: RouteEntry): nat
  {
    (now - e.lastUpdated) % 0x1_0000_0000
  }

  /** ((uint32_t)hopCount << 24) | (age >> 8) */
  function Score(now: uint32, e: RouteEntry): nat
  {
    BitOr(e.hopCount * Pow2(24), Age(now, e) / 256)
  }

  lemma ScoreValue(now: uint32, e: RouteEntry)
    ensures Score(now, e) == e.hopCount * 0x100_0000 + Age(now, e) / 256 < 0x1_0000_0000
    ensures Age(now, e) / 256 < 0x100_0000
    ensures e.lastUpdated <= now ==> Age(now, e) == now - e.lastUpdated
  {
    Pow2Of24();
    BitOrDisjoint(e.hopCount, 24, Age(now, e) / 256);
  }

  lemma Pow2Of24()
    ensures Pow2(24) == 0x100_0000
  {
    assert Pow2(8) == 256;
    assert Pow2(16) == 0x1_0000;
  }

  /** The running maximum kept by the eviction scan over the first n slots. */
  function EvictionScan(t: Table, now: uint32, n: nat): (r: (int, nat))
    requires n <= |t|
    ensures -1 <= r.0 < n
  {
    if n == 0 then (-1, 0)
    else
      var r := EvictionScan(t, now, n - 1);
      if t[n - 1].valid && Score(now, t[n - 1]) > r.1 then (n - 1, Score(now, t[n - 1])) else r
  }

  function EvictionCandidate(t: Table, now: uint32): int
  {
    EvictionScan(t, now, |t|).0
  }

  /** a is the worse route to keep: more hops, or as many hops and older in 256 ms units. */
  predicate Worse(now: uint32, a: RouteEntry, b: RouteEntry)
  {
    a.hopCount > b.hopCount || (a.hopCount == b.hopCount && Age(now, a) / 256 > Age(now, b) / 256)
  }

  lemma {:induction false} EvictionScanMax(t: Table, now: uint32, n: nat)
    requires n <= |t|
    ensures var (c, w) := EvictionScan(t, now, n);
            && (c == -1 ==> w == 0)
            && (c >= 0 ==> t[c].valid && w == Score(now, t[c]) > 0)
            && (forall j :: 0 <= j < n && t[j].valid ==> Score(now, t[j]) <= w)
            && (forall j :: 0 <= j < c && t[j].valid ==> Score(now, t[j]) < w)
  {
    if n > 0 { EvictionScanMax(t, now, n - 1); }
  }

  /**
   The candidate is the first slot that is worst in the lexicographic order (hops, age / 256),
   and there is none exactly when every valid slot has zero hops and an age below 256 ms.
   */
  lemma EvictionIsLexicographic(t: Table, now: uint32)
    ensures var c := EvictionCandidate(t, now);
            && (c == -1 <==> forall j :: 0 <= j < |t| && t[j].valid ==> t[j].hopCount == 0 && Age(now, t[j]) < 256)
            && (c >= 0 ==>
                  && c < |t| && t[c].valid
                  && (forall j :: 0 <= j < |t| && t[j].valid ==> !Worse(now, t[j], t[c]))
                  && (forall j :: 0 <= j < c && t[j].valid ==> Worse(now, t[c], t[j])))
  {
    var c := EvictionCandidate(t, now);
    EvictionScanMax(t, now, |t|);
    forall j | 0 <= j < |t|
      ensures Score(now, t[j]) == t[j].hopCount * 0x100_0000 + Age(now, t[j]) / 256
      ensures Age(now, t[j]) / 256 < 0x100_0000
    {
      ScoreValue(now, t[j]);
    }
  }

  /* ----- addRoute ----- */

  /** slot is the returned entry (-1 for nullptr); changed says whether a slot was written. */
  datatype AddResult = AddResult(table: Table, slot: int, changed: bool)

  function NewRoute(ip: uint32, mac: Mac, nextHop: Mac, hop: uint8, now: uint32): RouteEntry
  {
    RouteEntry(ip, mac, nextHop, hop, hop, now, true)
  }

  function AddRoute(t: Table, ip: uint32, mac: Mac, nextHop: Mac, hop: uint8, now: uint32): (r: AddResult)
  {
    var i := FindIP(t, ip);
    if i < |t| then
      if t[i].hopCount == 1 && t[i].nextHopMac != nextHop then AddResult(t, i, false)
      else if hop < t[i].hopCount || t[i].nextHopMac == nextHop then
        AddResult(t[i := t[i].(nextHopMac := nextHop, hopCount := hop, metric := hop, lastUpdated := now)], i, true)
      else AddResult(t, i, false)
    else
      var f := FindFree(t);
      if f < |t| then AddResult(t[f := NewRoute(ip, mac, nextHop, hop, now)], f, true)
      else
        var c := EvictionCandidate(t, now);
        if c >= 0 then AddResult(t[c := NewRoute(ip, mac, nextHop, hop, now)], c, true)
        else AddResult(t, -1, false)
  }

  /** The route that the map holds for ip after addRoute, when a slot could be found for it. */
  function Merged(was: Option<RouteEntry>, ip: uint32, mac: Mac, nextHop: Mac, hop: uint8, now: uint32): RouteEntry
  {
    match was
    case None => NewRoute(ip, mac, nextHop, hop, now)
    case Some(e) =>
      if e.nextHopMac == nextHop || (hop < e.hopCount && e.hopCount != 1)
      then e.(nextHopMac := nextHop, hopCount := hop, metric := hop, lastUpdated := now)
      else e
  }

  /**
   addRoute on the map: a known destination is merged in place; a new one takes a free slot;
   on a full table exactly one entry, the eviction candidate, is lost; and when there is no
   candidate nothing changes.
   */
  lemma AddRouteRefinesMap(t: Table, ip: uint32, mac: Mac, nextHop: Mac, hop: uint8, now: uint32, q: uint32)
    requires Unique(t)
    ensures var r := AddRoute(t, ip, mac, nextHop, hop, now);
            var known := Lookup(t, ip).Some?;
            var full := FindFree(t) == |t|;
            var c := EvictionCandidate(t, now);
            && |r.table| == |t|
            && Unique(r.table)
            && (r.slot == -1 <==> !known && full && c == -1)
            && (r.slot == -1 ==> r.table == t && !r.changed)
            && (r.slot >= 0 ==> r.slot < |t| && Some(r.table[r.slot]) == Lookup(r.table, ip))
            && (r.slot >= 0 && q == ip ==>
                  Lookup(r.table, q) == Some(Merged(Lookup(t, ip), ip, mac, nextHop, hop, now)))
            && (q != ip ==>
                  Lookup(r.table, q) ==
                    if !known && full && c >= 0 && t[c].valid && t[c].destIP == q then None else Lookup(t, q))
            && (!r.changed ==> r.table == t)
  {
    var r := AddRoute(t, ip, mac, nextHop, hop, now);
    LookupSome(t, ip);
    EvictionIsLexicographic(t, now);
    if r.changed {
      LookupUpdate(t, r.slot, r.table[r.slot], q);
      LookupUpdate(t, r.slot, r.table[r.slot], ip);
      var f := FindFree(t);
      if f < |t| { assert IsFree()(t[f]); }
    }
  }

  /**
   addRoute on the slots: at most one is written. A new route is entered as given; a known one keeps its
   destination, and takes the new next hop, hop count and time if it comes from the next hop it has, or if
   it is shorter and the one it has is not direct.
   */
  lemma AddRouteWrites(t: Table, ip: uint32, mac: Mac, nextHop: Mac, hop: uint8, now: uint32)
    ensures var r := AddRoute(t, ip, mac, nextHop, hop, now);
            && |r.table| == |t| && r.slot < |t|
            && (forall i :: 0 <= i < |t| && i != r.slot ==> r.table[i] == t[i])
            && (r.slot < 0 ==> !r.changed)
            && match Lookup(t, ip)
               case None =>
                 r.slot >= 0 ==>
                   r.changed && r.table[r.slot] == RouteEntry(ip, mac, nextHop, hop, hop, now, true)
               case Some(e) =>
                 && r.slot >= 0 && t[r.slot] == e
                 && (r.changed <==> e.nextHopMac == nextHop || (hop < e.hopCount && e.hopCount != 1))
                 && r.table[r.slot] ==
                    if r.changed then RouteEntry(e.destIP, e.destMac, nextHop, hop, hop, now, e.valid) else e
  {
    LookupSome(t, ip);
    EvictionScanMax(t, now, |t|);
  }

  /** The stored slot count after addRoute: one more exactly when a free slot was filled. */
  lemma AddRouteCount(t: Table, ip: uint32, mac: Mac, nextHop: Mac, hop: uint8, now: uint32)
    ensures var r := AddRoute(t, ip, mac, nextHop, hop, now);
            CountValid(r.table) ==
            CountValid(t) + (if FindIP(t, ip) == |t| && FindFree(t) < |t| then 1 else 0)
  {
    var r := AddRoute(t, ip, mac, nextHop, hop, now);
    EvictionScanMax(t, now, |t|);
    if FindIP(t, ip) < |t| { assert HasIP(ip)(t[FindIP(t, ip)]); }
    if FindFree(t) < |t| { assert IsFree()(t[FindFree(t)]); }
    if r.changed { CountUpdate(t, IsRoute(), r.slot, r.table[r.slot]); }
  }

  /** What a holder of the table needs to know to keep its own bookkeeping right. */
  lemma AddRouteKeeps(t: Table, ip: uint32, mac: Mac, nextHop: Mac, hop: uint8, now: uint32)
    requires Unique(t)
    ensures var r := AddRoute(t, ip, mac, nextHop, hop, now);
            && Unique(r.table) && |r.table| == |t|
            && CountValid(r.table) ==
               CountValid(t) + (if FindIP(t, ip) == |t| && FindFree(t) < |t| then 1 else 0)
  {
    AddRouteRefinesMap(t, ip, mac, nextHop, hop, now, ip);
    AddRouteCount(t, ip, mac, nextHop, hop, now);
  }

  /* ----- Removal, withdrawal and expiry ----- */

  function Clear(t: Table, i: nat): Table
    requires i < |t|
  {
    t[i := t[i].(valid := false)]
  }

  function RemoveRoute(t: Table, ip: uint32): Table
  {
    var i := FindIP(t, ip);
    if i < |t| then Clear(t, i) else t
  }

  lemma RemoveRefinesMap(t: Table, ip: uint32, q: uint32)
    requires Unique(t)
    ensures Unique(RemoveRoute(t, ip))
    ensures Lookup(RemoveRoute(t, ip), q) == if q == ip then None else Lookup(t, q)
    ensures CountValid(RemoveRoute(t, ip)) == CountValid(t) - (if Lookup(t, ip).Some? then 1 else 0)
  {
    LookupSome(t, ip);
    var i := FindIP(t, ip);
    if i < |t| {
      LookupUpdate(t, i, t[i].(valid := false), q);
      CountUpdate(t, IsRoute(), i, t[i].(valid := false));
    }
  }

  /** Both sweeps of the router clear, slot by slot, the valid entries that satisfy drop. */
  function Sweep(t: Table, drop: RouteEntry -> bool): (r: Table)
    ensures |r| == |t|
    ensures forall i :: 0 <= i < |t| ==> r[i] == if t[i].valid && drop(t[i]) then t[i].(valid := false) else t[i]
  {
    seq(|t|, i requires 0 <= i < |t| => if t[i].valid && drop(t[i]) then t[i].(valid := false) else t[i])
  }

  function Expired(now: uint32): RouteEntry -> bool
  {
    (e: RouteEntry) => e.nextHopMac != e.destMac && Age(now, e) > ROUTE_EXPIRE_MS
  }

  function Targets(mac: Mac): RouteEntry -> bool
  {
    (e: RouteEntry) => e.destMac == mac
  }

  /** A sweep removes from the map exactly the entries that satisfy its condition. */
  lemma SweepRefinesMap(t: Table, drop: RouteEntry -> bool, q: uint32)
    requires Unique(t)
    ensures Unique(Sweep(t, drop))
    ensures Lookup(Sweep(t, drop), q) ==
            match Lookup(t, q)
            case None => None
            case Some(e) => if drop(e) then None else Some(e)
  {
    var u := Sweep(t, drop);
    LookupSome(t, q);
    LookupSome(u, q);
    if Lookup(u, q).Some? {
      var k := FindIP(u, q);
      LookupOf(t, k);
    } else if Lookup(t, q).Some? {
      var k := FindIP(t, q);
      assert !(u[k].valid && u[k].destIP == q);
    }
  }

  /** Expiry on the map: indirect routes not updated for more than 90 s are gone, and no others. */
  lemma ExpireRefinesMap(t: Table, now: uint32, q: uint32)
    requires Unique(t)
    ensures Unique(Sweep(t, Expired(now)))
    ensures Lookup(Sweep(t, Expired(now)), q) ==
            match Lookup(t, q)
            case None => None
            case Some(e) =>
              if e.nextHopMac != e.destMac && (now - e.lastUpdated) % 0x1_0000_0000 > 90000 then None else Some(e)
  {
    SweepRefinesMap(t, Expired(now), q);
  }

  /** Withdrawal on the map: routes to that MAC are gone, and no others. */
  lemma WithdrawRefinesMap(t: Table, mac: Mac, q: uint32)
    requires Unique(t)
    ensures Unique(Sweep(t, Targets(mac)))
    ensures Lookup(Sweep(t, Targets(mac)), q) ==
            match Lookup(t, q)
            case None => None
            case Some(e) => if e.destMac == mac then None else Some(e)
  {
    SweepRefinesMap(t, Targets(mac), q);
  }

  /* ----- Route advertisements ----- */

  datatype AdvEntry = AdvEntry(destIP: uint32, destMac: Mac, hopCount: uint8, metric: uint8)

  /** What serializeRouteAdv writes for one valid slot: split horizon with poison reverse. */
  function Export(e: RouteEntry, exclude: Option<Mac>): AdvEntry
  {
    if exclude == Some(e.nextHopMac) then AdvEntry(e.destIP, e.destMac, INFINITY, 255)
    else AdvEntry(e.destIP, e.destMac, (e.hopCount + 1) % 256, e.metric)
  }

  /** The entries written for table t when at most max fit. */
  function Advert(t: Table, exclude: Option<Mac>, max: nat): seq<AdvEntry>
  {
    if |t| == 0 then []
    else
      var init := Advert(t[..|t| - 1], exclude, max);
      var e := t[|t| - 1];
      if e.valid && |init| < max then init + [Export(e, exclude)] else init
  }

  /**
   The advert lists, in slot order, precisely the first max valid entries: entry i is at
   the position given by the number of valid entries before it.
   */
  lemma {:induction false} AdvertRank(t: Table, exclude: Option<Mac>, max: nat)
    ensures |Advert(t, exclude, max)| == if CountValid(t) <= max then CountValid(t) else max
    ensures forall i :: 0 <= i < |t| && t[i].valid && CountValid(t[..i]) < max ==>
              && CountValid(t[..i]) < |Advert(t, exclude, max)|
              && Advert(t, exclude, max)[CountValid(t[..i])] == Export(t[i], exclude)
  {
    if |t| > 0 {
      var n := |t| - 1;
      AdvertRank(t[..n], exclude, max);
      assert Advert(t[..n], exclude, max) <= Advert(t, exclude, max);
      forall i | 0 <= i < |t| && t[i].valid && CountValid(t[..i]) < max
        ensures CountValid(t[..i]) < |Advert(t, exclude, max)|
        ensures Advert(t, exclude, max)[CountValid(t[..i])] == Export(t[i], exclude)
      {
        assert t[..n][..i] == t[..i];
        if i < n { assert t[..n][i] == t[i]; }
      }
    }
  }

  /** Every advertised entry comes from a valid slot. */
  lemma {:induction false} AdvertOrigin(t: Table, exclude: Option<Mac>, max: nat, k: nat) returns (i: nat)
    requires k < |Advert(t, exclude, max)|
    ensures i < |t| && t[i].valid && CountValid(t[..i]) == k && Advert(t, exclude, max)[k] == Export(t[i], exclude)
  {
    var n := |t| - 1;
    AdvertRank(t[..n], exclude, max);
    if k < |Advert(t[..n], exclude, max)| {
      i := AdvertOrigin(t[..n], exclude, max, k);
      assert t[..n][..i] == t[..i];
    } else {
      i := n;
    }
  }

  /** One entry of a received advert. local is the receiver's own MAC, when given. */
  function Apply(t: Table, e: AdvEntry, from: Mac, local: Option<Mac>, now: uint32): Table
  {
    if local == Some(e.destMac) then t
    else if e.hopCount >= INFINITY then
      var i := FindIP(t, e.destIP);
      if i < |t| && t[i].nextHopMac == from then RemoveRoute(t, e.destIP) else t
    else AddRoute(t, e.destIP, e.destMac, from, e.hopCount, now).table
  }

  function ApplyAll(t: Table, es: seq<AdvEntry>, from: Mac, local: Option<Mac>, now: uint32): Table
  {
    if |es| == 0 then t
    else Apply(ApplyAll(t, es[..|es| - 1], from, local, now), es[|es| - 1], from, local, now)
  }

  /** Entries that deserializeRouteAdv counts: neither our own address nor unreachable. */
  function Accepted(es: seq<AdvEntry>, local: Option<Mac>): nat
  {
    if |es| == 0 then 0
    else
      var e := es[|es| - 1];
      Accepted(es[..|es| - 1], local) + (if local != Some(e.destMac) && e.hopCount < INFINITY then 1 else 0)
  }

  /** The entries offered to the table: not our own address, and reachable. */
  ghost function Offered(es: seq<AdvEntry>, local: Option<Mac>): set<nat>
  {
    set i: nat | i < |es| && local != Some(es[i].destMac) && es[i].hopCount < 16
  }

  lemma OfferedNext(es: seq<AdvEntry>, local: Option<Mac>)
    requires |es| > 0
    ensures var n := |es| - 1;
            var init := Offered(es[..n], local);
            && n !in init
            && Offered(es, local) == if local != Some(es[n].destMac) && es[n].hopCount < 16 then init + {n} else init
  {
    var n := |es| - 1;
    var init := Offered(es[..n], local);
    forall i: nat | i < n
      ensures i in Offered(es, local) <==> i in init
    {
      assert es[..n][i] == es[i];
    }
    if local != Some(es[n].destMac) && es[n].hopCount < 16 {
      assert Offered(es, local) == init + {n};
    } else {
      assert Offered(es, local) == init;
    }
  }

  /** Each such entry counts once. */
  lemma {:induction false} AcceptedCounts(es: seq<AdvEntry>, local: Option<Mac>)
    ensures Accepted(es, local) == |Offered(es, local)|
  {
    if |es| > 0 {
      AcceptedCounts(es[..|es| - 1], local);
      OfferedNext(es, local);
    }
  }

  lemma ApplyAllNext(t: Table, es: seq<AdvEntry>, i: nat, from: Mac, local: Option<Mac>, now: uint32)
    requires i < |es|
    ensures ApplyAll(t, es[..i + 1], from, local, now) ==
            Apply(ApplyAll(t, es[..i], from, local, now), es[i], from, local, now)
    ensures Accepted(es[..i + 1], local) ==
            Accepted(es[..i], local) + (if local != Some(es[i].destMac) && es[i].hopCount < INFINITY then 1 else 0)
  {
    assert es[..i + 1][..i] == es[..i];
  }

  lemma AdvertNext(t: Table, i: nat, exclude: Option<Mac>, max: nat)
    requires i < |t|
    ensures var init := Advert(t[..i], exclude, max);
            Advert(t[..i + 1], exclude, max) ==
            if t[i].valid && |init| < max then init + [Export(t[i], exclude)] else init
  {
    assert t[..i + 1][..i] == t[..i];
  }

  lemma ApplyKeeps(t: Table, e: AdvEntry, from: Mac, local: Option<Mac>, now: uint32)
    requires Unique(t)
    ensures Unique(Apply(t, e, from, local, now))
    ensures |Apply(t, e, from, local, now)| == |t|
  {
    AddRouteRefinesMap(t, e.destIP, e.destMac, from, e.hopCount, now, e.destIP);
    RemoveRefinesMap(t, e.destIP, e.destIP);
  }

  /** An advert entry for one destination can at most evict another one. */
  lemma ApplyOther(t: Table, e: AdvEntry, from: Mac, local: Option<Mac>, now: uint32, q: uint32)
    requires Unique(t) && e.destIP != q
    ensures Lookup(Apply(t, e, from, local, now), q) == Lookup(t, q)
            || Lookup(Apply(t, e, from, local, now), q) == None
    ensures FindFree(t) < |t| ==> Lookup(Apply(t, e, from, local, now), q) == Lookup(t, q)
  {
    AddRouteRefinesMap(t, e.destIP, e.destMac, from, e.hopCount, now, q);
    RemoveRefinesMap(t, e.destIP, q);
  }

  lemma {:induction false} ApplyAllKeeps(t: Table, es: seq<AdvEntry>, from: Mac, local: Option<Mac>, now: uint32)
    requires Unique(t)
    ensures Unique(ApplyAll(t, es, from, local, now))
    ensures |ApplyAll(t, es, from, local, now)| == |t|
  {
    if |es| > 0 {
      ApplyAllKeeps(t, es[..|es| - 1], from, local, now);
      ApplyKeeps(ApplyAll(t, es[..|es| - 1], from, local, now), es[|es| - 1], from, local, now);
    }
  }

  /* ----- Poison reverse ----- */

  ghost predicate RoutedVia(t: Table, ip: uint32, via: Mac)
  {
    Lookup(t, ip).Some? && Lookup(t, ip).value.nextHopMac == via
  }

  /** Our own address is never entered; an unreachable destination goes only if the route came from the sender. */
  lemma PoisonRefinesMap(t: Table, e: AdvEntry, from: Mac, local: Option<Mac>, now: uint32, q: uint32)
    requires Unique(t) && (e.hopCount >= 16 || local == Some(e.destMac))
    ensures Lookup(Apply(t, e, from, local, now), q) ==
            if local != Some(e.destMac) && q == e.destIP && RoutedVia(t, q, from) then None else Lookup(t, q)
  {
    LookupSome(t, e.destIP);
    RemoveRefinesMap(t, e.destIP, q);
  }

  lemma PoisonRemoves(t: Table, e: AdvEntry, from: Mac, local: Option<Mac>, now: uint32)
    requires Unique(t) && e.hopCount >= INFINITY && local != Some(e.destMac)
    ensures !RoutedVia(Apply(t, e, from, local, now), e.destIP, from)
  {
    LookupSome(t, e.destIP);
    RemoveRefinesMap(t, e.destIP, e.destIP);
  }

  lemma {:induction false} PoisonSticks(t: Table, es: seq<AdvEntry>, k: nat, from: Mac, local: Option<Mac>, now: uint32)
    requires Unique(t) && k < |es|
    requires es[k].hopCount >= INFINITY && local != Some(es[k].destMac)
    requires forall j :: k < j < |es| ==> es[j].destIP != es[k].destIP
    ensures !RoutedVia(ApplyAll(t, es, from, local, now), es[k].destIP, from)
  {
    var n := |es| - 1;
    var before := ApplyAll(t, es[..n], from, local, now);
    ApplyAllKeeps(t, es[..n], from, local, now);
    if k == n {
      PoisonRemoves(before, es[k], from, local, now);
    } else {
      PoisonSticks(t, es[..n], k, from, local, now);
      ApplyOther(before, es[n], from, local, now, es[k].destIP);
    }
  }

  /**
   After B processes a fresh advert of A made for B, no destination other than B among A's
   first max valid routes is routed through B at A and through A at B.
   */
  lemma PoisonReverseBreaksTwoNodeLoops(ta: Table, tb: Table, a: Mac, b: Mac, max: nat, now: uint32, i: nat)
    requires Unique(ta) && Unique(tb)
    requires i < |ta| && ta[i].valid && CountValid(ta[..i]) < max
    requires ta[i].destMac != b
    ensures var tb' := ApplyAll(tb, Advert(ta, Some(b), max), a, Some(b), now);
            !(ta[i].nextHopMac == b && RoutedVia(tb', ta[i].destIP, a))
  {
    if ta[i].nextHopMac == b {
      var es := Advert(ta, Some(b), max);
      var k := CountValid(ta[..i]);
      AdvertRank(ta, Some(b), max);
      forall j | k < j < |es|
        ensures es[j].destIP != es[k].destIP
      {
        var i' := AdvertOrigin(ta, Some(b), max, j);
        assert i' != i;
      }
      PoisonSticks(tb, es, k, a, Some(b), now);
    }
  }
}
