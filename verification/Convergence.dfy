/**
 Convergence of the distance-vector exchange to true shortest distances, on a network of at
 most 19 nodes (one advert carries 18 routes) whose links no longer change.
 */
module Convergence {
  import opened MeshTypes
  import opened RouteTable
  import opened RouteAdvCodec
  import opened RouterClass
  import opened RouteNetwork

  const MAX_NODES: nat := 19
  const ADV_BUFFER: nat := 216

  /** n advertises to x, and x processes that advert. */
  ghost function Exchange(w: World, x: Mac, n: Mac, now: uint32): World
    requires x in w.tables && n in w.tables
  {
    SetTable(w, x, ApplyAll(w.tables[x], Advert(w.tables[n], Some(x), ADV_MAX_ENTRIES), n, Some(x), now))
  }

  /** In the network, an exchange is an advertisement step followed by a delivery step. */
  lemma ExchangeIsTwoSteps(w: World, x: Mac, n: Mac, now: uint32)
    requires x in w.tables && n in w.tables && (x, n) in w.topo.links
    ensures var packet := Packet(n, EncodeAll(Advert(w.tables[n], Some(x), ADV_MAX_ENTRIES)));
            var v := Step(w, Advertise(n, Some(x), ADV_BUFFER));
            && Enabled(v, Deliver(x, packet, now))
            && Step(v, Deliver(x, packet, now)) == Exchange(w, x, n, now).(wire := w.wire + {packet})
  {
    AdvertRoundTrip(Advert(w.tables[n], Some(x), ADV_MAX_ENTRIES));
  }

  ghost predicate Stable(w: World)
  {
    Sound(w) && |w.topo.nodes| <= MAX_NODES
  }

  ghost function RouteTo(w: World, x: Mac, d: Mac): Option<RouteEntry>
    requires x in w.tables
  {
    Lookup(w.tables[x], w.topo.ip(d))
  }

  /** What one advert entry from `from` does to the route held for its destination. */
  function ApplyOne(was: Option<RouteEntry>, a: AdvEntry, from: Mac, now: uint32): Option<RouteEntry>
  {
    if a.hopCount < INFINITY then Some(Merged(was, a.destIP, a.destMac, from, a.hopCount, now))
    else if was.Some? && was.value.nextHopMac == from then None
    else was
  }

  /* ----- At most 19 nodes: every route fits in one advert and every table has room ----- */

  lemma {:induction false} CountBound(t: Table, g: Topology, s: set<Mac>)
    requires Unique(t)
    requires forall i :: 0 <= i < |t| && t[i].valid ==> t[i].destMac in s && t[i].destIP == g.ip(t[i].destMac)
    ensures CountValid(t) <= |s|
  {
    if |t| > 0 {
      var n := |t| - 1;
      if t[n].valid {
        CountBound(t[..n], g, s - {t[n].destMac});
      } else {
        CountBound(t[..n], g, s);
      }
    }
  }

  lemma SmallTable(t: Table, x: Mac, g: Topology)
    requires TableSound(t, x, g) && x in g.nodes && |g.nodes| <= MAX_NODES
    ensures CountValid(t) <= ADV_MAX_ENTRIES
    ensures FindFree(t) < |t|
  {
    CountBound(t, g, g.nodes - {x});
    FullWhenNoFree(t);
  }

  lemma {:induction false} CountPrefix(t: Table, i: nat)
    requires i < |t| && t[i].valid
    ensures CountValid(t[..i]) < CountValid(t)
  {
    var n := |t| - 1;
    if i < n {
      assert t[..n][..i] == t[..i];
      CountPrefix(t[..n], i);
    }
  }

  /* ----- An exchange treats each destination on its own ----- */

  lemma ApplyMatching(t: Table, x: Mac, g: Topology, a: AdvEntry, from: Mac, now: uint32)
    requires TableSound(t, x, g) && x in g.nodes && |g.nodes| <= MAX_NODES && a.destMac != x
    ensures Lookup(Apply(t, a, from, Some(x), now), a.destIP) == ApplyOne(Lookup(t, a.destIP), a, from, now)
  {
    SmallTable(t, x, g);
    LookupSome(t, a.destIP);
    AddRouteRefinesMap(t, a.destIP, a.destMac, from, a.hopCount, now, a.destIP);
    RemoveRefinesMap(t, a.destIP, a.destIP);
  }

  lemma {:induction false} ApplyAllElsewhere(t: Table, x: Mac, g: Topology, es: seq<AdvEntry>, from: Mac,
                                             now: uint32, q: uint32)
    requires WellFormed(g) && TableSound(t, x, g) && AdvertSound(es, from, g) && (x, from) in g.links
    requires |g.nodes| <= MAX_NODES
    requires forall k :: 0 <= k < |es| ==> es[k].destIP != q
    ensures Lookup(ApplyAll(t, es, from, Some(x), now), q) == Lookup(t, q)
  {
    if |es| > 0 {
      var n := |es| - 1;
      var u := ApplyAll(t, es[..n], from, Some(x), now);
      ApplyAllElsewhere(t, x, g, es[..n], from, now, q);
      ApplyAllSound(t, x, g, es[..n], from, now);
      SmallTable(u, x, g);
      ApplyOther(u, es[n], from, Some(x), now, q);
    }
  }

  lemma {:induction false} ApplyAllAt(t: Table, x: Mac, g: Topology, es: seq<AdvEntry>, from: Mac, now: uint32, k: nat)
    requires WellFormed(g) && TableSound(t, x, g) && AdvertSound(es, from, g) && (x, from) in g.links
    requires |g.nodes| <= MAX_NODES
    requires k < |es| && es[k].destMac != x
    requires forall j :: 0 <= j < |es| && j != k ==> es[j].destIP != es[k].destIP
    ensures Lookup(ApplyAll(t, es, from, Some(x), now), es[k].destIP) ==
            ApplyOne(Lookup(t, es[k].destIP), es[k], from, now)
  {
    var n := |es| - 1;
    var u := ApplyAll(t, es[..n], from, Some(x), now);
    ApplyAllSound(t, x, g, es[..n], from, now);
    if k == n {
      ApplyAllElsewhere(t, x, g, es[..n], from, now, es[k].destIP);
      ApplyMatching(u, x, g, es[k], from, now);
    } else {
      ApplyAllAt(t, x, g, es[..n], from, now, k);
      SmallTable(u, x, g);
      ApplyOther(u, es[n], from, Some(x), now, es[k].destIP);
    }
  }

  lemma ExchangeStable(w: World, x: Mac, n: Mac, now: uint32)
    requires Stable(w) && x in w.tables && n in w.tables && (x, n) in w.topo.links
    ensures var v := Exchange(w, x, n, now);
            && Stable(v) && v.topo == w.topo && v.tables.Keys == w.tables.Keys
            && (forall y :: y in w.tables && y != x ==> v.tables[y] == w.tables[y])
  {
    var es := Advert(w.tables[n], Some(x), ADV_MAX_ENTRIES);
    AdvertOfSoundTable(w.tables[n], n, w.topo, Some(x), ADV_MAX_ENTRIES);
    ApplyAllSound(w.tables[x], x, w.topo, es, n, now);
    SetTableSound(w, x, ApplyAll(w.tables[x], es, n, Some(x), now));
  }

  /** n has no route to d: its advert does not touch x's. */
  lemma AdvertWithout(t: Table, s: Table, x: Mac, n: Mac, g: Topology, now: uint32, q: uint32)
    requires WellFormed(g) && TableSound(t, x, g) && TableSound(s, n, g) && (x, n) in g.links && |g.nodes| <= MAX_NODES
    requires Lookup(s, q).None?
    ensures Lookup(ApplyAll(t, Advert(s, Some(x), ADV_MAX_ENTRIES), n, Some(x), now), q) == Lookup(t, q)
  {
    var es := Advert(s, Some(x), ADV_MAX_ENTRIES);
    AdvertOfSoundTable(s, n, g, Some(x), ADV_MAX_ENTRIES);
    LookupSome(s, q);
    forall k | 0 <= k < |es|
      ensures es[k].destIP != q
    {
      var i := AdvertOrigin(s, Some(x), ADV_MAX_ENTRIES, k);
    }
    ApplyAllElsewhere(t, x, g, es, n, now, q);
  }

  /** n has a route to d: its advert holds exactly one entry for d. */
  lemma AdvertHolds(s: Table, x: Mac, n: Mac, g: Topology, i: nat) returns (k: nat)
    requires TableSound(s, n, g) && n in g.nodes && |g.nodes| <= MAX_NODES
    requires i < |s| && s[i].valid
    ensures var es := Advert(s, Some(x), ADV_MAX_ENTRIES);
            && k < |es| && es[k] == Export(s[i], Some(x))
            && (forall j :: 0 <= j < |es| && j != k ==> es[j].destIP != es[k].destIP)
  {
    var es := Advert(s, Some(x), ADV_MAX_ENTRIES);
    SmallTable(s, n, g);
    CountPrefix(s, i);
    AdvertRank(s, Some(x), ADV_MAX_ENTRIES);
    k := CountValid(s[..i]);
    forall j | 0 <= j < |es| && j != k
      ensures es[j].destIP != es[k].destIP
    {
      var i' := AdvertOrigin(s, Some(x), ADV_MAX_ENTRIES, j);
      assert i' != i;
    }
  }

  lemma AdvertWith(t: Table, s: Table, x: Mac, n: Mac, g: Topology, now: uint32, q: uint32)
    requires WellFormed(g) && TableSound(t, x, g) && TableSound(s, n, g) && (x, n) in g.links && |g.nodes| <= MAX_NODES
    requires Lookup(s, q).Some? && Lookup(s, q).value.destMac != x
    ensures Lookup(ApplyAll(t, Advert(s, Some(x), ADV_MAX_ENTRIES), n, Some(x), now), q) ==
            ApplyOne(Lookup(t, q), Export(Lookup(s, q).value, Some(x)), n, now)
  {
    LookupSome(s, q);
    AdvertOfSoundTable(s, n, g, Some(x), ADV_MAX_ENTRIES);
    var k := AdvertHolds(s, x, n, g, FindIP(s, q));
    ApplyAllAt(t, x, g, Advert(s, Some(x), ADV_MAX_ENTRIES), n, now, k);
  }

  /** The exchange changes the route to d by exactly what n's own route to d makes n advertise. */
  lemma ExchangeRoute(w: World, x: Mac, n: Mac, now: uint32, d: Mac)
    requires Stable(w) && x in w.tables && n in w.tables && (x, n) in w.topo.links
    requires d in w.topo.nodes && d != x
    ensures var v := Exchange(w, x, n, now);
            x in v.tables && v.topo == w.topo &&
            RouteTo(v, x, d) ==
            match RouteTo(w, n, d)
            case None => RouteTo(w, x, d)
            case Some(e) => ApplyOne(RouteTo(w, x, d), Export(e, Some(x)), n, now)
  {
    ExchangeStable(w, x, n, now);
    var q := w.topo.ip(d);
    if Lookup(w.tables[n], q).None? {
      AdvertWithout(w.tables[x], w.tables[n], x, n, w.topo, now, q);
    } else {
      LookupSome(w.tables[n], q);
      assert EntrySound(w.tables[n][FindIP(w.tables[n], q)], n, w.topo);
      AdvertWith(w.tables[x], w.tables[n], x, n, w.topo, now, q);
    }
  }

  /* ----- Exact routes ----- */

  /** x's route to d has the true distance and its next hop is one link nearer. */
  ghost predicate Exact(w: World, x: Mac, d: Mac, k: nat)
    requires x in w.tables
  {
    var r := RouteTo(w, x, d);
    k > 0 && r.Some? && r.value.hopCount == k && AtDistance(w.topo.links, r.value.nextHopMac, d, k - 1)
  }

  ghost predicate CorrectUpTo(w: World, k: nat)
  {
    forall x, d, j: nat {:trigger Exact(w, x, d, j)} ::
      (x in w.tables && d in w.tables && 1 <= j <= k && j <= 15 && AtDistance(w.topo.links, x, d, j)) ==>
        Exact(w, x, d, j)
  }

  /** A route to d: sound, and as long as a real walk. */
  ghost predicate LeadsTo(e: RouteEntry, x: Mac, d: Mac, g: Topology)
  {
    EntrySound(e, x, g) && e.destMac == d && d != x && Walk(g.links, x, d, e.hopCount)
  }

  /** A route's next hop really is as near as its hop count says, or nearer. */
  lemma RouteSound(w: World, x: Mac, d: Mac)
    requires Stable(w) && x in w.tables && d in w.tables
    ensures RouteTo(w, x, d).Some? ==> LeadsTo(RouteTo(w, x, d).value, x, d, w.topo)
  {
  }

  lemma NearerByOne(links: set<(Mac, Mac)>, x: Mac, n: Mac, d: Mac, k: nat)
    requires AtDistance(links, x, d, k) && (x, n) in links && k > 0 && Walk(links, n, d, k - 1)
    ensures AtDistance(links, n, d, k - 1)
  {
    forall j: nat | j < k - 1
      ensures !Walk(links, n, d, j)
    {
      assert Walk(links, n, d, j) ==> Walk(links, x, d, j + 1);
    }
  }

  /** What n advertises to x about d, when n's own route is exact and x is not on its way. */
  lemma ExactNeighbourAdvertises(w: World, x: Mac, n: Mac, d: Mac, k: nat)
    requires Stable(w) && x in w.tables && n in w.tables && d in w.tables
    requires 2 <= k <= 15 && AtDistance(w.topo.links, x, d, k) && Exact(w, n, d, k - 1)
    ensures var e := Export(RouteTo(w, n, d).value, Some(x));
            e.hopCount == k && e.destMac == d && e.destIP == w.topo.ip(d)
  {
    RouteSound(w, n, d);
    var e := RouteTo(w, n, d).value;
    assert !Walk(w.topo.links, x, d, k - 2);
  }

  /** The route x holds for d after hearing n, as ExchangeRoute determines it. */
  ghost predicate Heard(w: World, v: World, x: Mac, n: Mac, d: Mac, now: uint32)
    requires x in w.tables && n in w.tables && x in v.tables
  {
    && v.topo == w.topo
    && RouteTo(v, x, d) ==
       match RouteTo(w, n, d)
       case None => RouteTo(w, x, d)
       case Some(e) => ApplyOne(RouteTo(w, x, d), Export(e, Some(x)), n, now)
  }

  /** A next hop with an exact route repeats the distance it was chosen for. */
  lemma KeptByNextHop(w: World, v: World, x: Mac, n: Mac, d: Mac, k: nat, now: uint32)
    requires Stable(w) && x in w.tables && d in w.tables && n in w.tables && x in v.tables
    requires 1 <= k <= 15 && CorrectUpTo(w, k - 1) && AtDistance(w.topo.links, x, d, k) && Exact(w, x, d, k)
    requires Heard(w, v, x, n, d, now) && n == RouteTo(w, x, d).value.nextHopMac
    ensures Exact(v, x, d, k)
  {
    if k == 1 {
      RouteSound(w, n, d);
    } else {
      assert Exact(w, n, d, k - 1);
      ExactNeighbourAdvertises(w, x, n, d, k);
    }
  }

  /** Any other neighbour has nothing shorter to offer. */
  lemma KeptByOthers(w: World, v: World, x: Mac, n: Mac, d: Mac, k: nat, now: uint32)
    requires Stable(w) && x in w.tables && d in w.tables && n in w.tables && x in v.tables
    requires (x, n) in w.topo.links
    requires 1 <= k <= 15 && AtDistance(w.topo.links, x, d, k) && Exact(w, x, d, k)
    requires Heard(w, v, x, n, d, now) && n != RouteTo(w, x, d).value.nextHopMac
    ensures Exact(v, x, d, k)
  {
    RouteSound(w, n, d);
    if RouteTo(w, n, d).Some? {
      var e := RouteTo(w, n, d).value;
      assert Walk(w.topo.links, x, d, e.hopCount + 1);
    }
  }

  /**
   An exact route survives every exchange, provided the nearer routes are exact.
   */
  lemma ExactSurvives(w: World, x: Mac, d: Mac, k: nat, y: Mac, n: Mac, now: uint32)
    requires Stable(w) && x in w.tables && d in w.tables
    requires y in w.tables && n in w.tables && (y, n) in w.topo.links
    requires 1 <= k <= 15 && CorrectUpTo(w, k - 1) && AtDistance(w.topo.links, x, d, k) && Exact(w, x, d, k)
    ensures x in Exchange(w, y, n, now).tables && Exact(Exchange(w, y, n, now), x, d, k)
  {
    ExchangeStable(w, y, n, now);
    var v := Exchange(w, y, n, now);
    if y == x {
      RouteSound(w, x, d);
      ExchangeRoute(w, x, n, now, d);
      if n == RouteTo(w, x, d).value.nextHopMac {
        KeptByNextHop(w, v, x, n, d, k, now);
      } else {
        KeptByOthers(w, v, x, n, d, k, now);
      }
    }
  }

  /** An offer of k hops, where there was nothing shorter, leaves a route of k hops: the offer, or what was there. */
  lemma ShortestOfferTaken(was: Option<RouteEntry>, a: AdvEntry, from: Mac, now: uint32, k: nat)
    requires a.hopCount == k && 2 <= k <= 15 && (was.Some? ==> was.value.hopCount >= k)
    ensures var r := ApplyOne(was, a, from, now);
            r.Some? && r.value.hopCount == k && (r.value.nextHopMac == from || r == was)
  {
  }

  lemma NoShorterWalk(links: set<(Mac, Mac)>, x: Mac, d: Mac, k: nat, h: nat)
    requires AtDistance(links, x, d, k) && Walk(links, x, d, h)
    ensures h >= k
  {
  }

  /** A sound route to a node k links away has at least k hops, and with k hops it leads one link nearer. */
  lemma NothingShorter(g: Topology, e: RouteEntry, x: Mac, d: Mac, k: nat)
    requires LeadsTo(e, x, d, g) && AtDistance(g.links, x, d, k) && k > 0
    ensures e.hopCount >= k
    ensures e.hopCount == k ==> AtDistance(g.links, e.nextHopMac, d, k - 1)
  {
    NoShorterWalk(g.links, x, d, k, e.hopCount);
    if e.hopCount == k { NearerByOne(g.links, x, e.nextHopMac, d, k); }
  }

  /** A neighbour one link nearer, with an exact route, leaves behind an exact route. */
  lemma SpreadByNearer(w: World, v: World, x: Mac, n: Mac, d: Mac, k: nat, now: uint32)
    requires Stable(w) && x in w.tables && d in w.tables && n in w.tables && x in v.tables
    requires 2 <= k <= 15 && AtDistance(w.topo.links, x, d, k) && Exact(w, n, d, k - 1)
    requires AtDistance(w.topo.links, n, d, k - 1)
    requires Heard(w, v, x, n, d, now)
    ensures Exact(v, x, d, k)
  {
    ExactNeighbourAdvertises(w, x, n, d, k);
    RouteSound(w, x, d);
    if RouteTo(w, x, d).Some? { NothingShorter(w.topo, RouteTo(w, x, d).value, x, d, k); }
    ShortestOfferTaken(RouteTo(w, x, d), Export(RouteTo(w, n, d).value, Some(x)), n, now, k);
  }

  /** Hearing from a neighbour whose route is exact makes the route one link farther exact. */
  lemma ExactSpreads(w: World, x: Mac, d: Mac, k: nat, n: Mac, now: uint32)
    requires Stable(w) && x in w.tables && d in w.tables && n in w.tables && (x, n) in w.topo.links
    requires 2 <= k <= 15 && CorrectUpTo(w, k - 1)
    requires AtDistance(w.topo.links, x, d, k) && AtDistance(w.topo.links, n, d, k - 1)
    ensures x in Exchange(w, x, n, now).tables && Exact(Exchange(w, x, n, now), x, d, k)
  {
    assert Exact(w, n, d, k - 1);
    assert x != d by { if x == d { assert Walk(w.topo.links, x, d, 0); } }
    ExchangeRoute(w, x, n, now, d);
    SpreadByNearer(w, Exchange(w, x, n, now), x, n, d, k, now);
  }

  /* ----- Rounds ----- */

  /** One exchange of a round: x hears from n at time now. */
  datatype Hearing = Hearing(x: Mac, n: Mac, now: uint32)

  ghost predicate Possible(w: World, hs: seq<Hearing>)
  {
    forall i :: 0 <= i < |hs| ==>
      hs[i].x in w.tables && hs[i].n in w.tables && (hs[i].x, hs[i].n) in w.topo.links
  }

  ghost predicate Covers(w: World, hs: seq<Hearing>)
  {
    forall l :: l in w.topo.links ==> exists i :: 0 <= i < |hs| && hs[i].x == l.0 && hs[i].n == l.1
  }

  ghost function Exchanges(w: World, hs: seq<Hearing>): (v: World)
    requires Stable(w) && Possible(w, hs)
    ensures Stable(v) && v.topo == w.topo && v.tables.Keys == w.tables.Keys
  {
    if |hs| == 0 then w
    else
      var u := Exchanges(w, hs[..|hs| - 1]);
      var h := hs[|hs| - 1];
      ExchangeStable(u, h.x, h.n, h.now);
      Exchange(u, h.x, h.n, h.now)
  }

  /** Nothing that is exact up to distance k is ever lost. */
  lemma {:induction false} CorrectnessSurvives(w: World, hs: seq<Hearing>, k: nat)
    requires Stable(w) && Possible(w, hs) && CorrectUpTo(w, k)
    ensures CorrectUpTo(Exchanges(w, hs), k)
  {
    if |hs| > 0 {
      var h := hs[|hs| - 1];
      var u := Exchanges(w, hs[..|hs| - 1]);
      CorrectnessSurvives(w, hs[..|hs| - 1], k);
      var v := Exchanges(w, hs);
      forall x, d, j: nat | x in v.tables && d in v.tables && 1 <= j <= k && j <= 15
                            && AtDistance(v.topo.links, x, d, j)
        ensures Exact(v, x, d, j)
      {
        assert CorrectUpTo(u, j - 1);
        assert Exact(u, x, d, j);
        ExactSurvives(u, x, d, j, h.x, h.n, h.now);
      }
    }
  }

  /** After x has heard, somewhere in hs, from a neighbour n at distance k, its route is exact. */
  lemma {:induction false} HeardIsExact(w: World, hs: seq<Hearing>, i: nat, x: Mac, d: Mac, k: nat)
    requires Stable(w) && Possible(w, hs) && x in w.tables && d in w.tables
    requires 2 <= k <= 15 && CorrectUpTo(w, k - 1)
    requires i < |hs| && hs[i].x == x
    requires AtDistance(w.topo.links, x, d, k) && AtDistance(w.topo.links, hs[i].n, d, k - 1)
    ensures Exact(Exchanges(w, hs), x, d, k)
  {
    var m := |hs| - 1;
    var h := hs[m];
    var u := Exchanges(w, hs[..m]);
    CorrectnessSurvives(w, hs[..m], k - 1);
    if i == m {
      ExactSpreads(u, x, d, k, h.n, h.now);
    } else {
      HeardIsExact(w, hs[..m], i, x, d, k);
      ExactSurvives(u, x, d, k, h.x, h.n, h.now);
    }
  }

  /** One round in which every neighbour pair exchanges pushes exactness one link farther. */
  lemma RoundAdvances(w: World, hs: seq<Hearing>, k: nat)
    requires Stable(w) && Possible(w, hs) && Covers(w, hs) && 1 <= k && CorrectUpTo(w, k)
    ensures CorrectUpTo(Exchanges(w, hs), k + 1)
  {
    var v := Exchanges(w, hs);
    CorrectnessSurvives(w, hs, k);
    forall x, d, j: nat | x in v.tables && d in v.tables && 1 <= j <= k + 1 && j <= 15
                          && AtDistance(v.topo.links, x, d, j)
      ensures Exact(v, x, d, j)
    {
      if j == k + 1 {
        var links := w.topo.links;
        var n :| (x, n) in links && Walk(links, n, d, j - 1);
        NearerByOne(links, x, n, d, j);
        assert (x, n) in links && (x, n).0 == x && (x, n).1 == n;
        var i :| 0 <= i < |hs| && hs[i].x == x && hs[i].n == n;
        HeardIsExact(w, hs, i, x, d, j);
      }
    }
  }

  /** Every node holds the one-hop route to each neighbour it has been in contact with. */
  ghost predicate DirectRoutes(w: World)
  {
    forall l :: l in w.topo.links && l.0 in w.tables ==> DirectAt(w, l.0, l.1)
  }

  ghost predicate DirectAt(w: World, x: Mac, n: Mac)
  {
    x in w.tables && RouteTo(w, x, n).Some? && RouteTo(w, x, n).value.hopCount == 1
  }

  /** addRoute with one hop, in a table with room, leaves a one-hop route and no other one worse. */
  lemma DirectRouteAdded(t: Table, q: uint32, n: Mac, now: uint32, p: uint32)
    requires Unique(t) && FindFree(t) < |t|
    requires Lookup(t, q).Some? ==> Lookup(t, q).value.hopCount >= 1
    ensures var u := AddRoute(t, q, n, n, 1, now).table;
            && Lookup(u, q).Some? && Lookup(u, q).value.hopCount == 1
            && (Lookup(t, p).Some? && Lookup(t, p).value.hopCount == 1 ==>
                  Lookup(u, p).Some? && Lookup(u, p).value.hopCount == 1)
  {
    AddRouteRefinesMap(t, q, n, n, 1, now, q);
    AddRouteRefinesMap(t, q, n, n, 1, now, p);
  }

  /** A completed handshake installs the direct route and damages no other direct route. */
  lemma NeighbourInstalls(w: World, x: Mac, n: Mac, now: uint32, y: Mac, m: Mac)
    requires Stable(w) && Enabled(w, Neighbour(x, n, now))
    ensures var v := Step(w, Neighbour(x, n, now));
            && Stable(v) && v.topo == w.topo && v.tables.Keys == w.tables.Keys
            && DirectAt(v, x, n)
            && (DirectAt(w, y, m) ==> DirectAt(v, y, m))
  {
    StepSound(w, Neighbour(x, n, now));
    var t, q := w.tables[x], w.topo.ip(n);
    SmallTable(t, x, w.topo);
    RouteSound(w, x, n);
    DirectRouteAdded(t, q, n, now, w.topo.ip(m));
  }

  /** One handshake per hearing of hs. */
  ghost function Greetings(w: World, hs: seq<Hearing>): (v: World)
    requires Stable(w) && Possible(w, hs)
    ensures Stable(v) && v.topo == w.topo && v.tables.Keys == w.tables.Keys
  {
    if |hs| == 0 then w
    else
      var u := Greetings(w, hs[..|hs| - 1]);
      var h := hs[|hs| - 1];
      NeighbourInstalls(u, h.x, h.n, h.now, h.x, h.n);
      Step(u, Neighbour(h.x, h.n, h.now))
  }

  lemma LastGreeting(w: World, hs: seq<Hearing>, y: Mac, m: Mac)
    requires Stable(w) && Possible(w, hs) && |hs| > 0
    ensures DirectAt(Greetings(w, hs), hs[|hs| - 1].x, hs[|hs| - 1].n)
    ensures DirectAt(Greetings(w, hs[..|hs| - 1]), y, m) ==> DirectAt(Greetings(w, hs), y, m)
  {
    var h := hs[|hs| - 1];
    NeighbourInstalls(Greetings(w, hs[..|hs| - 1]), h.x, h.n, h.now, y, m);
  }

  lemma PossiblePrefix(w: World, hs: seq<Hearing>, n: nat)
    requires Possible(w, hs) && n <= |hs|
    ensures Possible(w, hs[..n])
  {
  }

  lemma {:induction false} Greeted(w: World, hs: seq<Hearing>, i: nat)
    requires Stable(w) && Possible(w, hs) && i < |hs|
    ensures DirectAt(Greetings(w, hs), hs[i].x, hs[i].n)
  {
    var x, n := hs[i].x, hs[i].n;
    LastGreeting(w, hs, x, n);
    if i < |hs| - 1 {
      PossiblePrefix(w, hs, |hs| - 1);
      Greeted(w, hs[..|hs| - 1], i);
      assert DirectAt(Greetings(w, hs[..|hs| - 1]), x, n);
    }
  }

  /** Once every pair in contact has completed a handshake, the starting point of convergence is reached. */
  lemma GreetingsMakeDirectRoutes(w: World, hs: seq<Hearing>)
    requires Stable(w) && Possible(w, hs) && Covers(w, hs)
    ensures DirectRoutes(Greetings(w, hs))
  {
    var v := Greetings(w, hs);
    forall l | l in v.topo.links && l.0 in v.tables
      ensures DirectAt(v, l.0, l.1)
    {
      var i :| 0 <= i < |hs| && hs[i].x == l.0 && hs[i].n == l.1;
      Greeted(w, hs, i);
    }
  }

  lemma DirectRoutesAreExact(w: World)
    requires Stable(w) && DirectRoutes(w)
    ensures CorrectUpTo(w, 1)
  {
  }

  ghost predicate AllPossible(w: World, rounds: seq<seq<Hearing>>)
  {
    forall i :: 0 <= i < |rounds| ==> Possible(w, rounds[i])
  }

  ghost predicate AllCover(w: World, rounds: seq<seq<Hearing>>)
  {
    forall i :: 0 <= i < |rounds| ==> Covers(w, rounds[i])
  }

  ghost function AfterRounds(w: World, rounds: seq<seq<Hearing>>): (v: World)
    requires Stable(w) && AllPossible(w, rounds)
    ensures Stable(v) && v.topo == w.topo && v.tables.Keys == w.tables.Keys
  {
    if |rounds| == 0 then w
    else Exchanges(AfterRounds(w, rounds[..|rounds| - 1]), rounds[|rounds| - 1])
  }

  lemma {:induction false} RoundsConverge(w: World, rounds: seq<seq<Hearing>>)
    requires Stable(w) && DirectRoutes(w) && AllPossible(w, rounds) && AllCover(w, rounds)
    ensures CorrectUpTo(AfterRounds(w, rounds), |rounds| + 1)
  {
    if |rounds| == 0 {
      DirectRoutesAreExact(w);
    } else {
      RoundsConverge(w, rounds[..|rounds| - 1]);
      RoundAdvances(AfterRounds(w, rounds[..|rounds| - 1]), rounds[|rounds| - 1], |rounds|);
    }
  }

  /**
   From any sound state with all direct routes, however stale its other routes: after k rounds,
   in any order and with any repetitions, every pair at distance at most k + 1 (and at most
   15) has a route of exactly that length through a neighbour one link nearer, and still has
   it after any number of later exchanges.
   */
  lemma Converges(w: World, rounds: seq<seq<Hearing>>, later: seq<Hearing>)
    requires Stable(w) && DirectRoutes(w) && AllPossible(w, rounds) && AllCover(w, rounds) && Possible(w, later)
    ensures CorrectUpTo(Exchanges(AfterRounds(w, rounds), later), |rounds| + 1)
  {
    RoundsConverge(w, rounds);
    CorrectnessSurvives(AfterRounds(w, rounds), later, |rounds| + 1);
  }
}
