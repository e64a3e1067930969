/**
 A network of routers: one table per node and every advert ever sent. An advert may be
 delivered any number of times, at any later moment, to any node that has a radio link to its
 sender, or never; routes may be evicted, expire or be withdrawn between any two steps.
 */
module RouteNetwork {
  import opened MeshTypes
  import opened RouteTable
  import opened RouteAdvCodec
  import opened RouterClass

  /** links holds (x, n) when x has at some time received from n; ip is each node's address. */
  datatype Topology = Topology(nodes: set<Mac>, links: set<(Mac, Mac)>, ip: Mac -> uint32)

  datatype Packet = Packet(from: Mac, payload: Bytes)

  datatype World = World(topo: Topology, tables: map<Mac, Table>, wire: set<Packet>)

  datatype Event =
    | LinkUp(x: Mac, n: Mac)
    | Neighbour(x: Mac, n: Mac, now: uint32)                      // handshake done, or ARP reply from n
    | Advertise(x: Mac, exclude: Option<Mac>, bufLen: nat)
    | Deliver(x: Mac, packet: Packet, now: uint32)
    | Expire(x: Mac, now: uint32)
    | Withdraw(x: Mac, lost: Mac)
    | Remove(x: Mac, ip: uint32)
    | Refresh(x: Mac, mac: Mac, now: uint32)                      // beacon from a known peer

  /** A walk of exactly k links from x to y. */
  ghost predicate Walk(links: set<(Mac, Mac)>, x: Mac, y: Mac, k: nat)
    decreases k
  {
    if k == 0 then x == y
    else exists n :: (x, n) in links && Walk(links, n, y, k - 1)
  }

  /** y is at distance d from x: a walk of length d exists and no shorter one does. */
  ghost predicate AtDistance(links: set<(Mac, Mac)>, x: Mac, y: Mac, d: nat)
  {
    Walk(links, x, y, d) && forall k: nat :: k < d ==> !Walk(links, x, y, k)
  }

  ghost predicate WellFormed(g: Topology)
  {
    && (forall l :: l in g.links ==> l.0 in g.nodes && l.1 in g.nodes && l.0 != l.1)
    && (forall a, b :: a in g.nodes && b in g.nodes && g.ip(a) == g.ip(b) ==> a == b)
  }

  /** The route's hop count is the length of a real walk that starts with its next hop. */
  ghost predicate EntrySound(e: RouteEntry, x: Mac, g: Topology)
  {
    && e.destMac in g.nodes && e.destMac != x && e.destIP == g.ip(e.destMac)
    && 1 <= e.hopCount <= 15
    && (x, e.nextHopMac) in g.links
    && (e.nextHopMac == e.destMac ==> e.hopCount == 1)
    && Walk(g.links, e.nextHopMac, e.destMac, e.hopCount - 1)
  }

  /** A node never advertises itself. */
  ghost predicate AdvSound(a: AdvEntry, from: Mac, g: Topology)
  {
    && a.destMac in g.nodes && a.destMac != from && a.destIP == g.ip(a.destMac)
    && 2 <= a.hopCount <= 16
    && (a.hopCount < 16 ==> Walk(g.links, from, a.destMac, a.hopCount - 1))
  }

  ghost predicate AllSound(t: Table, x: Mac, g: Topology)
  {
    forall i :: 0 <= i < |t| && t[i].valid ==> EntrySound(t[i], x, g)
  }

  ghost predicate TableSound(t: Table, x: Mac, g: Topology)
  {
    |t| == MAX_ROUTES && Unique(t) && AllSound(t, x, g)
  }

  ghost predicate AdvertSound(es: seq<AdvEntry>, from: Mac, g: Topology)
  {
    forall k :: 0 <= k < |es| ==> AdvSound(es[k], from, g)
  }

  ghost predicate Sound(w: World)
  {
    && WellFormed(w.topo)
    && w.tables.Keys == w.topo.nodes
    && (forall x :: x in w.tables ==> TableSound(w.tables[x], x, w.topo))
    && (forall p :: p in w.wire ==> AdvertSound(DecodeAll(p.payload), p.from, w.topo))
  }

  ghost predicate Enabled(w: World, ev: Event)
  {
    && ev.x in w.tables
    && match ev
       case LinkUp(x, n) => n in w.topo.nodes && x != n
       case Neighbour(x, n, _) => (x, n) in w.topo.links
       case Deliver(x, packet, _) => packet in w.wire && (x, packet.from) in w.topo.links
       case _ => true
  }

  function SetTable(w: World, x: Mac, t: Table): World
  {
    w.(tables := w.tables[x := t])
  }

  function RefreshRoute(t: Table, mac: Mac, now: uint32): Table
  {
    var i := FindMac(t, mac);
    if i < |t| then t[i := t[i].(lastUpdated := now)] else t
  }

  ghost function Step(w: World, ev: Event): World
    requires Enabled(w, ev)
  {
    var t := w.tables[ev.x];
    match ev
    case LinkUp(x, n) => w.(topo := w.topo.(links := w.topo.links + {(x, n)}))
    case Neighbour(x, n, now) => SetTable(w, x, AddRoute(t, w.topo.ip(n), n, n, 1, now).table)
    case Advertise(x, exclude, bufLen) =>
      w.(wire := w.wire + {Packet(x, EncodeAll(Advert(t, exclude, AdvCapacity(bufLen))))})
    case Deliver(x, packet, now) =>
      SetTable(w, x, ApplyAll(t, DecodeAll(packet.payload), packet.from, Some(x), now))
    case Expire(x, now) => SetTable(w, x, Sweep(t, Expired(now)))
    case Withdraw(x, lost) => SetTable(w, x, Sweep(t, Targets(lost)))
    case Remove(x, ip) => SetTable(w, x, RemoveRoute(t, ip))
    case Refresh(x, mac, now) => SetTable(w, x, RefreshRoute(t, mac, now))
  }

  /** Steps that are not enabled are no steps. */
  ghost function Run(w: World, evs: seq<Event>): World
  {
    if |evs| == 0 then w
    else
      var v := Run(w, evs[..|evs| - 1]);
      var ev := evs[|evs| - 1];
      if Enabled(v, ev) then Step(v, ev) else v
  }

  lemma WalkStep(links: set<(Mac, Mac)>, x: Mac, n: Mac, y: Mac, k: nat)
    requires (x, n) in links && Walk(links, n, y, k)
    ensures Walk(links, x, y, k + 1)
  {
  }

  lemma {:induction false} WalkMonotone(small: set<(Mac, Mac)>, big: set<(Mac, Mac)>, x: Mac, y: Mac, k: nat)
    requires small <= big && Walk(small, x, y, k)
    ensures Walk(big, x, y, k)
    decreases k
  {
    if k > 0 {
      var n :| (x, n) in small && Walk(small, n, y, k - 1);
      WalkMonotone(small, big, n, y, k - 1);
    }
  }

  lemma AddRouteSound(t: Table, x: Mac, g: Topology, mac: Mac, nextHop: Mac, hop: uint8, now: uint32)
    requires WellFormed(g) && TableSound(t, x, g)
    requires mac in g.nodes && mac != x && 1 <= hop <= 15
    requires (x, nextHop) in g.links && Walk(g.links, nextHop, mac, hop - 1) && (nextHop == mac ==> hop == 1)
    ensures TableSound(AddRoute(t, g.ip(mac), mac, nextHop, hop, now).table, x, g)
  {
    var ip := g.ip(mac);
    var r := AddRoute(t, ip, mac, nextHop, hop, now);
    AddRouteRefinesMap(t, ip, mac, nextHop, hop, now, ip);
    LookupSome(t, ip);
    forall i | 0 <= i < |r.table| && r.table[i].valid
      ensures EntrySound(r.table[i], x, g)
    {
      if i == r.slot && FindIP(t, ip) < |t| {
        assert t[i].destMac == mac;
      }
    }
  }

  lemma ApplySound(t: Table, x: Mac, g: Topology, a: AdvEntry, from: Mac, now: uint32)
    requires WellFormed(g) && TableSound(t, x, g) && AdvSound(a, from, g) && (x, from) in g.links
    ensures TableSound(Apply(t, a, from, Some(x), now), x, g)
  {
    if a.destMac != x {
      if a.hopCount < INFINITY {
        AddRouteSound(t, x, g, a.destMac, from, a.hopCount, now);
      } else {
        RemoveRefinesMap(t, a.destIP, a.destIP);
      }
    }
  }

  lemma {:induction false} ApplyAllSound(t: Table, x: Mac, g: Topology, es: seq<AdvEntry>, from: Mac, now: uint32)
    requires WellFormed(g) && TableSound(t, x, g) && AdvertSound(es, from, g) && (x, from) in g.links
    ensures TableSound(ApplyAll(t, es, from, Some(x), now), x, g)
  {
    if |es| > 0 {
      ApplyAllSound(t, x, g, es[..|es| - 1], from, now);
      ApplySound(ApplyAll(t, es[..|es| - 1], from, Some(x), now), x, g, es[|es| - 1], from, now);
    }
  }

  /** A sound table only ever advertises sound entries; in particular hopCount + 1 never exceeds 16. */
  lemma AdvertOfSoundTable(t: Table, x: Mac, g: Topology, exclude: Option<Mac>, max: nat)
    requires AllSound(t, x, g)
    ensures AdvertSound(Advert(t, exclude, max), x, g)
  {
  }

  lemma LinkUpSound(w: World, x: Mac, n: Mac)
    requires Sound(w) && Enabled(w, LinkUp(x, n))
    ensures Sound(Step(w, LinkUp(x, n)))
  {
    var g := w.topo;
    var h := Step(w, LinkUp(x, n)).topo;
    forall y | y in w.tables
      ensures TableSound(w.tables[y], y, h)
    {
      var t := w.tables[y];
      forall i | 0 <= i < |t| && t[i].valid
        ensures EntrySound(t[i], y, h)
      {
        assert EntrySound(t[i], y, g);
        WalkMonotone(g.links, h.links, t[i].nextHopMac, t[i].destMac, t[i].hopCount - 1);
      }
    }
    forall p | p in w.wire
      ensures AdvertSound(DecodeAll(p.payload), p.from, h)
    {
      var es := DecodeAll(p.payload);
      forall k | 0 <= k < |es|
        ensures AdvSound(es[k], p.from, h)
      {
        assert AdvSound(es[k], p.from, g);
        if es[k].hopCount < 16 {
          WalkMonotone(g.links, h.links, p.from, es[k].destMac, es[k].hopCount - 1);
        }
      }
    }
  }

  lemma SweepSound(t: Table, x: Mac, g: Topology, drop: RouteEntry -> bool)
    requires TableSound(t, x, g)
    ensures TableSound(Sweep(t, drop), x, g)
  {
  }

  lemma RefreshSound(t: Table, x: Mac, g: Topology, mac: Mac, now: uint32)
    requires TableSound(t, x, g)
    ensures TableSound(RefreshRoute(t, mac, now), x, g)
  {
  }

  lemma SetTableSound(w: World, x: Mac, t: Table)
    requires Sound(w) && x in w.tables && TableSound(t, x, w.topo)
    ensures Sound(SetTable(w, x, t))
  {
  }

  lemma AdvertiseSound(w: World, x: Mac, exclude: Option<Mac>, bufLen: nat)
    requires Sound(w) && x in w.tables
    ensures Sound(Step(w, Advertise(x, exclude, bufLen)))
  {
    var es := Advert(w.tables[x], exclude, AdvCapacity(bufLen));
    AdvertOfSoundTable(w.tables[x], x, w.topo, exclude, AdvCapacity(bufLen));
    AdvertRoundTrip(es);
  }

  lemma DeliverSound(w: World, x: Mac, packet: Packet, now: uint32)
    requires Sound(w) && Enabled(w, Deliver(x, packet, now))
    ensures Sound(Step(w, Deliver(x, packet, now)))
  {
    var t := w.tables[x];
    ApplyAllSound(t, x, w.topo, DecodeAll(packet.payload), packet.from, now);
    SetTableSound(w, x, ApplyAll(t, DecodeAll(packet.payload), packet.from, Some(x), now));
  }

  /** Every step of every node keeps every route and every advert in flight sound. */
  lemma StepSound(w: World, ev: Event)
    requires Sound(w) && Enabled(w, ev)
    ensures Sound(Step(w, ev))
  {
    var g, t := w.topo, w.tables[ev.x];
    match ev
    case LinkUp(x, n) => LinkUpSound(w, x, n);
    case Neighbour(x, n, now) =>
      AddRouteSound(t, x, g, n, n, 1, now);
      SetTableSound(w, x, AddRoute(t, g.ip(n), n, n, 1, now).table);
    case Advertise(x, exclude, bufLen) => AdvertiseSound(w, x, exclude, bufLen);
    case Deliver(x, packet, now) => DeliverSound(w, x, packet, now);
    case Expire(x, now) =>
      SweepSound(t, x, g, Expired(now));
      SetTableSound(w, x, Sweep(t, Expired(now)));
    case Withdraw(x, lost) =>
      SweepSound(t, x, g, Targets(lost));
      SetTableSound(w, x, Sweep(t, Targets(lost)));
    case Remove(x, ip) =>
      RemoveRefinesMap(t, ip, ip);
      SetTableSound(w, x, RemoveRoute(t, ip));
    case Refresh(x, mac, now) =>
      RefreshSound(t, x, g, mac, now);
      SetTableSound(w, x, RefreshRoute(t, mac, now));
  }

  lemma {:induction false} RunSound(w: World, evs: seq<Event>)
    requires Sound(w)
    ensures Sound(Run(w, evs))
  {
    if |evs| > 0 {
      RunSound(w, evs[..|evs| - 1]);
      var v := Run(w, evs[..|evs| - 1]);
      if Enabled(v, evs[|evs| - 1]) { StepSound(v, evs[|evs| - 1]); }
    }
  }

  /** Nodes switched on with empty tables, before any radio contact. */
  ghost predicate Boot(w: World)
  {
    && w.topo.links == {} && w.wire == {}
    && WellFormed(w.topo)
    && w.tables.Keys == w.topo.nodes
    && (forall x :: x in w.tables ==>
          |w.tables[x]| == MAX_ROUTES && forall i :: 0 <= i < MAX_ROUTES ==> !w.tables[x][i].valid)
  }

  lemma BootSound(w: World)
    requires Boot(w)
    ensures Sound(w)
  {
  }

  /** What a sound route says about the links that have existed. */
  lemma SoundRoute(v: World, x: Mac, i: nat)
    requires Sound(v) && x in v.tables && i < |v.tables[x]| && v.tables[x][i].valid
    ensures RouteIsWalk(v, x, v.tables[x][i])
  {
    var e := v.tables[x][i];
    assert EntrySound(e, x, v.topo);
    WalkStep(v.topo.links, x, e.nextHopMac, e.destMac, e.hopCount - 1);
  }

  /**
   A route of X to D with h hops via N: X and N have been in contact, N is D exactly when h is
   one, a walk of exactly h links that have existed leads from X via N to D, and h is no less
   than the distance.
   */
  ghost predicate RouteIsWalk(v: World, x: Mac, e: RouteEntry)
  {
    && 1 <= e.hopCount <= 15
    && e.destMac != x && e.destIP == v.topo.ip(e.destMac)
    && (x, e.nextHopMac) in v.topo.links && (e.hopCount == 1 <==> e.nextHopMac == e.destMac)
    && Walk(v.topo.links, e.nextHopMac, e.destMac, e.hopCount - 1)
    && (forall d: nat :: AtDistance(v.topo.links, x, e.destMac, d) ==> d <= e.hopCount)
  }

  /** In every run from boot, every valid route of every node is a real walk. */
  lemma RoutesAreWalks(w: World, evs: seq<Event>)
    requires Boot(w)
    ensures var v := Run(w, evs);
            forall x, i :: x in v.tables && 0 <= i < |v.tables[x]| && v.tables[x][i].valid ==>
              RouteIsWalk(v, x, v.tables[x][i])
  {
    BootSound(w);
    RunSound(w, evs);
    var v := Run(w, evs);
    forall x, i | x in v.tables && 0 <= i < |v.tables[x]| && v.tables[x][i].valid
      ensures RouteIsWalk(v, x, v.tables[x][i])
    {
      SoundRoute(v, x, i);
    }
  }
}
