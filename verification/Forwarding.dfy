/**
 Where a unicast data packet goes once the routing tables have converged, and which packets get
 there: the sender cuts long ones into fragments, but a relay does not.
 */
module Forwarding {
  import opened MeshTypes
  import opened RouteTable
  import opened RouteNetwork
  import opened Convergence
  import opened Sending
  import PeerMaps

  const BROADCAST := Mac(0xFF, 0xFF, 0xFF, 0xFF, 0xFF, 0xFF)
  const MIN_IPV4_PACKET: nat := 20

  datatype Protocol = MESH_INTERNAL | IPv4 | OTHER

  /** The payload of a DATA frame, or of a DATA_FRAG message once it has been reassembled. */
  datatype DataFrame = DataFrame(dst: Mac, protocol: Protocol, len: nat)

  datatype Action = DeliverLocally | RelayTo(nextHop: Mac) | AnswerTime | Discard

  /** What decides about a DATA frame beside the frame and the routes: the node's state, and the frame's sender. */
  datatype Setting = Setting(peers: PeerMaps.PeerMap, onBattery: bool, relayEnabled: bool, src: Mac)

  /** The fate of a DATA frame at a node. */
  function DataAction(s: Setting, t: Table, local: Mac, f: DataFrame): Action
  {
    if s.src in s.peers && s.peers[s.src].isBattery && !s.onBattery && f.protocol == MESH_INTERNAL then AnswerTime
    else if f.dst == local || f.dst == BROADCAST then
      if f.protocol == IPv4 && f.len >= MIN_IPV4_PACKET then DeliverLocally else Discard
    else if s.relayEnabled && FindMac(t, f.dst) < |t| && FitsFrame(f.len) then
      RelayTo(t[FindMac(t, f.dst)].nextHopMac)
    else Discard
  }

  /** The frame is for us: its own address, or everybody's. */
  predicate ForUs(f: DataFrame, local: Mac)
  {
    f.dst == local || f.dst == Mac(0xFF, 0xFF, 0xFF, 0xFF, 0xFF, 0xFF)
  }

  /** It is to be passed on: for somebody else, within one frame, and with a route. */
  ghost predicate ForRelay(s: Setting, t: Table, local: Mac, f: DataFrame)
  {
    !ForUs(f, local) && s.relayEnabled && 22 + f.len <= 250 && exists i: nat :: FirstRoute(t, f.dst, i)
  }

  /**
   The time is the answer to the internal frames of a known battery peer, at a node not on battery, and
   to nothing else. Any other frame goes up the stack if it is a packet for us, is relayed to the next hop of
   the first route if it is to be passed on, and is dropped if neither.
   */
  ghost predicate Fate(s: Setting, t: Table, local: Mac, f: DataFrame, action: Action)
  {
    var asks := f.protocol == MESH_INTERNAL && s.src in s.peers && s.peers[s.src].isBattery && !s.onBattery;
    && (action == AnswerTime <==> asks)
    && (action == DeliverLocally <==> !asks && ForUs(f, local) && f.protocol == IPv4 && f.len >= 20)
    && (action.RelayTo? <==> !asks && ForRelay(s, t, local, f))
    && (forall i: nat :: action.RelayTo? && FirstRoute(t, f.dst, i) ==> action == RelayTo(t[i].nextHopMac))
  }

  lemma FateOfFrame(s: Setting, t: Table, local: Mac, f: DataFrame)
    ensures Fate(s, t, local, f, DataAction(s, t, local, f))
  {
    FirstRouteFound(t, f.dst);
    var i := FindMac(t, f.dst);
    if i < |t| { assert FirstRoute(t, f.dst, i); }
  }

  /** One address per node: the lookup by MAC and the lookup by IP find the same slot. */
  lemma MacAndIPAgree(w: World, x: Mac, d: Mac)
    requires Sound(w) && x in w.tables && d in w.topo.nodes
    ensures FindMac(w.tables[x], d) == FindIP(w.tables[x], w.topo.ip(d))
  {
  }

  ghost predicate HoldsRoute(w: World, at: Mac, d: Mac, hops: nat)
  {
    && at in w.tables && at != d
    && RouteTo(w, at, d).Some? && RouteTo(w, at, d).value.hopCount == hops
  }

  /** An exact route leads to a neighbour one link nearer. */
  lemma LoopFree(w: World, x: Mac, d: Mac, h: nat, k: nat) returns (n: Mac)
    requires Stable(w) && CorrectUpTo(w, k) && 1 <= h <= k && h <= 15
    requires x in w.tables && d in w.tables && AtDistance(w.topo.links, x, d, h)
    ensures var t := w.tables[x];
            FindMac(t, d) < |t| && t[FindMac(t, d)].nextHopMac == n && HoldsRoute(w, x, d, h)
    ensures n in w.tables && (x, n) in w.topo.links && AtDistance(w.topo.links, n, d, h - 1)
  {
    assert Exact(w, x, d, h);
    MacAndIPAgree(w, x, d);
    RouteSound(w, x, d);
    n := RouteTo(w, x, d).value.nextHopMac;
  }

  /* ----- A packet on its way, while adverts go on being exchanged ----- */

  /** What y transmits to n arrives if n hears y. */
  ghost function Heard(w: World, y: Mac, n: Mac): Option<Mac>
  {
    if (n, y) in w.topo.links then Some(n) else None
  }

  /** The first transmission: the whole packet, put together again by the next hop (SendsWholeIff). */
  ghost function Sent(w: World, x: Mac, f: DataFrame): Option<Mac>
  {
    if x in w.tables && f.len <= MAX_SENDABLE then Heard(w, x, FirstHop(w.tables[x], f.dst)) else None
  }

  /** Every later one: what arrived is relayed in a single frame, if the node relays it. */
  ghost function Relayed(w: World, s: Setting, y: Mac, f: DataFrame): Option<Mac>
  {
    if y !in w.tables then None
    else
      match DataAction(s, w.tables[y], y, f)
      case RelayTo(n) => Heard(w, y, n)
      case _ => None
  }

  ghost function PassedOn(w: World, s: Setting, y: Mac, f: DataFrame, first: bool): Option<Mac>
  {
    if first then Sent(w, y, f) else Relayed(w, s, y, f)
  }

  /** A packet's way: transmission i happens in nets[i], at a node in settings(i). */
  datatype Trip = Trip(nets: seq<World>, settings: nat -> Setting, from: Mac, frame: DataFrame)

  /** The node that holds the packet after k transmissions, when it has got that far. */
  ghost function Position(trip: Trip, k: nat): Option<Mac>
    requires k <= |trip.nets|
  {
    if k == 0 then Some(trip.from)
    else
      match Position(trip, k - 1)
      case None => None
      case Some(y) => PassedOn(trip.nets[k - 1], trip.settings(k - 1), y, trip.frame, k == 1)
  }

  /** The sender takes up to 1792 bytes, a relay 228. */
  predicate Passes(f: DataFrame, first: bool)
  {
    if first then f.len <= MAX_SENDABLE else FitsFrame(f.len)
  }

  /** The packet is short enough for k transmissions. */
  predicate Reaches(f: DataFrame, k: nat)
  {
    (k >= 1 ==> Passes(f, true)) && (k >= 2 ==> Passes(f, false))
  }

  /** near(y, k): node y is at distance k from the destination. */
  type Distance = (Mac, nat) -> bool

  ghost function DistanceTo(links: set<(Mac, Mac)>, d: Mac): Distance
  {
    (y: Mac, k: nat) => AtDistance(links, y, d, k)
  }

  /** A node is at one distance only, and only d at distance 0. */
  ghost predicate Measures(near: Distance, d: Mac)
  {
    && (forall y, i, j :: near(y, i) && near(y, j) ==> i == j)
    && (forall y :: near(y, 0) <==> y == d)
  }

  lemma DistanceMeasures(links: set<(Mac, Mac)>, d: Mac)
    ensures Measures(DistanceTo(links, d), d)
  {
    var near := DistanceTo(links, d);
    forall y, i, j | near(y, i) && near(y, j)
      ensures i == j
    {
      assert AtDistance(links, y, d, i) && AtDistance(links, y, d, j);
    }
  }

  /**
   y is left + 1 hops away, says its table, and hands the packet, if that is short enough, to a
   node that really is left links away.
   */
  ghost predicate HandsOn(w: World, s: Setting, near: Distance, y: Mac, f: DataFrame, left: nat, first: bool)
  {
    var n := PassedOn(w, s, y, f, first);
    && HoldsRoute(w, y, f.dst, left + 1)
    && (n.Some? <==> Passes(f, first))
    && (n.Some? ==> n.value in w.tables && near(n.value, left))
  }

  /** Every node up to k links away hands the packet on like that, if it relays at all. */
  ghost predicate Guides(w: World, near: Distance, f: DataFrame, k: nat)
  {
    forall s: Setting, y, left: nat, first {:trigger HandsOn(w, s, near, y, f, left, first)} ::
      s.relayEnabled && left < k && left < 15 && y in w.tables && near(y, left + 1) ==>
        HandsOn(w, s, near, y, f, left, first)
  }

  /** Contacts work both ways: who has been heard also hears. */
  ghost predicate Mutual(g: Topology)
  {
    forall l :: l in g.links ==> (l.1, l.0) in g.links
  }

  /** An IPv4 packet, which is all that sendData sends, for one node of the network. */
  ghost predicate IsUnicast(w: World, f: DataFrame)
  {
    f.dst in w.tables && f.dst != BROADCAST && f.protocol == IPv4
  }

  /** A node that relays, and has a route, passes on what fits. */
  lemma PassesAlong(w: World, s: Setting, y: Mac, f: DataFrame, first: bool)
    requires y in w.tables && f.dst != y && f.dst != BROADCAST && f.protocol == IPv4 && s.relayEnabled
    requires var t := w.tables[y];
             FindMac(t, f.dst) < |t| && (t[FindMac(t, f.dst)].nextHopMac, y) in w.topo.links
    ensures PassedOn(w, s, y, f, first) ==
            if Passes(f, first) then Some(w.tables[y][FindMac(w.tables[y], f.dst)].nextHopMac) else None
  {
  }

  lemma ExactHandsOn(w: World, s: Setting, y: Mac, f: DataFrame, left: nat, first: bool, k: nat)
    requires Stable(w) && Mutual(w.topo) && CorrectUpTo(w, k) && IsUnicast(w, f) && s.relayEnabled
    requires left < k && left < 15 && y in w.tables && DistanceTo(w.topo.links, f.dst)(y, left + 1)
    ensures HandsOn(w, s, DistanceTo(w.topo.links, f.dst), y, f, left, first)
  {
    var n := LoopFree(w, y, f.dst, left + 1, k);
    assert left + 1 - 1 == left;
    assert (y, n) in w.topo.links && (n, y) in w.topo.links;
    PassesAlong(w, s, y, f, first);
  }

  lemma CorrectGuides(w: World, f: DataFrame, k: nat)
    requires Stable(w) && Mutual(w.topo) && CorrectUpTo(w, k) && IsUnicast(w, f)
    ensures Guides(w, DistanceTo(w.topo.links, f.dst), f, k)
  {
    var near := DistanceTo(w.topo.links, f.dst);
    forall s: Setting, y, left: nat, first |
      s.relayEnabled && left < k && left < 15 && y in w.tables && near(y, left + 1)
      ensures HandsOn(w, s, near, y, f, left, first)
    {
      ExactHandsOn(w, s, y, f, left, first, k);
    }
  }

  /** Networks with the same nodes that all guide the packet. */
  ghost predicate AllGuide(nets: seq<World>, nodes: set<Mac>, near: Distance, f: DataFrame, k: nat)
  {
    forall i :: 0 <= i < |nets| ==> nets[i].tables.Keys == nodes && Guides(nets[i], near, f, k)
  }

  ghost predicate AllRelay(settings: nat -> Setting)
  {
    forall i :: settings(i).relayEnabled
  }

  /** A sender at distance h, at most k, and networks for h transmissions. */
  ghost predicate Underway(trip: Trip, nodes: set<Mac>, near: Distance, h: nat, k: nat)
  {
    && AllGuide(trip.nets, nodes, near, trip.frame, k) && AllRelay(trip.settings) && Measures(near, trip.frame.dst)
    && trip.from in nodes && near(trip.from, h) && h <= k && h <= 15 && h <= |trip.nets|
  }

  /** The node at y makes transmission j as its table says. */
  ghost predicate HandsOnAt(trip: Trip, near: Distance, j: nat, y: Mac, left: nat)
    requires j < |trip.nets|
  {
    HandsOn(trip.nets[j], trip.settings(j), near, y, trip.frame, left, j == 0)
  }

  lemma Guided(trip: Trip, nodes: set<Mac>, near: Distance, k: nat, j: nat, y: Mac, left: nat)
    requires AllGuide(trip.nets, nodes, near, trip.frame, k) && AllRelay(trip.settings) && j < |trip.nets|
    requires y in nodes && near(y, left + 1) && left < k && left < 15
    ensures HandsOnAt(trip, near, j, y, left)
  {
    assert Guides(trip.nets[j], near, trip.frame, k);
  }

  /** Transmission j takes the packet from y to a node one link nearer. */
  lemma OneTransmission(trip: Trip, nodes: set<Mac>, near: Distance, k: nat, j: nat, y: Mac, left: nat)
    returns (n: Mac)
    requires AllGuide(trip.nets, nodes, near, trip.frame, k) && 1 <= j <= |trip.nets|
    requires Position(trip, j - 1) == Some(y) && HandsOnAt(trip, near, j - 1, y, left) && Passes(trip.frame, j == 1)
    ensures Position(trip, j) == Some(n) && n in nodes && near(n, left)
  {
    n := PassedOn(trip.nets[j - 1], trip.settings(j - 1), y, trip.frame, j == 1).value;
  }

  /** After j transmissions a packet short enough for them is `left` links away. */
  lemma {:induction false} FrameDescends(trip: Trip, nodes: set<Mac>, near: Distance, h: nat, k: nat, j: nat, left: nat)
    returns (at: Mac)
    requires Underway(trip, nodes, near, h, k)
    requires j + left == h && Reaches(trip.frame, j)
    ensures Position(trip, j) == Some(at)
    ensures at in nodes && near(at, left)
    decreases j
  {
    if j == 0 {
      at := trip.from;
    } else {
      var y := FrameDescends(trip, nodes, near, h, k, j - 1, left + 1);
      Guided(trip, nodes, near, k, j - 1, y, left);
      at := OneTransmission(trip, nodes, near, k, j, y, left);
    }
  }

  /** A packet too long for j transmissions has been dropped by then. */
  lemma {:induction false} TooLongIsDropped(trip: Trip, nodes: set<Mac>, near: Distance, h: nat, k: nat, j: nat)
    requires Underway(trip, nodes, near, h, k)
    requires j <= h && !Reaches(trip.frame, j)
    ensures Position(trip, j) == None
  {
    if Reaches(trip.frame, j - 1) {
      var y := FrameDescends(trip, nodes, near, h, k, j - 1, h - (j - 1));
      Guided(trip, nodes, near, k, j - 1, y, h - j);
    } else {
      TooLongIsDropped(trip, nodes, near, h, k, j - 1);
    }
  }

  lemma NoRevisit(trip: Trip, nodes: set<Mac>, near: Distance, h: nat, k: nat, i: nat, j: nat)
    requires Underway(trip, nodes, near, h, k)
    requires i < j <= h && Reaches(trip.frame, j)
    ensures Position(trip, i) != Position(trip, j)
  {
    var a := FrameDescends(trip, nodes, near, h, k, i, h - i);
    var b := FrameDescends(trip, nodes, near, h, k, j, h - j);
  }

  /** The packet is with a node whose table says this many hops, at the moment it sends the packet on. */
  ghost predicate OnItsWay(w: World, at: Option<Mac>, f: DataFrame, hops: nat)
  {
    at.Some? && HoldsRoute(w, at.value, f.dst, hops)
  }

  /**
   Every transmission takes the packet one hop nearer; after h it is at its destination, having
   visited no node twice.
   */
  ghost predicate Delivered(trip: Trip, h: nat)
    requires h <= |trip.nets|
  {
    && (forall j :: 0 <= j < h ==> OnItsWay(trip.nets[j], Position(trip, j), trip.frame, h - j))
    && (forall i, j :: 0 <= i < j <= h ==> Position(trip, i) != Position(trip, j))
    && Position(trip, h) == Some(trip.frame.dst)
  }

  lemma HandedOnAt(trip: Trip, nodes: set<Mac>, near: Distance, h: nat, k: nat, j: nat)
    requires Underway(trip, nodes, near, h, k) && Reaches(trip.frame, j) && j < h
    ensures OnItsWay(trip.nets[j], Position(trip, j), trip.frame, h - j)
  {
    var left := h - j - 1;
    var at := FrameDescends(trip, nodes, near, h, k, j, left + 1);
    Guided(trip, nodes, near, k, j, at, left);
    assert HandsOnAt(trip, near, j, at, left);
  }

  lemma DescentArrives(trip: Trip, nodes: set<Mac>, near: Distance, h: nat, k: nat)
    requires Underway(trip, nodes, near, h, k) && Reaches(trip.frame, h)
    ensures Delivered(trip, h)
  {
    forall j | 0 <= j < h
      ensures OnItsWay(trip.nets[j], Position(trip, j), trip.frame, h - j)
    {
      HandedOnAt(trip, nodes, near, h, k, j);
    }
    forall i, j | 0 <= i < j <= h
      ensures Position(trip, i) != Position(trip, j)
    {
      NoRevisit(trip, nodes, near, h, k, i, j);
    }
    var at := FrameDescends(trip, nodes, near, h, k, h, 0);
  }

  /** Where packets of this length get: all the way, or to the node that is the last to take them. */
  lemma DeliveredIffShort(trip: Trip, nodes: set<Mac>, near: Distance, h: nat, k: nat)
    requires Underway(trip, nodes, near, h, k)
    ensures Delivered(trip, h) <==> Reaches(trip.frame, h)
    ensures forall j :: 0 <= j <= h ==> (Position(trip, j).Some? <==> Reaches(trip.frame, j))
  {
    forall j | 0 <= j <= h
      ensures Position(trip, j).Some? <==> Reaches(trip.frame, j)
    {
      if Reaches(trip.frame, j) {
        var at := FrameDescends(trip, nodes, near, h, k, j, h - j);
      } else {
        TooLongIsDropped(trip, nodes, near, h, k, j);
      }
    }
    if Reaches(trip.frame, h) { DescentArrives(trip, nodes, near, h, k); }
  }

  /* ----- A network that keeps exchanging adverts ----- */

  lemma {:induction false} CorrectAfter(w: World, rounds: seq<seq<Hearing>>, k: nat)
    requires Stable(w) && AllPossible(w, rounds) && CorrectUpTo(w, k)
    ensures CorrectUpTo(AfterRounds(w, rounds), k)
  {
    if |rounds| > 0 {
      CorrectAfter(w, rounds[..|rounds| - 1], k);
      CorrectnessSurvives(AfterRounds(w, rounds[..|rounds| - 1]), rounds[|rounds| - 1], k);
    }
  }

  /** The network at each transmission: before the first one the exchanges pauses[0] take place, and so on. */
  ghost function Snapshots(w: World, pauses: seq<seq<Hearing>>): (nets: seq<World>)
    requires Stable(w) && AllPossible(w, pauses)
    ensures |nets| == |pauses|
  {
    seq(|pauses|, i requires 0 <= i < |pauses| => AfterRounds(w, pauses[..i + 1]))
  }

  lemma SnapshotGuides(w: World, pauses: seq<seq<Hearing>>, f: DataFrame, k: nat)
    requires Stable(w) && Mutual(w.topo) && AllPossible(w, pauses) && CorrectUpTo(w, k)
    requires IsUnicast(w, f)
    ensures var v := AfterRounds(w, pauses);
            v.tables.Keys == w.tables.Keys && Guides(v, DistanceTo(w.topo.links, f.dst), f, k)
  {
    CorrectAfter(w, pauses, k);
    CorrectGuides(AfterRounds(w, pauses), f, k);
  }

  lemma SnapshotsGuide(w: World, pauses: seq<seq<Hearing>>, f: DataFrame, k: nat)
    requires Stable(w) && Mutual(w.topo) && AllPossible(w, pauses) && CorrectUpTo(w, k)
    requires IsUnicast(w, f)
    ensures AllGuide(Snapshots(w, pauses), w.tables.Keys, DistanceTo(w.topo.links, f.dst), f, k)
  {
    forall i | 0 <= i < |pauses|
      ensures Snapshots(w, pauses)[i].tables.Keys == w.tables.Keys
      ensures Guides(Snapshots(w, pauses)[i], DistanceTo(w.topo.links, f.dst), f, k)
    {
      SnapshotGuides(w, pauses[..i + 1], f, k);
    }
  }

  lemma StillPossible(w: World, v: World, pauses: seq<seq<Hearing>>)
    requires AllPossible(w, pauses) && v.topo == w.topo && v.tables.Keys == w.tables.Keys
    ensures AllPossible(v, pauses)
  {
    forall i | 0 <= i < |pauses|
      ensures Possible(v, pauses[i])
    {
      assert Possible(w, pauses[i]);
    }
  }

  /** Who gets what: 228 bytes go anywhere, 1792 to a neighbour; the sender or the first relay drops the rest. */
  ghost predicate ArrivesIffShort(trip: Trip, h: nat)
    requires 1 <= h <= |trip.nets|
  {
    && (Delivered(trip, h) <==> trip.frame.len <= 228 || (h == 1 && trip.frame.len <= 1792))
    && (trip.frame.len > 1792 ==> Position(trip, 1) == None)
    && (trip.frame.len > 228 && h >= 2 ==> Position(trip, 2) == None)
  }

  lemma FateDecided(trip: Trip, nodes: set<Mac>, near: Distance, h: nat, k: nat)
    requires Underway(trip, nodes, near, h, k) && h >= 1
    ensures ArrivesIffShort(trip, h)
  {
    DeliveredIffShort(trip, nodes, near, h, k);
  }

  /** At its destination a packet goes up the stack, whoever passed it on, if it is long enough to be one. */
  lemma GoesUp(f: DataFrame, s: Setting, t: Table)
    requires f.protocol == IPv4
    ensures DataAction(s, t, f.dst, f) == if f.len >= 20 then DeliverLocally else Discard
  {
    FateOfFrame(s, t, f.dst, f);
  }

  lemma FrameArrives(w: World, pauses: seq<seq<Hearing>>, settings: nat -> Setting, x: Mac, f: DataFrame, h: nat,
                     k: nat)
    requires Stable(w) && Mutual(w.topo) && AllPossible(w, pauses) && CorrectUpTo(w, k) && AllRelay(settings)
    requires x in w.tables && IsUnicast(w, f) && AtDistance(w.topo.links, x, f.dst, h)
    requires 1 <= h <= k && h <= 15 && h <= |pauses|
    ensures ArrivesIffShort(Trip(Snapshots(w, pauses), settings, x, f), h)
  {
    SnapshotsGuide(w, pauses, f, k);
    DistanceMeasures(w.topo.links, f.dst);
    FateDecided(Trip(Snapshots(w, pauses), settings, x, f), w.tables.Keys, DistanceTo(w.topo.links, f.dst), h, k);
  }

  /**
   End to end: after k rounds of exchanges on a stable network, an IPv4 packet for a node at distance
   h, at most k + 1, that is handed to sendData is at its destination after exactly h
   transmissions, one hop nearer each time and visiting no node twice, although adverts go on
   being exchanged between the relays, if and only if it has at most 228 bytes, or has at most
   1792 bytes and is for a neighbour; otherwise the sender refuses or truncates it, or the first
   relay drops it. All of that whoever the relays' peers are, battery nodes or not, as long as they
   relay. At its destination the packet goes up the stack, if it is long enough to be one.
   */
  lemma ConvergedNetworkDelivers(w: World, rounds: seq<seq<Hearing>>, pauses: seq<seq<Hearing>>,
                                 settings: nat -> Setting, x: Mac, f: DataFrame, h: nat)
    requires Stable(w) && Mutual(w.topo) && DirectRoutes(w) && AllRelay(settings)
    requires AllPossible(w, rounds) && AllCover(w, rounds) && AllPossible(w, pauses)
    requires x in w.tables && IsUnicast(w, f)
    requires AtDistance(w.topo.links, x, f.dst, h) && 1 <= h <= |rounds| + 1 && h <= 15 && h <= |pauses|
    ensures var v := AfterRounds(w, rounds);
            AllPossible(v, pauses) && ArrivesIffShort(Trip(Snapshots(v, pauses), settings, x, f), h)
    ensures forall s, t :: DataAction(s, t, f.dst, f) == if f.len >= 20 then DeliverLocally else Discard
  {
    var v := AfterRounds(w, rounds);
    RoundsConverge(w, rounds);
    StillPossible(w, v, pauses);
    FrameArrives(v, pauses, settings, x, f, h, |rounds| + 1);
    forall s, t
      ensures DataAction(s, t, f.dst, f) == if f.len >= 20 then DeliverLocally else Discard
    {
      GoesUp(f, s, t);
    }
  }
}
