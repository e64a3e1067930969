/**
 What happens to routes after contacts are lost. Stale routes may be passed round among the nodes
 that are left, each time one hop longer, but expiry and infinity 16 put an end to that: spell by
 spell the routes become walks over the contacts there still are.
 */
module Forgetting {
  import opened MeshTypes
  import opened RouteTable
  import opened RouteAdvCodec
  import opened RouterClass
  import opened RouteNetwork

  /** The contacts still there, and nodes that these contacts do not lead out of. */
  datatype Rest = Rest(group: set<Mac>, live: set<(Mac, Mac)>)

  /** Every node reads its own clock. */
  type Clock = Mac -> uint32

  ghost predicate Closed(g: Topology, c: Rest)
  {
    && c.group <= g.nodes
    && forall l :: l in c.live && l.0 in c.group ==> l.1 in c.group
  }

  /** An event of the group uses live contacts only. */
  ghost predicate Local(c: Rest, ev: Event)
  {
    ev.x in c.group ==>
      match ev
      case LinkUp(x, n) => (x, n) in c.live
      case Neighbour(x, n, _) => (x, n) in c.live
      case Deliver(x, packet, _) => (x, packet.from) in c.live
      case Refresh(x, mac, _) => (x, mac) in c.live
      case _ => true
  }

  /** The event's clock reading, when it has one, lies between two moments. */
  predicate Timed(ev: Event, since: Clock, until: Clock)
  {
    match ev
    case Neighbour(x, _, now) => since(x) <= now <= until(x)
    case Deliver(x, _, now) => since(x) <= now <= until(x)
    case Expire(x, now) => since(x) <= now <= until(x)
    case Refresh(x, _, now) => since(x) <= now <= until(x)
    case _ => true
  }

  /* ----- The route of x to d ----- */

  /** A route of x to d is a walk over live contacts. */
  ghost predicate LiveRoute(e: RouteEntry, x: Mac, d: Mac, live: set<(Mac, Mac)>)
  {
    e.hopCount >= 1 && (x, e.nextHopMac) in live && Walk(live, e.nextHopMac, d, e.hopCount - 1)
  }

  /** A route of at most m hops is live. */
  ghost predicate Trusted(r: Option<RouteEntry>, x: Mac, d: Mac, live: set<(Mac, Mac)>, m: nat, until: uint32)
  {
    r.Some? ==>
      r.value.lastUpdated <= until && (r.value.hopCount <= m ==> LiveRoute(r.value, x, d, live))
  }

  /** ... and one of m + 1 hops, unless it has not been updated after `since`. */
  ghost predicate Settling(r: Option<RouteEntry>, x: Mac, d: Mac, live: set<(Mac, Mac)>, m: nat, since: uint32,
                           until: uint32)
  {
    && Trusted(r, x, d, live, m, until)
    && (r.Some? && r.value.hopCount == m + 1 ==> r.value.lastUpdated <= since || LiveRoute(r.value, x, d, live))
  }

  /** The route is kept, refreshed, lost, or replaced by one that is live if it has at most m + 1 hops. */
  ghost predicate Replaced(was: Option<RouteEntry>, r: Option<RouteEntry>, x: Mac, d: Mac, live: set<(Mac, Mac)>,
                           m: nat, since: uint32, until: uint32)
  {
    r == was || r.None?
    || (since <= r.value.lastUpdated <= until && (r.value.hopCount <= m + 1 ==> LiveRoute(r.value, x, d, live)))
  }

  lemma AddReplaces(t: Table, x: Mac, ip: uint32, mac: Mac, from: Mac, hop: uint8, now: uint32, q: uint32, d: Mac,
                    live: set<(Mac, Mac)>, m: nat, since: uint32, until: uint32)
    requires Unique(t) && since <= now <= until
    requires ip == q && hop <= m + 1 ==> hop >= 1 && (x, from) in live && Walk(live, from, d, hop - 1)
    ensures Replaced(Lookup(t, q), Lookup(AddRoute(t, ip, mac, from, hop, now).table, q), x, d, live, m, since, until)
  {
    AddRouteRefinesMap(t, ip, mac, from, hop, now, q);
  }

  /** What the advert says about d in at most m + 1 hops is so, over live contacts. */
  ghost predicate AdvertTrusted(es: seq<AdvEntry>, from: Mac, q: uint32, d: Mac, live: set<(Mac, Mac)>, m: nat)
  {
    forall i :: 0 <= i < |es| && es[i].destIP == q && es[i].hopCount <= m + 1 ==>
      es[i].hopCount >= 1 && Walk(live, from, d, es[i].hopCount - 1)
  }

  lemma ApplyReplaces(t: Table, x: Mac, a: AdvEntry, from: Mac, now: uint32, q: uint32, d: Mac,
                      live: set<(Mac, Mac)>, m: nat, since: uint32, until: uint32)
    requires Unique(t) && since <= now <= until && (x, from) in live
    requires a.destIP == q && a.hopCount <= m + 1 ==> a.hopCount >= 1 && Walk(live, from, d, a.hopCount - 1)
    ensures Replaced(Lookup(t, q), Lookup(Apply(t, a, from, Some(x), now), q), x, d, live, m, since, until)
  {
    AddReplaces(t, x, a.destIP, a.destMac, from, a.hopCount, now, q, d, live, m, since, until);
    RemoveRefinesMap(t, a.destIP, q);
  }

  lemma {:induction false} ApplyAllReplaces(t: Table, x: Mac, es: seq<AdvEntry>, from: Mac, now: uint32, q: uint32,
                                            d: Mac, live: set<(Mac, Mac)>, m: nat, since: uint32, until: uint32)
    requires Unique(t) && since <= now <= until && (x, from) in live && AdvertTrusted(es, from, q, d, live, m)
    ensures Replaced(Lookup(t, q), Lookup(ApplyAll(t, es, from, Some(x), now), q), x, d, live, m, since, until)
  {
    if |es| > 0 {
      var n := |es| - 1;
      ApplyAllReplaces(t, x, es[..n], from, now, q, d, live, m, since, until);
      ApplyAllKeeps(t, es[..n], from, Some(x), now);
      ApplyReplaces(ApplyAll(t, es[..n], from, Some(x), now), x, es[n], from, now, q, d, live, m, since, until);
    }
  }

  lemma ExportTrusted(e: RouteEntry, x: Mac, exclude: Option<Mac>, d: Mac, live: set<(Mac, Mac)>, m: nat)
    requires e.hopCount <= m ==> LiveRoute(e, x, d, live)
    requires m <= 14 && e.hopCount <= 15 && Export(e, exclude).hopCount <= m + 1
    ensures Export(e, exclude).hopCount >= 1 && Walk(live, x, d, Export(e, exclude).hopCount - 1)
  {
    WalkStep(live, x, e.nextHopMac, d, e.hopCount - 1);
  }

  /** A table that is right about d up to m hops advertises what is right up to m + 1. */
  lemma AdvertOfTrusted(t: Table, x: Mac, exclude: Option<Mac>, max: nat, q: uint32, d: Mac, live: set<(Mac, Mac)>,
                        m: nat, until: uint32)
    requires Unique(t) && Trusted(Lookup(t, q), x, d, live, m, until) && m <= 14
    requires forall i :: 0 <= i < |t| && t[i].valid ==> t[i].hopCount <= 15
    ensures AdvertTrusted(Advert(t, exclude, max), x, q, d, live, m)
  {
    var es := Advert(t, exclude, max);
    forall j | 0 <= j < |es| && es[j].destIP == q && es[j].hopCount <= m + 1
      ensures es[j].hopCount >= 1 && Walk(live, x, d, es[j].hopCount - 1)
    {
      var i := AdvertOrigin(t, exclude, max, j);
      LookupOf(t, i);
      ExportTrusted(t[i], x, exclude, d, live, m);
    }
  }

  /** A beacon of another node does not refresh the route to d; one of d itself refreshes only that. */
  lemma RefreshReplaces(t: Table, x: Mac, g: Topology, mac: Mac, now: uint32, d: Mac)
    requires WellFormed(g) && TableSound(t, x, g) && d in g.nodes
    ensures var r := Lookup(RefreshRoute(t, mac, now), g.ip(d));
            var was := Lookup(t, g.ip(d));
            r == if mac == d && was.Some? then Some(was.value.(lastUpdated := now)) else was
  {
    var i := FindMac(t, mac);
    LookupSome(t, g.ip(d));
    if i < |t| {
      assert HasMac(mac)(t[i]);
      LookupUpdate(t, i, t[i].(lastUpdated := now), g.ip(d));
      LookupOf(t, i);
    }
  }

  /* ----- One event ----- */

  ghost function RouteAt(w: World, x: Mac, d: Mac): Option<RouteEntry>
    requires x in w.tables
  {
    Lookup(w.tables[x], w.topo.ip(d))
  }

  /** A beacon of d refreshes only a direct route: x has one as long as d is its peer. */
  ghost predicate BeaconOfNeighbour(w: World, ev: Event, c: Rest, d: Mac)
  {
    ev.Refresh? && ev.mac == d && ev.x in c.group && ev.x in w.tables ==>
      RouteAt(w, ev.x, d).Some? ==> RouteAt(w, ev.x, d).value.hopCount == 1
  }

  /** Every advert of the group on its way is right about d up to m + 1 hops. */
  ghost predicate WireTrusted(w: World, c: Rest, d: Mac, m: nat)
  {
    forall p :: p in w.wire && p.from in c.group ==>
      AdvertTrusted(DecodeAll(p.payload), p.from, w.topo.ip(d), d, c.live, m)
  }

  /** What one event, between two moments, may do to the route of x to d. */
  ghost predicate StepReplaces(w: World, v: World, c: Rest, x: Mac, d: Mac, m: nat, since: Clock, until: Clock)
    requires x in w.tables
  {
    && v.topo.nodes == w.topo.nodes && v.topo.ip == w.topo.ip && x in v.tables
    && Replaced(RouteAt(w, x, d), RouteAt(v, x, d), x, d, c.live, m, since(x), until(x))
  }

  /** In a group that uses live contacts only, a new route of at most m + 1 hops is live. */
  lemma EventReplaces(w: World, ev: Event, c: Rest, x: Mac, d: Mac, m: nat, since: Clock, until: Clock)
    requires Sound(w) && Enabled(w, ev) && Closed(w.topo, c) && Local(c, ev) && Timed(ev, since, until)
    requires d in w.topo.nodes && BeaconOfNeighbour(w, ev, c, d)
    requires WireTrusted(w, c, d, m) && x in c.group && 1 <= m
    requires Trusted(RouteAt(w, x, d), x, d, c.live, m, until(x))
    ensures StepReplaces(w, Step(w, ev), c, x, d, m, since, until)
  {
    var t, q := w.tables[x], w.topo.ip(d);
    if x == ev.x {
      match ev
      case Neighbour(_, n, now) =>
        AddReplaces(t, x, w.topo.ip(n), n, n, 1, now, q, d, c.live, m, since(x), until(x));
      case Deliver(_, packet, now) =>
        ApplyAllReplaces(t, x, DecodeAll(packet.payload), packet.from, now, q, d, c.live, m, since(x), until(x));
      case Expire(_, now) => ExpireRefinesMap(t, now, q);
      case Withdraw(_, lost) => WithdrawRefinesMap(t, lost, q);
      case Remove(_, ip) => RemoveRefinesMap(t, ip, q);
      case Refresh(_, mac, now) => RefreshReplaces(t, x, w.topo, mac, now, d);
      case _ =>
    }
  }

  lemma EventAdvertises(w: World, ev: Event, c: Rest, d: Mac, m: nat, until: uint32)
    requires Sound(w) && Enabled(w, ev) && Closed(w.topo, c) && WireTrusted(w, c, d, m) && m <= 14
    requires ev.x in c.group ==> Trusted(RouteAt(w, ev.x, d), ev.x, d, c.live, m, until)
    ensures WireTrusted(Step(w, ev), c, d, m)
  {
    if ev.Advertise? && ev.x in c.group {
      var max := AdvCapacity(ev.bufLen);
      AdvertOfTrusted(w.tables[ev.x], ev.x, ev.exclude, max, w.topo.ip(d), d, c.live, m, until);
      AdvertRoundTrip(Advert(w.tables[ev.x], ev.exclude, max));
    }
  }

  /** Late expiry leaves only live routes of m + 1 hops. */
  lemma LateExpiry(w: World, x: Mac, now: uint32, d: Mac, live: set<(Mac, Mac)>, m: nat, since: uint32, until: uint32)
    requires Sound(w) && x in w.tables && d in w.topo.nodes && 1 <= m
    requires Settling(RouteAt(w, x, d), x, d, live, m, since, until)
    requires now <= until && now - since > ROUTE_EXPIRE_MS
    ensures Trusted(RouteAt(Step(w, Expire(x, now)), x, d), x, d, live, m + 1, until)
  {
    var t, q := w.tables[x], w.topo.ip(d);
    ExpireRefinesMap(t, now, q);
    LookupSome(t, q);
  }

  /** A direct route, however old, is never expired: those of lost contacts have to be withdrawn. */
  lemma DirectRouteNeverExpires(t: Table, q: uint32, now: uint32)
    requires Unique(t) && Lookup(t, q).Some? && Lookup(t, q).value.nextHopMac == Lookup(t, q).value.destMac
    ensures Lookup(Sweep(t, Expired(now)), q) == Lookup(t, q)
  {
    ExpireRefinesMap(t, now, q);
  }

  /* ----- One spell ----- */

  predicate IsLateExpiry(ev: Event, x: Mac, since: uint32)
  {
    ev.Expire? && ev.x == x && ev.now - since > ROUTE_EXPIRE_MS
  }

  predicate ExpiresLate(evs: seq<Event>, x: Mac, since: uint32)
  {
    exists i :: 0 <= i < |evs| && IsLateExpiry(evs[i], x, since)
  }

  /** Any events over live contacts between two moments, with an expiry at every node of the group after 90 s. */
  ghost predicate IsSpell(evs: seq<Event>, c: Rest, since: Clock, until: Clock)
  {
    && (forall x :: x in c.group ==> since(x) <= until(x))
    && (forall i :: 0 <= i < |evs| ==> Local(c, evs[i]) && Timed(evs[i], since, until))
    && (forall x :: x in c.group ==> ExpiresLate(evs, x, since(x)))
  }

  ghost predicate BeaconsOfNeighbours(w: World, evs: seq<Event>, c: Rest, d: Mac)
  {
    forall i :: 0 <= i < |evs| ==> BeaconOfNeighbour(Run(w, evs[..i]), evs[i], c, d)
  }

  ghost predicate SameNodes(w: World, v: World)
  {
    v.topo.nodes == w.topo.nodes && v.topo.ip == w.topo.ip && w.topo.links <= v.topo.links
  }

  ghost predicate TrustedAt(w: World, c: Rest, x: Mac, d: Mac, m: nat, until: Clock)
  {
    x in w.tables && Trusted(RouteAt(w, x, d), x, d, c.live, m, until(x))
  }

  ghost predicate AllTrusted(w: World, c: Rest, d: Mac, m: nat, until: Clock)
  {
    forall x :: x in c.group ==> TrustedAt(w, c, x, d, m, until)
  }

  ghost predicate SettlingAt(w: World, c: Rest, x: Mac, d: Mac, m: nat, since: Clock, until: Clock, expired: bool)
  {
    && x in w.tables && Settling(RouteAt(w, x, d), x, d, c.live, m, since(x), until(x))
    && (expired ==> TrustedAt(w, c, x, d, m + 1, until))
  }

  /** d is a node, the group is closed, and its adverts are right about d up to m + 1 hops. */
  ghost predicate Scene(w: World, c: Rest, d: Mac, m: nat)
  {
    Sound(w) && Closed(w.topo, c) && d in w.topo.nodes && WireTrusted(w, c, d, m) && 1 <= m <= 14
  }

  ghost predicate DuringSpell(w: World, c: Rest, d: Mac, evs: seq<Event>, m: nat, since: Clock, until: Clock)
  {
    && Scene(w, c, d, m)
    && forall x :: x in c.group ==> SettlingAt(w, c, x, d, m, since, until, ExpiresLate(evs, x, since(x)))
  }

  lemma SettlingStep(w: World, c: Rest, x: Mac, d: Mac, ev: Event, m: nat, since: Clock, until: Clock, expired: bool)
    requires Scene(w, c, d, m) && Enabled(w, ev) && Local(c, ev) && Timed(ev, since, until)
    requires BeaconOfNeighbour(w, ev, c, d) && x in c.group && SettlingAt(w, c, x, d, m, since, until, expired)
    ensures SettlingAt(Step(w, ev), c, x, d, m, since, until, expired || IsLateExpiry(ev, x, since(x)))
  {
    EventReplaces(w, ev, c, x, d, m, since, until);
    if IsLateExpiry(ev, x, since(x)) {
      LateExpiry(w, x, ev.now, d, c.live, m, since(x), until(x));
    }
  }

  lemma LateOrBefore(before: seq<Event>, ev: Event, x: Mac, since: uint32)
    requires ExpiresLate(before + [ev], x, since)
    ensures ExpiresLate(before, x, since) || IsLateExpiry(ev, x, since)
  {
    var evs := before + [ev];
    var i :| 0 <= i < |evs| && IsLateExpiry(evs[i], x, since);
    if i < |before| { assert before[i] == evs[i]; }
  }

  lemma SpellStep(w: World, c: Rest, d: Mac, before: seq<Event>, ev: Event, m: nat, since: Clock, until: Clock)
    requires DuringSpell(w, c, d, before, m, since, until)
    requires Enabled(w, ev) && Local(c, ev) && Timed(ev, since, until) && BeaconOfNeighbour(w, ev, c, d)
    ensures DuringSpell(Step(w, ev), c, d, before + [ev], m, since, until) && SameNodes(w, Step(w, ev))
  {
    var v := Step(w, ev);
    StepSound(w, ev);
    if ev.x in c.group {
      assert SettlingAt(w, c, ev.x, d, m, since, until, ExpiresLate(before, ev.x, since(ev.x)));
    }
    EventAdvertises(w, ev, c, d, m, until(ev.x));
    forall x | x in c.group
      ensures SettlingAt(v, c, x, d, m, since, until, ExpiresLate(before + [ev], x, since(x)))
    {
      SettlingStep(w, c, x, d, ev, m, since, until, ExpiresLate(before, x, since(x)));
      if ExpiresLate(before + [ev], x, since(x)) { LateOrBefore(before, ev, x, since(x)); }
    }
  }

  /** An expiry at a node of the group is never skipped. */
  lemma SkippedStep(w: World, c: Rest, d: Mac, before: seq<Event>, ev: Event, m: nat, since: Clock, until: Clock)
    requires DuringSpell(w, c, d, before, m, since, until) && !Enabled(w, ev)
    ensures DuringSpell(w, c, d, before + [ev], m, since, until)
  {
    forall x | x in c.group
      ensures SettlingAt(w, c, x, d, m, since, until, ExpiresLate(before + [ev], x, since(x)))
    {
      if ExpiresLate(before + [ev], x, since(x)) { LateOrBefore(before, ev, x, since(x)); }
    }
  }

  lemma {:induction false} SpellHolds(w: World, c: Rest, d: Mac, evs: seq<Event>, m: nat, since: Clock, until: Clock)
    requires Scene(w, c, d, m) && AllTrusted(w, c, d, m, since)
    requires forall x :: x in c.group ==> since(x) <= until(x)
    requires forall i :: 0 <= i < |evs| ==> Local(c, evs[i]) && Timed(evs[i], since, until)
    requires BeaconsOfNeighbours(w, evs, c, d)
    ensures DuringSpell(Run(w, evs), c, d, evs, m, since, until) && SameNodes(w, Run(w, evs))
  {
    if |evs| == 0 {
      forall x | x in c.group
        ensures SettlingAt(w, c, x, d, m, since, until, ExpiresLate(evs, x, since(x)))
      {
        assert TrustedAt(w, c, x, d, m, since);
      }
    } else {
      var n := |evs| - 1;
      var u := Run(w, evs[..n]);
      assert forall i :: 0 <= i < n ==> evs[..n][..i] == evs[..i];
      SpellHolds(w, c, d, evs[..n], m, since, until);
      assert evs == evs[..n] + [evs[n]];
      if Enabled(u, evs[n]) {
        SpellStep(u, c, d, evs[..n], evs[n], m, since, until);
      } else {
        SkippedStep(u, c, d, evs[..n], evs[n], m, since, until);
      }
    }
  }

  /** What is still in flight when a spell ends is lost. */
  function Silence(w: World): World
  {
    w.(wire := {})
  }

  /** One spell of a little more than 90 seconds makes the routes right for one hop more. */
  lemma SpellSettles(w: World, c: Rest, d: Mac, evs: seq<Event>, m: nat, since: Clock, until: Clock)
    requires Sound(w) && Closed(w.topo, c) && d in w.topo.nodes && AllTrusted(w, c, d, m, since) && 1 <= m <= 14
    requires IsSpell(evs, c, since, until) && BeaconsOfNeighbours(Silence(w), evs, c, d)
    ensures var v := Run(Silence(w), evs);
            Sound(v) && Closed(v.topo, c) && SameNodes(w, v) && AllTrusted(v, c, d, m + 1, until)
  {
    var v := Run(Silence(w), evs);
    SpellHolds(Silence(w), c, d, evs, m, since, until);
    forall x | x in c.group
      ensures TrustedAt(v, c, x, d, m + 1, until)
    {
      assert SettlingAt(v, c, x, d, m, since, until, ExpiresLate(evs, x, since(x)));
    }
  }

  /* ----- Spell after spell ----- */

  datatype Spell = Spell(events: seq<Event>, until: Clock)

  function EndOf(spells: seq<Spell>, start: Clock): Clock
  {
    if |spells| == 0 then start else spells[|spells| - 1].until
  }

  /** The spells follow one another from `start` on. */
  ghost predicate InSequence(spells: seq<Spell>, c: Rest, start: Clock)
  {
    forall i :: 0 <= i < |spells| ==> IsSpell(spells[i].events, c, EndOf(spells[..i], start), spells[i].until)
  }

  ghost function AfterSpells(w: World, spells: seq<Spell>): World
  {
    if |spells| == 0 then w
    else Run(Silence(AfterSpells(w, spells[..|spells| - 1])), spells[|spells| - 1].events)
  }

  ghost predicate BeaconsInSpells(w: World, spells: seq<Spell>, c: Rest, d: Mac)
  {
    forall i :: 0 <= i < |spells| ==>
      BeaconsOfNeighbours(Silence(AfterSpells(w, spells[..i])), spells[i].events, c, d)
  }

  /** Routes are right up to this many hops after n spells; no route has more than 15. */
  function Settled(n: nat): (m: nat)
    ensures 1 <= m <= 15
  {
    if n < 14 then n + 1 else 15
  }

  /** Direct routes to lost contacts have been withdrawn, and no route was updated after `now`. */
  ghost predicate LostContactsGone(w: World, c: Rest, d: Mac, now: Clock)
  {
    forall x :: x in c.group && x in w.tables && RouteAt(w, x, d).Some? ==>
      RouteAt(w, x, d).value.lastUpdated <= now(x) && (RouteAt(w, x, d).value.hopCount == 1 ==> (x, d) in c.live)
  }

  predicate AllWithdrawals(evs: seq<Event>)
  {
    forall i :: 0 <= i < |evs| ==> evs[i].Withdraw?
  }

  /** A withdrawal of d at x ends x's route to d, whichever way it goes, and no other route of any node. */
  lemma WithdrawEnds(w: World, x: Mac, d: Mac, y: Mac, e: Mac)
    requires Sound(w) && x in w.tables && y in w.tables && e in w.topo.nodes
    ensures var v := Step(w, Withdraw(x, d));
            RouteAt(v, y, e) == if y == x && e == d then None else RouteAt(w, y, e)
  {
    WithdrawRefinesMap(w.tables[x], d, w.topo.ip(e));
    LookupSome(w.tables[x], w.topo.ip(e));
  }

  /** After any withdrawals exactly those routes are gone. */
  lemma {:induction false} WithdrawalsEnd(w: World, evs: seq<Event>, y: Mac, e: Mac)
    requires Sound(w) && AllWithdrawals(evs) && y in w.tables && e in w.topo.nodes
    ensures var v := Run(w, evs);
            && Sound(v) && v.topo == w.topo && y in v.tables
            && RouteAt(v, y, e) == if Withdraw(y, e) in evs then None else RouteAt(w, y, e)
  {
    if |evs| > 0 {
      var init, ev := evs[..|evs| - 1], evs[|evs| - 1];
      assert evs == init + [ev];
      WithdrawalsEnd(w, init, y, e);
      RunSound(w, evs);
      if ev.x in Run(w, init).tables { WithdrawEnds(Run(w, init), ev.x, ev.lost, y, e); }
    }
  }

  /** Every node of the group withdraws d when it has lost contact with it, and no route is newer than `now`. */
  ghost predicate Withdrawn(w: World, c: Rest, d: Mac, now: Clock, evs: seq<Event>)
  {
    && AllWithdrawals(evs)
    && forall x :: x in c.group && x in w.tables && RouteAt(w, x, d).Some? ==>
         RouteAt(w, x, d).value.lastUpdated <= now(x)
         && (RouteAt(w, x, d).value.hopCount == 1 && (x, d) !in c.live ==> Withdraw(x, d) in evs)
  }

  lemma WithdrawalsClear(w: World, c: Rest, d: Mac, now: Clock, evs: seq<Event>)
    requires Sound(w) && Closed(w.topo, c) && d in w.topo.nodes && Withdrawn(w, c, d, now, evs)
    ensures var v := Run(w, evs);
            Sound(v) && v.topo == w.topo && LostContactsGone(v, c, d, now)
  {
    var v := Run(w, evs);
    RunSound(w, evs);
    TopologyStays(w, evs);
    forall x | x in c.group && x in v.tables && RouteAt(v, x, d).Some?
      ensures RouteAt(v, x, d).value.lastUpdated <= now(x)
      ensures RouteAt(v, x, d).value.hopCount == 1 ==> (x, d) in c.live
    {
      WithdrawalsEnd(w, evs, x, d);
    }
  }

  lemma {:induction false} TopologyStays(w: World, evs: seq<Event>)
    requires AllWithdrawals(evs)
    ensures Run(w, evs).topo == w.topo && Run(w, evs).tables.Keys == w.tables.Keys
  {
    if |evs| > 0 {
      TopologyStays(w, evs[..|evs| - 1]);
      assert AllWithdrawals(evs[..|evs| - 1]);
    }
  }

  lemma DirectRoutesTrusted(w: World, c: Rest, d: Mac, now: Clock)
    requires Sound(w) && Closed(w.topo, c) && d in w.topo.nodes && LostContactsGone(w, c, d, now)
    ensures AllTrusted(w, c, d, 1, now)
  {
    forall x | x in c.group
      ensures TrustedAt(w, c, x, d, 1, now)
    {
      LookupSome(w.tables[x], w.topo.ip(d));
    }
  }

  lemma SpellsBefore(w: World, c: Rest, d: Mac, start: Clock, spells: seq<Spell>, n: nat)
    requires InSequence(spells, c, start) && BeaconsInSpells(w, spells, c, d) && n <= |spells|
    ensures InSequence(spells[..n], c, start) && BeaconsInSpells(w, spells[..n], c, d)
  {
    assert forall i :: 0 <= i < n ==> spells[..n][..i] == spells[..i];
  }

  lemma TrustedLess(w: World, c: Rest, d: Mac, m: nat, n: nat, until: Clock)
    requires AllTrusted(w, c, d, m, until) && n <= m
    ensures AllTrusted(w, c, d, n, until)
  {
    forall x | x in c.group
      ensures TrustedAt(w, c, x, d, n, until)
    {
      assert TrustedAt(w, c, x, d, m, until);
    }
  }

  lemma {:induction false} SpellsSettle(w: World, c: Rest, d: Mac, start: Clock, spells: seq<Spell>)
    requires Sound(w) && Closed(w.topo, c) && d in w.topo.nodes && LostContactsGone(w, c, d, start)
    requires InSequence(spells, c, start) && BeaconsInSpells(w, spells, c, d)
    ensures var v := AfterSpells(w, spells);
            && Sound(v) && Closed(v.topo, c) && SameNodes(w, v)
            && AllTrusted(v, c, d, Settled(|spells|), EndOf(spells, start))
  {
    if |spells| == 0 {
      DirectRoutesTrusted(w, c, d, start);
    } else {
      var n := |spells| - 1;
      SpellsBefore(w, c, d, start, spells, n);
      SpellsSettle(w, c, d, start, spells[..n]);
      var since := EndOf(spells[..n], start);
      var u := AfterSpells(w, spells[..n]);
      var m := if Settled(n) == 15 then 14 else Settled(n);
      TrustedLess(u, c, d, Settled(n), m, since);
      SpellSettles(u, c, d, spells[n].events, m, since, spells[n].until);
    }
  }

  lemma AtMost15Hops(w: World, x: Mac, d: Mac)
    requires Sound(w) && x in w.tables
    ensures RouteAt(w, x, d).Some? ==> RouteAt(w, x, d).value.hopCount <= 15
  {
    LookupSome(w.tables[x], w.topo.ip(d));
  }

  /**
   However stale routes to d are passed round: after n spells of 90 seconds, each closed by
   expiry, every route of at most n + 1 hops is a walk over contacts that are still there, and
   after 14 spells every route is.
   */
  lemma StaleRoutesDie(w: World, c: Rest, d: Mac, start: Clock, spells: seq<Spell>, x: Mac)
    requires Sound(w) && Closed(w.topo, c) && d in w.topo.nodes && LostContactsGone(w, c, d, start)
    requires InSequence(spells, c, start) && BeaconsInSpells(w, spells, c, d) && x in c.group
    ensures var v := AfterSpells(w, spells);
            x in v.tables &&
            (RouteAt(v, x, d).Some? ==>
               var e := RouteAt(v, x, d).value;
               e.hopCount <= |spells| + 1 || |spells| >= 14 ==> LiveRoute(e, x, d, c.live))
  {
    var v := AfterSpells(w, spells);
    SpellsSettle(w, c, d, start, spells);
    assert TrustedAt(v, c, x, d, Settled(|spells|), EndOf(spells, start));
    AtMost15Hops(v, x, d);
  }

  /* ----- A node that can no longer be reached ----- */

  lemma {:induction false} WalkStaysInside(c: Rest, g: Topology, x: Mac, y: Mac, k: nat)
    requires Closed(g, c) && x in c.group && Walk(c.live, x, y, k)
    ensures y in c.group
    decreases k
  {
    if k > 0 {
      var n :| (x, n) in c.live && Walk(c.live, n, y, k - 1);
      assert (x, n).0 in c.group && (x, n).1 == n;
      WalkStaysInside(c, g, n, y, k - 1);
    }
  }

  lemma NoLiveRouteOut(c: Rest, g: Topology, e: RouteEntry, x: Mac, d: Mac)
    requires Closed(g, c) && x in c.group && d !in c.group
    ensures !LiveRoute(e, x, d, c.live)
  {
    if LiveRoute(e, x, d, c.live) {
      assert (x, e.nextHopMac).0 in c.group && (x, e.nextHopMac).1 == e.nextHopMac;
      WalkStaysInside(c, g, e.nextHopMac, d, e.hopCount - 1);
    }
  }

  lemma NoBeaconsFromOutside(w: World, evs: seq<Event>, c: Rest, g: Topology, d: Mac)
    requires Closed(g, c) && d !in c.group && forall i :: 0 <= i < |evs| ==> Local(c, evs[i])
    ensures BeaconsOfNeighbours(w, evs, c, d)
  {
    forall i | 0 <= i < |evs|
      ensures BeaconOfNeighbour(Run(w, evs[..i]), evs[i], c, d)
    {
      var ev := evs[i];
      if ev.Refresh? && ev.x in c.group { assert (ev.x, ev.mac).0 in c.group && (ev.x, ev.mac).1 == ev.mac; }
    }
  }

  /**
   The end of counting to infinity: in a group of nodes that has lost d, once the direct routes
   to d are gone, after n spells no node of the group has a route to d of at most n + 1 hops,
   and after 14 spells none has a route to d at all.
   */
  lemma UnreachableForgotten(w: World, c: Rest, d: Mac, start: Clock, spells: seq<Spell>, x: Mac)
    requires Sound(w) && Closed(w.topo, c) && d in w.topo.nodes && d !in c.group && x in c.group
    requires LostContactsGone(w, c, d, start) && InSequence(spells, c, start)
    ensures var v := AfterSpells(w, spells);
            x in v.tables &&
            (RouteAt(v, x, d).Some? ==> RouteAt(v, x, d).value.hopCount > |spells| + 1 && |spells| < 14)
  {
    forall i | 0 <= i < |spells|
      ensures BeaconsOfNeighbours(Silence(AfterSpells(w, spells[..i])), spells[i].events, c, d)
    {
      NoBeaconsFromOutside(Silence(AfterSpells(w, spells[..i])), spells[i].events, c, w.topo, d);
    }
    StaleRoutesDie(w, c, d, start, spells, x);
    var v := AfterSpells(w, spells);
    if RouteAt(v, x, d).Some? { NoLiveRouteOut(c, w.topo, RouteAt(v, x, d).value, x, d); }
  }

  /** So a group forgets d once each of its nodes that had d as a neighbour has withdrawn d, and 14 spells later. */
  lemma WithdrawnIsForgotten(w: World, c: Rest, d: Mac, start: Clock, evs: seq<Event>, spells: seq<Spell>, x: Mac)
    requires Sound(w) && Closed(w.topo, c) && d in w.topo.nodes && d !in c.group && x in c.group
    requires Withdrawn(w, c, d, start, evs) && InSequence(spells, c, start) && |spells| >= 14
    ensures var v := AfterSpells(Run(w, evs), spells);
            x in v.tables && RouteAt(v, x, d).None?
  {
    WithdrawalsClear(w, c, d, start, evs);
    UnreachableForgotten(Run(w, evs), c, d, start, spells, x);
  }
}
