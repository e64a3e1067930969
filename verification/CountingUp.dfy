/**
 How long a lost node is remembered. One spell of 90 seconds with expiry is enough exactly when no
 node can pass its stale route on; three nodes that hear each other can.
 */
module CountingUp {
  import opened MeshTypes
  import opened RouteTable
  import opened RouteNetwork
  import opened Convergence
  import opened Upkeep
  import opened Forgetting

  /* ----- When one spell is enough ----- */

  ghost predicate PurgesLate(mvs: seq<Move>, x: Mac, since: uint32)
  {
    exists i :: 0 <= i < |mvs| && IsLatePurge(mvs[i], x, since)
  }

  predicate IsLatePurge(mv: Move, x: Mac, since: uint32)
  {
    mv.Purge? && mv.x == x && mv.now - since > ROUTE_EXPIRE_MS
  }

  predicate IsGroupMove(mv: Move, c: Rest, since: Clock)
  {
    mv.x in c.group && since(mv.x) <= mv.now && (mv.Hear? ==> (mv.x, mv.n) in c.live)
  }

  ghost predicate AllGroupMoves(mvs: seq<Move>, c: Rest, since: Clock)
  {
    forall i :: 0 <= i < |mvs| ==> IsGroupMove(mvs[i], c, since)
  }

  /** Moves of the group over live contacts, from `since` on, with an expiry at every node after 90 seconds. */
  ghost predicate IsMoveSpell(mvs: seq<Move>, c: Rest, since: Clock)
  {
    && AllGroupMoves(mvs, c, since)
    && (forall x :: x in c.group ==> PurgesLate(mvs, x, since(x)))
  }

  /** A part of a small network has lost d, and the direct routes to d are gone. */
  ghost predicate HasLost(w: World, c: Rest, d: Mac, since: Clock)
  {
    && Stable(w) && Closed(w.topo, c) && c.live <= w.topo.links && d in w.topo.nodes && d !in c.group
    && forall x :: x in c.group && x in w.tables && RouteTo(w, x, d).Some? ==>
         RouteTo(w, x, d).value.lastUpdated <= since(x) && RouteTo(w, x, d).value.nextHopMac != d
  }

  /** Nobody can pass a route to d on: its only live hearer, if any, is its own next hop, or it has 15 hops. */
  ghost predicate Quiet(w: World, c: Rest, d: Mac)
  {
    forall x, y :: x in c.group && y in c.group && (y, x) in c.live && x in w.tables && RouteTo(w, x, d).Some? ==>
      RouteTo(w, x, d).value.hopCount >= 15 || RouteTo(w, x, d).value.nextHopMac == y
  }

  ghost predicate ForgottenBy(w: World, c: Rest, d: Mac)
  {
    forall x :: x in c.group ==> x in w.tables && RouteTo(w, x, d).None?
  }

  /** x's route to d is what it was, or gone; certainly gone if expired. */
  ghost predicate Fades(w: World, u: World, x: Mac, d: Mac, gone: bool)
  {
    && x in w.tables && x in u.tables
    && (RouteTo(u, x, d) == RouteTo(w, x, d) || RouteTo(u, x, d).None?) && (gone ==> RouteTo(u, x, d).None?)
  }

  ghost predicate AllFade(w: World, u: World, mvs: seq<Move>, c: Rest, d: Mac, since: Clock)
  {
    forall x :: x in c.group ==> Fades(w, u, x, d, PurgesLate(mvs, x, since(x)))
  }

  /** An advert that cannot bring a route brings none. */
  lemma HearQuietly(w: World, u: World, c: Rest, d: Mac, since: Clock, y: Mac, n: Mac, now: uint32, gone: bool)
    requires HasLost(w, c, d, since) && Quiet(w, c, d) && Stable(u) && u.topo == w.topo
    requires y in c.group && n in c.group && (y, n) in c.live && y in u.tables && n in u.tables
    requires Fades(w, u, y, d, gone) && Fades(w, u, n, d, false)
    ensures Fades(w, Exchange(u, y, n, now), y, d, gone)
  {
    ExchangeRoute(u, y, n, now, d);
    if RouteTo(u, n, d).Some? {
      AtMost15Hops(u, n, d);
      NothingOffered(RouteTo(u, y, d), RouteTo(u, n, d).value, y, n, now);
    }
  }

  lemma NothingOffered(was: Option<RouteEntry>, e: RouteEntry, y: Mac, n: Mac, now: uint32)
    requires e.hopCount == 15 || e.nextHopMac == y
    ensures var r := ApplyOne(was, Export(e, Some(y)), n, now);
            r == was || r.None?
  {
  }

  lemma PurgeFades(w: World, u: World, c: Rest, d: Mac, since: Clock, x: Mac, now: uint32, gone: bool)
    requires HasLost(w, c, d, since) && Stable(u) && u.topo == w.topo && x in c.group && x in u.tables
    requires Fades(w, u, x, d, gone) && since(x) <= now
    ensures Fades(w, Make(u, Purge(x, now)), x, d, gone || now - since(x) > ROUTE_EXPIRE_MS)
  {
    SweepRefinesMap(u.tables[x], Expired(now), u.topo.ip(d));
    RouteSound(u, x, d);
  }

  lemma LateOrBeforeMove(mvs: seq<Move>, mv: Move, x: Mac, since: uint32)
    requires PurgesLate(mvs + [mv], x, since)
    ensures PurgesLate(mvs, x, since) || IsLatePurge(mv, x, since)
  {
    var all := mvs + [mv];
    var i :| 0 <= i < |all| && IsLatePurge(all[i], x, since);
    if i < |mvs| { assert mvs[i] == all[i]; }
  }

  lemma MoveFades(w: World, u: World, mvs: seq<Move>, mv: Move, c: Rest, d: Mac, since: Clock)
    requires HasLost(w, c, d, since) && Quiet(w, c, d) && Stable(u) && u.topo == w.topo && CanMake(u, mv)
    requires IsGroupMove(mv, c, since)
    requires AllFade(w, u, mvs, c, d, since)
    ensures AllFade(w, Make(u, mv), mvs + [mv], c, d, since)
  {
    MakeStable(u, mv);
    forall x | x in c.group
      ensures Fades(w, Make(u, mv), x, d, PurgesLate(mvs + [mv], x, since(x)))
    {
      if PurgesLate(mvs + [mv], x, since(x)) { LateOrBeforeMove(mvs, mv, x, since(x)); }
      assert Fades(w, u, x, d, PurgesLate(mvs, x, since(x)));
      if mv.x == x {
        match mv
        case Hear(_, n, now) =>
          assert (x, n).0 in c.group && (x, n).1 == n;
          assert Fades(w, u, n, d, PurgesLate(mvs, n, since(n)));
          HearQuietly(w, u, c, d, since, x, n, now, PurgesLate(mvs, x, since(x)));
        case Purge(_, now) => PurgeFades(w, u, c, d, since, x, now, PurgesLate(mvs, x, since(x)));
      }
    }
  }

  lemma SpellCanBeMade(w: World, mvs: seq<Move>, c: Rest, d: Mac, since: Clock)
    requires HasLost(w, c, d, since)
    requires AllGroupMoves(mvs, c, since)
    ensures AllCanMake(w, mvs)
  {
    forall i | 0 <= i < |mvs|
      ensures CanMake(w, mvs[i])
    {
      assert IsGroupMove(mvs[i], c, since);
      if mvs[i].Hear? { assert (mvs[i].x, mvs[i].n).0 in c.group && (mvs[i].x, mvs[i].n).1 == mvs[i].n; }
    }
  }

  lemma AfterLast(w: World, mvs: seq<Move>)
    requires Stable(w) && AllCanMake(w, mvs) && |mvs| > 0
    ensures var init := mvs[..|mvs| - 1];
            var mv := mvs[|mvs| - 1];
            && mvs == init + [mv] && AllCanMake(w, init)
            && CanMake(After(w, init), mv) && After(w, mvs) == Make(After(w, init), mv)
  {
    assert CanMake(w, mvs[|mvs| - 1]);
  }

  lemma FadesOn(w: World, mvs: seq<Move>, c: Rest, d: Mac, since: Clock)
    requires HasLost(w, c, d, since) && Quiet(w, c, d) && AllCanMake(w, mvs) && |mvs| > 0
    requires IsGroupMove(mvs[|mvs| - 1], c, since) && AllCanMake(w, mvs[..|mvs| - 1])
    requires AllFade(w, After(w, mvs[..|mvs| - 1]), mvs[..|mvs| - 1], c, d, since)
    ensures AllFade(w, After(w, mvs), mvs, c, d, since)
  {
    AfterLast(w, mvs);
    var init := mvs[..|mvs| - 1];
    MoveFades(w, After(w, init), init, mvs[|mvs| - 1], c, d, since);
  }

  lemma {:induction false} MovesFade(w: World, mvs: seq<Move>, c: Rest, d: Mac, since: Clock)
    requires HasLost(w, c, d, since) && Quiet(w, c, d) && AllCanMake(w, mvs) && AllGroupMoves(mvs, c, since)
    ensures AllFade(w, After(w, mvs), mvs, c, d, since)
  {
    if |mvs| == 0 {
      NothingFadedYet(w, c, d, since);
    } else {
      ShorterMoves(w, mvs, c, since);
      MovesFade(w, mvs[..|mvs| - 1], c, d, since);
      FadesOn(w, mvs, c, d, since);
    }
  }

  lemma ShorterMoves(w: World, mvs: seq<Move>, c: Rest, since: Clock)
    requires AllCanMake(w, mvs) && AllGroupMoves(mvs, c, since) && |mvs| > 0
    ensures var init := mvs[..|mvs| - 1];
            AllCanMake(w, init) && AllGroupMoves(init, c, since) && IsGroupMove(mvs[|mvs| - 1], c, since)
  {
  }

  lemma NothingFadedYet(w: World, c: Rest, d: Mac, since: Clock)
    requires HasLost(w, c, d, since)
    ensures AllFade(w, w, [], c, d, since)
  {
    forall x | x in c.group
      ensures Fades(w, w, x, d, PurgesLate([], x, since(x)))
    {
    }
  }

  lemma QuietForgets(w: World, mvs: seq<Move>, c: Rest, d: Mac, since: Clock)
    requires HasLost(w, c, d, since) && Quiet(w, c, d) && IsMoveSpell(mvs, c, since)
    ensures AllCanMake(w, mvs) && ForgottenBy(After(w, mvs), c, d)
  {
    SpellCanBeMade(w, mvs, c, d, since);
    MovesFade(w, mvs, c, d, since);
    forall x | x in c.group
      ensures x in After(w, mvs).tables && RouteTo(After(w, mvs), x, d).None?
    {
      assert Fades(w, After(w, mvs), x, d, PurgesLate(mvs, x, since(x)));
    }
  }

  /* ----- A node that can pass its route on does so at the last moment ----- */

  lemma Enumerate(s: set<Mac>) returns (q: seq<Mac>)
    ensures forall m :: m in q <==> m in s
  {
    q := [];
    if s != {} {
      var m :| m in s;
      q := Enumerate(s - {m});
      q := q + [m];
    }
  }

  function PurgeAll(q: seq<Mac>, late: Clock): (mvs: seq<Move>)
    ensures |mvs| == |q| && forall i :: 0 <= i < |q| ==> mvs[i] == Purge(q[i], late(q[i]))
  {
    seq(|q|, i requires 0 <= i < |q| => Purge(q[i], late(q[i])))
  }

  /** y expires its routes, hears x, and only then everybody else expires theirs. */
  function LastMinute(y: Mac, x: Mac, q: seq<Mac>, late: Clock): seq<Move>
  {
    [Purge(y, late(y)), Hear(y, x, late(y))] + PurgeAll(q, late)
  }

  lemma LastMinuteIsSpell(c: Rest, since: Clock, late: Clock, y: Mac, x: Mac, q: seq<Mac>)
    requires y in c.group && (y, x) in c.live && (forall z :: z in q <==> z in c.group - {y})
    requires forall z :: z in c.group ==> late(z) - since(z) > ROUTE_EXPIRE_MS
    ensures IsMoveSpell(LastMinute(y, x, q, late), c, since)
  {
    var mvs := LastMinute(y, x, q, late);
    forall i | 2 <= i < |mvs|
      ensures mvs[i].Purge? && mvs[i].x in c.group && since(mvs[i].x) <= mvs[i].now
    {
      assert mvs[i] == Purge(q[i - 2], late(q[i - 2])) && q[i - 2] in q;
    }
    forall z | z in c.group
      ensures PurgesLate(mvs, z, since(z))
    {
      if z == y {
        assert IsLatePurge(mvs[0], z, since(z));
      } else {
        assert z in q;
        var i :| 0 <= i < |q| && q[i] == z;
        assert mvs[2 + i] == PurgeAll(q, late)[i];
        assert IsLatePurge(mvs[2 + i], z, since(z));
      }
    }
  }

  /** y, having expired its own route, takes up x's. */
  lemma TakesUp(w: World, c: Rest, d: Mac, since: Clock, now: uint32, x: Mac, y: Mac)
    requires HasLost(w, c, d, since) && x in c.group && y in c.group && (y, x) in c.live && x in w.tables
    requires RouteTo(w, x, d).Some? && RouteTo(w, x, d).value.hopCount < 15 && RouteTo(w, x, d).value.nextHopMac != y
    requires now - since(y) > ROUTE_EXPIRE_MS
    ensures var u := Make(w, Purge(y, now));
            CanMake(u, Hear(y, x, now)) && RouteTo(Make(u, Hear(y, x, now)), y, d).Some?
  {
    var u := Make(w, Purge(y, now));
    MakeStable(w, Purge(y, now));
    PurgeFades(w, w, c, d, since, y, now, false);
    ExchangeRoute(u, y, x, now, d);
  }

  lemma LastByOther(w: World, mvs: seq<Move>, y: Mac)
    requires Stable(w) && AllCanMake(w, mvs) && |mvs| > 0 && mvs[|mvs| - 1].x != y && y in w.tables
    ensures AllCanMake(w, mvs[..|mvs| - 1]) && After(w, mvs).tables[y] == After(w, mvs[..|mvs| - 1]).tables[y]
  {
    AfterLast(w, mvs);
    MakeStable(After(w, mvs[..|mvs| - 1]), mvs[|mvs| - 1]);
  }

  lemma PrefixOfInit<T>(s: seq<T>, n: nat)
    requires n < |s|
    ensures s[..|s| - 1][..n] == s[..n]
  {
  }

  ghost predicate OthersFrom(mvs: seq<Move>, n: nat, y: Mac)
  {
    forall i :: n <= i < |mvs| ==> mvs[i].x != y
  }

  /** Moves of others do not touch y's table. */
  lemma {:induction false} OthersMove(w: World, mvs: seq<Move>, n: nat, y: Mac)
    requires Stable(w) && AllCanMake(w, mvs) && n <= |mvs| && y in w.tables && OthersFrom(mvs, n, y)
    ensures AllCanMake(w, mvs[..n]) && After(w, mvs).tables[y] == After(w, mvs[..n]).tables[y]
  {
    if n == |mvs| {
      assert mvs[..n] == mvs;
    } else {
      LastByOther(w, mvs, y);
      PrefixOfInit(mvs, n);
      OthersMove(w, mvs[..|mvs| - 1], n, y);
    }
  }

  lemma FirstTwo(w: World, y: Mac, x: Mac, now: uint32)
    requires Stable(w) && CanMake(w, Purge(y, now)) && CanMake(w, Hear(y, x, now))
    ensures var mvs := [Purge(y, now), Hear(y, x, now)];
            && AllCanMake(w, mvs) && CanMake(Make(w, Purge(y, now)), Hear(y, x, now))
            && After(w, mvs) == Make(Make(w, Purge(y, now)), Hear(y, x, now))
  {
    var mvs := [Purge(y, now), Hear(y, x, now)];
    MakeStable(w, Purge(y, now));
    assert mvs[..1] == [Purge(y, now)] && mvs[..1][..0] == [];
    assert After(w, []) == w;
    assert After(w, mvs[..1]) == Make(w, Purge(y, now));
  }

  lemma KeepsWhatItTook(w: World, c: Rest, d: Mac, since: Clock, late: Clock, x: Mac, y: Mac, q: seq<Mac>)
    requires HasLost(w, c, d, since) && x in c.group && y in c.group && (y, x) in c.live && x in w.tables
    requires RouteTo(w, x, d).Some? && RouteTo(w, x, d).value.hopCount < 15 && RouteTo(w, x, d).value.nextHopMac != y
    requires late(y) - since(y) > ROUTE_EXPIRE_MS && y !in q
    requires AllCanMake(w, LastMinute(y, x, q, late))
    ensures y in c.group && RouteTo(After(w, LastMinute(y, x, q, late)), y, d).Some?
  {
    TakesUp(w, c, d, since, late(y), x, y);
    FirstTwo(w, y, x, late(y));
    var mvs := LastMinute(y, x, q, late);
    assert mvs[..2] == [Purge(y, late(y)), Hear(y, x, late(y))];
    forall i | 2 <= i < |mvs|
      ensures mvs[i].x != y
    {
      assert mvs[i] == PurgeAll(q, late)[i - 2] && q[i - 2] in q;
    }
    OthersMove(w, mvs, 2, y);
  }

  lemma UnquietRemembers(w: World, c: Rest, d: Mac, since: Clock, late: Clock) returns (mvs: seq<Move>)
    requires HasLost(w, c, d, since) && !Quiet(w, c, d)
    requires forall z :: z in c.group ==> late(z) - since(z) > ROUTE_EXPIRE_MS
    ensures IsMoveSpell(mvs, c, since) && AllCanMake(w, mvs) && !ForgottenBy(After(w, mvs), c, d)
  {
    var x, y :| x in c.group && y in c.group && (y, x) in c.live && x in w.tables && RouteTo(w, x, d).Some?
                && RouteTo(w, x, d).value.hopCount < 15 && RouteTo(w, x, d).value.nextHopMac != y;
    var q := Enumerate(c.group - {y});
    mvs := LastMinute(y, x, q, late);
    LastMinuteIsSpell(c, since, late, y, x, q);
    SpellCanBeMade(w, mvs, c, d, since);
    KeepsWhatItTook(w, c, d, since, late, x, y, q);
  }

  /** In every spell, whatever is exchanged, all routes to d are gone in the end. */
  ghost predicate OneSpellIsEnough(w: World, c: Rest, d: Mac, since: Clock)
    requires Stable(w)
  {
    forall mvs :: IsMoveSpell(mvs, c, since) && AllCanMake(w, mvs) ==> ForgottenBy(After(w, mvs), c, d)
  }

  /**
   One spell of 90 seconds, closed by expiry, always clears a group of the routes to a node it has
   lost, if and only if no node of the group with a route of less than 15 hops to it is heard by
   another node of the group than its next hop.
   */
  lemma OneSpellIsEnoughIffQuiet(w: World, c: Rest, d: Mac, since: Clock, late: Clock)
    requires HasLost(w, c, d, since)
    requires forall z :: z in c.group ==> late(z) - since(z) > ROUTE_EXPIRE_MS
    ensures OneSpellIsEnough(w, c, d, since) <==> Quiet(w, c, d)
  {
    if Quiet(w, c, d) {
      forall mvs | IsMoveSpell(mvs, c, since) && AllCanMake(w, mvs)
        ensures ForgottenBy(After(w, mvs), c, d)
      {
        QuietForgets(w, mvs, c, d, since);
      }
    } else {
      var mvs := UnquietRemembers(w, c, d, since, late);
    }
  }

  /* ----- Three nodes that count up ----- */

  /** What one exchange does to the routes to d. */
  lemma HearEffect(w: World, y: Mac, n: Mac, d: Mac, now: uint32)
    requires Stable(w) && y in w.tables && n in w.tables && (y, n) in w.topo.links && d in w.topo.nodes && d != y
    ensures var v := Exchange(w, y, n, now);
            && Stable(v) && v.topo == w.topo && v.tables.Keys == w.tables.Keys
            && (forall z :: z in w.tables && z != y ==> RouteTo(v, z, d) == RouteTo(w, z, d))
            && RouteTo(v, y, d) == match RouteTo(w, n, d)
                                   case None => RouteTo(w, y, d)
                                   case Some(e) => ApplyOne(RouteTo(w, y, d), Export(e, Some(y)), n, now)
  {
    ExchangeStable(w, y, n, now);
    ExchangeRoute(w, y, n, now, d);
  }

  predicate Via(r: Option<RouteEntry>, n: Mac, hops: nat)
  {
    r.Some? && r.value.nextHopMac == n && r.value.hopCount == hops
  }

  predicate NoneOrVia(r: Option<RouteEntry>, n: Mac)
  {
    r.Some? ==> r.value.nextHopMac == n
  }

  /** a, b and c are in mutual contact. */
  ghost predicate Triangle(w: World, a: Mac, b: Mac, c: Mac, d: Mac)
  {
    && Stable(w) && a in w.tables && b in w.tables && c in w.tables && d in w.topo.nodes
    && a != b && a != c && b != c && d != a && d != b && d != c
    && {(a, b), (b, a), (a, c), (c, a), (b, c), (c, b)} <= w.topo.links
  }

  /**
   b holds a route to d by way of c, of h hops, while c, if it holds one, goes by way of a, and a
   by way of b: as when c has lost d, and b has missed it.
   */
  ghost predicate Circular(w: World, a: Mac, b: Mac, c: Mac, d: Mac, h: nat)
  {
    && Triangle(w, a, b, c, d) && Via(RouteTo(w, b, d), c, h)
    && NoneOrVia(RouteTo(w, a, d), b) && NoneOrVia(RouteTo(w, c, d), a)
  }

  /** ... all three do, and have just been told so. */
  ghost predicate Closing(w: World, a: Mac, b: Mac, c: Mac, d: Mac, h: nat, now: uint32)
  {
    && Circular(w, a, b, c, d, h) && RouteTo(w, a, d).Some? && RouteTo(w, c, d).Some?
    && RouteTo(w, a, d).value.lastUpdated == RouteTo(w, b, d).value.lastUpdated == now
    && RouteTo(w, c, d).value.lastUpdated == now
  }

  lemma TakenOver(was: Option<RouteEntry>, e: RouteEntry, y: Mac, n: Mac, now: uint32)
    requires NoneOrVia(was, n) && e.nextHopMac != y && e.hopCount + 1 <= 15
    ensures var r := ApplyOne(was, Export(e, Some(y)), n, now);
            Via(r, n, e.hopCount + 1) && r.value.lastUpdated == now
  {
  }

  /** n passes its route on to y, whose own route, if any, goes by way of n. */
  lemma PassOn(w: World, y: Mac, n: Mac, p: Mac, d: Mac, h: nat, now: uint32)
    requires Stable(w) && y in w.tables && n in w.tables && (y, n) in w.topo.links && d in w.topo.nodes && d != y
    requires Via(RouteTo(w, n, d), p, h) && p != y && NoneOrVia(RouteTo(w, y, d), n) && h + 1 <= 15
    ensures var v := Exchange(w, y, n, now);
            && Stable(v) && v.topo == w.topo && v.tables.Keys == w.tables.Keys
            && (forall z :: z in w.tables && z != y ==> RouteTo(v, z, d) == RouteTo(w, z, d))
            && Via(RouteTo(v, y, d), n, h + 1) && RouteTo(v, y, d).value.lastUpdated == now
  {
    HearEffect(w, y, n, d, now);
    TakenOver(RouteTo(w, y, d), RouteTo(w, n, d).value, y, n, now);
  }

  /** A move, if it can be made. */
  ghost function Try(w: World, mv: Move): World
  {
    if CanMake(w, mv) then Make(w, mv) else w
  }

  ghost function Try3(w: World, first: Move, second: Move, third: Move): World
  {
    Try(Try(Try(w, first), second), third)
  }

  /** Once round, and the route is three hops longer. */
  lemma OnceRound(w: World, a: Mac, b: Mac, c: Mac, d: Mac, h: nat, now: uint32)
    requires Circular(w, a, b, c, d, h) && h + 3 <= 15
    ensures Closing(Try3(w, Hear(a, b, now), Hear(c, a, now), Hear(b, c, now)), a, b, c, d, h + 3, now)
  {
    PassOn(w, a, b, c, d, h, now);
    var v := Try(w, Hear(a, b, now));
    PassOn(v, c, a, b, d, h + 1, now);
    PassOn(Try(v, Hear(c, a, now)), b, c, a, d, h + 2, now);
  }

  /** A poisoned advert of a node that goes by way of y does not touch y's route. */
  lemma PoisonFromFollower(w: World, y: Mac, n: Mac, p: Mac, d: Mac, now: uint32)
    requires Stable(w) && y in w.tables && n in w.tables && (y, n) in w.topo.links && d in w.topo.nodes && d != y
    requires RouteTo(w, n, d).Some? && RouteTo(w, n, d).value.nextHopMac == y
    requires RouteTo(w, y, d).Some? && RouteTo(w, y, d).value.nextHopMac == p && p != n
    ensures var v := Exchange(w, y, n, now);
            && Stable(v) && v.topo == w.topo && v.tables.Keys == w.tables.Keys
            && (forall z :: z in w.tables ==> RouteTo(v, z, d) == RouteTo(w, z, d))
  {
    HearEffect(w, y, n, d, now);
  }

  /** Poisoned adverts, the other way round, change nothing. */
  lemma PoisonIsNoHelp(w: World, a: Mac, b: Mac, c: Mac, d: Mac, h: nat, now: uint32)
    requires Closing(w, a, b, c, d, h, now)
    ensures Closing(Try3(w, Hear(a, c, now), Hear(c, b, now), Hear(b, a, now)), a, b, c, d, h, now)
  {
    PoisonFromFollower(w, a, c, b, d, now);
    var v := Try(w, Hear(a, c, now));
    PoisonFromFollower(v, c, b, a, d, now);
    PoisonFromFollower(Try(v, Hear(c, b, now)), b, a, c, d, now);
  }

  lemma FreshKept(t: Table, q: uint32, now: uint32)
    requires Unique(t) && Lookup(t, q).Some? && Lookup(t, q).value.lastUpdated == now
    ensures Lookup(Sweep(t, Expired(now)), q) == Lookup(t, q)
  {
    SweepRefinesMap(t, Expired(now), q);
  }

  lemma FreshStays(w: World, x: Mac, d: Mac, now: uint32)
    requires Stable(w) && x in w.tables && RouteTo(w, x, d).Some? && RouteTo(w, x, d).value.lastUpdated == now
    ensures var v := Make(w, Purge(x, now));
            && Stable(v) && v.topo == w.topo && v.tables.Keys == w.tables.Keys
            && (forall z :: z in w.tables ==> RouteTo(v, z, d) == RouteTo(w, z, d))
  {
    var q := w.topo.ip(d);
    MakeStable(w, Purge(x, now));
    FreshKept(w.tables[x], q, now);
    var v := Make(w, Purge(x, now));
    forall z | z in w.tables
      ensures RouteTo(v, z, d) == RouteTo(w, z, d)
    {
      if z == x { assert v.tables[x] == Sweep(w.tables[x], Expired(now)); }
    }
  }

  /** Neither does expiry: the routes are fresh. */
  lemma ExpiryIsNoHelp(w: World, a: Mac, b: Mac, c: Mac, d: Mac, h: nat, now: uint32, x: Mac)
    requires Closing(w, a, b, c, d, h, now) && (x == a || x == b || x == c)
    ensures Closing(Make(w, Purge(x, now)), a, b, c, d, h, now)
  {
    FreshStays(w, x, d, now);
  }

  /** One interval: every node of the triangle hears both others, and then expires its routes. */
  ghost function AfterInterval(w: World, a: Mac, b: Mac, c: Mac, now: uint32): World
  {
    var u := Try3(w, Hear(a, b, now), Hear(c, a, now), Hear(b, c, now));
    var v := Try3(u, Hear(a, c, now), Hear(c, b, now), Hear(b, a, now));
    Try3(v, Purge(a, now), Purge(b, now), Purge(c, now))
  }

  lemma ThreeExpiries(w: World, a: Mac, b: Mac, c: Mac, d: Mac, h: nat, now: uint32)
    requires Closing(w, a, b, c, d, h, now)
    ensures Closing(Try3(w, Purge(a, now), Purge(b, now), Purge(c, now)), a, b, c, d, h, now)
  {
    ExpiryIsNoHelp(w, a, b, c, d, h, now, a);
    ExpiryIsNoHelp(Try(w, Purge(a, now)), a, b, c, d, h, now, b);
    ExpiryIsNoHelp(Try(Try(w, Purge(a, now)), Purge(b, now)), a, b, c, d, h, now, c);
  }

  lemma IntervalCountsUp(w: World, a: Mac, b: Mac, c: Mac, d: Mac, h: nat, now: uint32)
    requires Circular(w, a, b, c, d, h) && h + 3 <= 15
    ensures Closing(AfterInterval(w, a, b, c, now), a, b, c, d, h + 3, now)
  {
    OnceRound(w, a, b, c, d, h, now);
    var u := Try3(w, Hear(a, b, now), Hear(c, a, now), Hear(b, c, now));
    PoisonIsNoHelp(u, a, b, c, d, h + 3, now);
    ThreeExpiries(Try3(u, Hear(a, c, now), Hear(c, b, now), Hear(b, a, now)), a, b, c, d, h + 3, now);
  }

  ghost function AfterIntervals(w: World, a: Mac, b: Mac, c: Mac, times: seq<uint32>): World
  {
    if |times| == 0 then w
    else AfterInterval(AfterIntervals(w, a, b, c, times[..|times| - 1]), a, b, c, times[|times| - 1])
  }

  /**
   Poison reverse does not stop three nodes: with every advert delivered and expiry at every node,
   each interval makes a circular route three hops longer and refreshes it, until it has come to
   15 hops.
   */
  lemma {:induction false} CountsUp(w: World, a: Mac, b: Mac, c: Mac, d: Mac, h: nat, times: seq<uint32>)
    requires Circular(w, a, b, c, d, h) && h + 3 * |times| <= 15
    ensures var v := AfterIntervals(w, a, b, c, times);
            && Circular(v, a, b, c, d, h + 3 * |times|)
            && (|times| > 0 ==> Closing(v, a, b, c, d, h + 3 * |times|, times[|times| - 1]))
  {
    if |times| > 0 {
      var n := |times| - 1;
      CountsUp(w, a, b, c, d, h, times[..n]);
      IntervalCountsUp(AfterIntervals(w, a, b, c, times[..n]), a, b, c, d, h + 3 * n, times[n]);
    }
  }

  /** With an advert every 30 seconds, a stale route of two hops is still there, and fresh, after two minutes. */
  lemma FreshAfterTwoMinutes(w: World, a: Mac, b: Mac, c: Mac, d: Mac, start: uint32)
    requires Circular(w, a, b, c, d, 2) && start + 120_000 <= UINT32_MAX
    ensures var v := AfterIntervals(w, a, b, c, [start + 30_000, start + 60_000, start + 90_000, start + 120_000]);
            && b in v.tables && Via(RouteTo(v, b, d), c, 14)
            && RouteTo(v, b, d).value.lastUpdated == start + 120_000
  {
    CountsUp(w, a, b, c, d, 2, [start + 30_000, start + 60_000, start + 90_000, start + 120_000]);
  }

  /* ----- A network to start from ----- */

  function Node(i: uint8): Mac
  {
    Mac(2, 0, 0, 0, 0, i)
  }

  /** Nodes 1, 2 and 3 hear each other, and 3 has heard 4. */
  function ExampleTopology(): Topology
  {
    Topology({Node(1), Node(2), Node(3), Node(4)},
             {(Node(1), Node(2)), (Node(2), Node(1)), (Node(1), Node(3)), (Node(3), Node(1)),
              (Node(2), Node(3)), (Node(3), Node(2)), (Node(3), Node(4))},
             (m: Mac) => m.b5)
  }

  function NoRoutes(): (t: Table)
    ensures |t| == MAX_ROUTES && forall i :: 0 <= i < |t| ==> !t[i].valid
  {
    seq(MAX_ROUTES, i => NewRoute(0, Node(0), Node(0), 1, 0).(valid := false))
  }

  /** Node 2 alone has a route to node 4, by way of node 3, which has lost it. */
  function ExampleNetwork(): World
  {
    World(ExampleTopology(),
          map[Node(1) := NoRoutes(), Node(2) := NoRoutes()[0 := NewRoute(4, Node(4), Node(3), 2, 0)],
              Node(3) := NoRoutes(), Node(4) := NoRoutes()],
          {})
  }

  lemma NoRoutesSound(x: Mac)
    ensures TableSound(NoRoutes(), x, ExampleTopology())
  {
  }

  lemma OneRouteSound()
    ensures TableSound(NoRoutes()[0 := NewRoute(4, Node(4), Node(3), 2, 0)], Node(2), ExampleTopology())
  {
    var links := ExampleTopology().links;
    assert Walk(links, Node(4), Node(4), 0);
    assert (Node(3), Node(4)) in links && Walk(links, Node(3), Node(4), 1);
    assert EntrySound(NewRoute(4, Node(4), Node(3), 2, 0), Node(2), ExampleTopology());
  }

  lemma ExampleIsSound()
    ensures Sound(ExampleNetwork())
  {
    NoRoutesSound(Node(1));
    OneRouteSound();
    NoRoutesSound(Node(3));
    NoRoutesSound(Node(4));
  }

  lemma SmallNetwork()
    ensures |ExampleTopology().nodes| <= MAX_NODES
  {
    var nodes := ExampleTopology().nodes;
    assert nodes == {Node(1)} + {Node(2)} + {Node(3)} + {Node(4)};
  }

  lemma ExampleRoutes()
    ensures Lookup(NoRoutes(), 4) == None
    ensures Lookup(NoRoutes()[0 := NewRoute(4, Node(4), Node(3), 2, 0)], 4) == Some(NewRoute(4, Node(4), Node(3), 2, 0))
  {
    LookupSome(NoRoutes(), 4);
    LookupOf(NoRoutes()[0 := NewRoute(4, Node(4), Node(3), 2, 0)], 0);
  }

  lemma ExampleTriangle()
    ensures Triangle(ExampleNetwork(), Node(1), Node(2), Node(3), Node(4))
  {
    ExampleIsSound();
    SmallNetwork();
  }

  /** Such networks exist: after FreshAfterTwoMinutes, node 2 still has its route. */
  lemma CircularExample()
    ensures Circular(ExampleNetwork(), Node(1), Node(2), Node(3), Node(4), 2)
  {
    ExampleTriangle();
    ExampleRoutes();
  }
}
