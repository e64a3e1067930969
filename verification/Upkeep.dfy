/**
 Convergence with expiry running: next hops repeat their adverts, and a node that has heard its
 neighbours within 90 seconds never expires a route of the right length.
 */
module Upkeep {
  import opened MeshTypes
  import opened RouteTable
  import opened RouteNetwork
  import opened Convergence

  /** x processes an advert of n, or expires its routes. */
  datatype Move = Hear(x: Mac, n: Mac, now: uint32) | Purge(x: Mac, now: uint32)

  ghost predicate CanMake(w: World, mv: Move)
  {
    mv.x in w.tables && (mv.Hear? ==> mv.n in w.tables && (mv.x, mv.n) in w.topo.links)
  }

  ghost function Make(w: World, mv: Move): World
    requires CanMake(w, mv)
  {
    match mv
    case Hear(x, n, now) => Exchange(w, x, n, now)
    case Purge(x, now) => SetTable(w, x, Sweep(w.tables[x], Expired(now)))
  }

  lemma MakeStable(w: World, mv: Move)
    requires Stable(w) && CanMake(w, mv)
    ensures var v := Make(w, mv);
            && Stable(v) && v.topo == w.topo && v.tables.Keys == w.tables.Keys
            && (forall y :: y in w.tables && y != mv.x ==> v.tables[y] == w.tables[y])
  {
    match mv
    case Hear(x, n, now) => ExchangeStable(w, x, n, now);
    case Purge(x, now) =>
      SweepSound(w.tables[x], x, w.topo, Expired(now));
      SetTableSound(w, x, Sweep(w.tables[x], Expired(now)));
  }

  ghost predicate AllCanMake(w: World, mvs: seq<Move>)
  {
    forall i :: 0 <= i < |mvs| ==> CanMake(w, mvs[i])
  }

  ghost function After(w: World, mvs: seq<Move>): (v: World)
    requires Stable(w) && AllCanMake(w, mvs)
    ensures Stable(v) && v.topo == w.topo && v.tables.Keys == w.tables.Keys
  {
    if |mvs| == 0 then w
    else
      var u := After(w, mvs[..|mvs| - 1]);
      MakeStable(u, mvs[|mvs| - 1]);
      Make(u, mvs[|mvs| - 1])
  }

  /** When x last heard n. */
  function LastHeard(mvs: seq<Move>, x: Mac, n: Mac): Option<uint32>
  {
    if |mvs| == 0 then None
    else
      var mv := mvs[|mvs| - 1];
      if mv.Hear? && mv.x == x && mv.n == n then Some(mv.now) else LastHeard(mvs[..|mvs| - 1], x, n)
  }

  lemma LastHeardNext(mvs: seq<Move>, mv: Move, x: Mac, n: Mac)
    ensures LastHeard(mvs + [mv], x, n) ==
            if mv.Hear? && mv.x == x && mv.n == n then Some(mv.now) else LastHeard(mvs, x, n)
  {
    assert (mvs + [mv])[..|mvs|] == mvs;
  }

  /** A node expires routes only while it has heard each neighbour it ever heard within the last 90 seconds. */
  ghost predicate PunctualAt(mvs: seq<Move>, mv: Move)
  {
    mv.Purge? ==>
      forall n :: LastHeard(mvs, mv.x, n).Some? ==>
        LastHeard(mvs, mv.x, n).value <= mv.now <= LastHeard(mvs, mv.x, n).value + ROUTE_EXPIRE_MS
  }

  ghost predicate Punctual(mvs: seq<Move>)
  {
    forall i :: 0 <= i < |mvs| ==> PunctualAt(mvs[..i], mvs[i])
  }

  /* ----- An exact route that is kept up ----- */

  /** x's route to d is exact, and unless direct as fresh as the last advert of its next hop. */
  ghost predicate Upheld(w: World, mvs: seq<Move>, x: Mac, d: Mac, k: nat)
    requires x in w.tables
  {
    && Exact(w, x, d, k)
    && var e := RouteTo(w, x, d).value;
       k >= 2 ==> LastHeard(mvs, x, e.nextHopMac) == Some(e.lastUpdated)
  }

  /** An advert of the next hop refreshes an exact route. */
  lemma RefreshedByNextHop(w: World, v: World, x: Mac, n: Mac, d: Mac, k: nat, now: uint32)
    requires Stable(w) && x in w.tables && d in w.tables && n in w.tables && x in v.tables
    requires 2 <= k <= 15 && CorrectUpTo(w, k - 1) && AtDistance(w.topo.links, x, d, k) && Exact(w, x, d, k)
    requires Heard(w, v, x, n, d, now) && n == RouteTo(w, x, d).value.nextHopMac
    ensures RouteTo(v, x, d).Some? && RouteTo(v, x, d).value.lastUpdated == now
    ensures RouteTo(v, x, d).value.nextHopMac == n && RouteTo(v, x, d).value.hopCount == k
  {
    assert Exact(w, n, d, k - 1);
    ExactNeighbourAdvertises(w, x, n, d, k);
  }

  /** An advert of another neighbour leaves it alone. */
  lemma UntouchedByOthers(w: World, v: World, x: Mac, n: Mac, d: Mac, k: nat, now: uint32)
    requires Stable(w) && x in w.tables && d in w.tables && n in w.tables && x in v.tables
    requires (x, n) in w.topo.links
    requires 1 <= k <= 15 && AtDistance(w.topo.links, x, d, k) && Exact(w, x, d, k)
    requires Heard(w, v, x, n, d, now) && n != RouteTo(w, x, d).value.nextHopMac
    ensures RouteTo(v, x, d) == RouteTo(w, x, d)
  {
    RouteSound(w, n, d);
    if RouteTo(w, n, d).Some? {
      var e := RouteTo(w, n, d).value;
      assert Walk(w.topo.links, x, d, e.hopCount + 1);
    }
  }

  lemma HearUpholds(w: World, mvs: seq<Move>, x: Mac, d: Mac, k: nat, n: Mac, now: uint32)
    requires Stable(w) && x in w.tables && d in w.tables && n in w.tables && (x, n) in w.topo.links && x != d
    requires 1 <= k <= 15 && CorrectUpTo(w, k - 1) && AtDistance(w.topo.links, x, d, k) && Upheld(w, mvs, x, d, k)
    ensures x in Exchange(w, x, n, now).tables
    ensures Upheld(Exchange(w, x, n, now), mvs + [Hear(x, n, now)], x, d, k)
  {
    var v := Exchange(w, x, n, now);
    var e := RouteTo(w, x, d).value;
    ExchangeRoute(w, x, n, now, d);
    ExactSurvives(w, x, d, k, x, n, now);
    if n != e.nextHopMac {
      UntouchedByOthers(w, v, x, n, d, k, now);
    } else if k >= 2 {
      RefreshedByNextHop(w, v, x, n, d, k, now);
    }
    LastHeardNext(mvs, Hear(x, n, now), x, e.nextHopMac);
  }

  lemma ExpireUpholds(w: World, mvs: seq<Move>, x: Mac, d: Mac, k: nat, now: uint32)
    requires Stable(w) && x in w.tables && d in w.tables
    requires 1 <= k && Upheld(w, mvs, x, d, k) && PunctualAt(mvs, Purge(x, now))
    ensures Upheld(Make(w, Purge(x, now)), mvs + [Purge(x, now)], x, d, k)
  {
    var e := RouteTo(w, x, d).value;
    RouteSound(w, x, d);
    SweepRefinesMap(w.tables[x], Expired(now), w.topo.ip(d));
    LastHeardNext(mvs, Purge(x, now), x, e.nextHopMac);
  }

  ghost predicate UpheldUpTo(w: World, mvs: seq<Move>, k: nat)
  {
    forall x, d, j: nat {:trigger Upheld(w, mvs, x, d, j)} ::
      (x in w.tables && d in w.tables && 1 <= j <= k && j <= 15 && AtDistance(w.topo.links, x, d, j)) ==>
        Upheld(w, mvs, x, d, j)
  }

  lemma UpheldIsCorrect(w: World, mvs: seq<Move>, k: nat)
    requires UpheldUpTo(w, mvs, k)
    ensures CorrectUpTo(w, k)
  {
    forall x, d, j: nat | x in w.tables && d in w.tables && 1 <= j <= k && j <= 15 && AtDistance(w.topo.links, x, d, j)
      ensures Exact(w, x, d, j)
    {
      assert Upheld(w, mvs, x, d, j);
    }
  }

  lemma NotItself(links: set<(Mac, Mac)>, x: Mac, d: Mac, k: nat)
    requires AtDistance(links, x, d, k) && k >= 1
    ensures x != d
  {
    assert !Walk(links, x, d, 0);
  }

  /** No move takes away a route that is kept up, or lets it go stale. */
  lemma MoveUpholds(w: World, mvs: seq<Move>, mv: Move, x: Mac, d: Mac, k: nat)
    requires Stable(w) && CanMake(w, mv) && PunctualAt(mvs, mv) && x in w.tables && d in w.tables
    requires 1 <= k <= 15 && CorrectUpTo(w, k - 1) && AtDistance(w.topo.links, x, d, k) && Upheld(w, mvs, x, d, k)
    ensures x in Make(w, mv).tables && Upheld(Make(w, mv), mvs + [mv], x, d, k)
  {
    NotItself(w.topo.links, x, d, k);
    MakeStable(w, mv);
    if mv.x == x {
      match mv
      case Hear(_, n, now) => HearUpholds(w, mvs, x, d, k, n, now);
      case Purge(_, now) => ExpireUpholds(w, mvs, x, d, k, now);
    } else {
      LastHeardNext(mvs, mv, x, RouteTo(w, x, d).value.nextHopMac);
    }
  }

  lemma AllUpheld(w: World, mvs: seq<Move>, mv: Move, k: nat)
    requires Stable(w) && CanMake(w, mv) && PunctualAt(mvs, mv) && UpheldUpTo(w, mvs, k)
    ensures UpheldUpTo(Make(w, mv), mvs + [mv], k)
  {
    MakeStable(w, mv);
    UpheldIsCorrect(w, mvs, k);
    var v := Make(w, mv);
    forall x, d, j: nat | x in v.tables && d in v.tables && 1 <= j <= k && j <= 15 && AtDistance(v.topo.links, x, d, j)
      ensures Upheld(v, mvs + [mv], x, d, j)
    {
      assert CorrectUpTo(w, j - 1) && Upheld(w, mvs, x, d, j);
      MoveUpholds(w, mvs, mv, x, d, j);
    }
  }

  /* ----- One round ----- */

  /** n is a neighbour of x one link nearer to d. */
  ghost predicate Nearer(links: set<(Mac, Mac)>, x: Mac, n: Mac, d: Mac, k: nat)
  {
    (x, n) in links && AtDistance(links, n, d, k)
  }

  ghost predicate HeardIn(mvs: seq<Move>, x: Mac, n: Mac)
  {
    exists i :: 0 <= i < |mvs| && mvs[i].Hear? && mvs[i].x == x && mvs[i].n == n
  }

  lemma HeardInNext(mvs: seq<Move>, mv: Move, x: Mac, n: Mac)
    ensures HeardIn(mvs + [mv], x, n) <==> HeardIn(mvs, x, n) || (mv.Hear? && mv.x == x && mv.n == n)
  {
    var all := mvs + [mv];
    if HeardIn(mvs, x, n) {
      var i :| 0 <= i < |mvs| && mvs[i].Hear? && mvs[i].x == x && mvs[i].n == n;
      assert all[i] == mvs[i];
    }
    if mv.Hear? && mv.x == x && mv.n == n { assert all[|mvs|] == mv; }
  }

  /**
   Before x, k + 1 links from d, is sure to keep a right route: a nearer neighbour is still to be
   heard in this round, and if the route already has k + 1 hops, its next hop is.
   */
  ghost predicate StillToHear(w: World, round: seq<Move>, x: Mac, d: Mac, k: nat)
    requires x in w.tables
  {
    && (exists n :: Nearer(w.topo.links, x, n, d, k) && !HeardIn(round, x, n))
    && (RouteTo(w, x, d).Some? && RouteTo(w, x, d).value.hopCount == k + 1 ==>
          !HeardIn(round, x, RouteTo(w, x, d).value.nextHopMac))
  }

  ghost predicate OnTrack(w: World, mvs: seq<Move>, round: seq<Move>, x: Mac, d: Mac, k: nat)
    requires x in w.tables
  {
    Upheld(w, mvs, x, d, k + 1) || StillToHear(w, round, x, d, k)
  }

  /** A route of the right length leads to a nearer neighbour; there is no shorter one. */
  lemma RightLength(w: World, x: Mac, d: Mac, k: nat)
    requires Stable(w) && x in w.tables && d in w.tables && AtDistance(w.topo.links, x, d, k + 1)
    ensures RouteTo(w, x, d).Some? ==> RouteTo(w, x, d).value.hopCount >= k + 1
    ensures RouteTo(w, x, d).Some? && RouteTo(w, x, d).value.hopCount == k + 1 ==>
              Nearer(w.topo.links, x, RouteTo(w, x, d).value.nextHopMac, d, k)
  {
    RouteSound(w, x, d);
    if RouteTo(w, x, d).Some? { NothingShorter(w.topo, RouteTo(w, x, d).value, x, d, k + 1); }
  }

  /** x's route already leads to another nearer neighbour than n. */
  ghost predicate LeadsElsewhere(r: Option<RouteEntry>, n: Mac, k: nat)
  {
    r.Some? && r.value.hopCount == k + 1 && r.value.nextHopMac != n
  }

  /** What a nearer neighbour advertises is of the right length. */
  lemma NearerOffers(w: World, x: Mac, n: Mac, d: Mac, k: nat)
    requires Stable(w) && x in w.tables && d in w.tables && n in w.tables
    requires 1 <= k <= 14 && CorrectUpTo(w, k) && AtDistance(w.topo.links, x, d, k + 1)
    requires Nearer(w.topo.links, x, n, d, k)
    ensures RouteTo(w, n, d).Some? && Export(RouteTo(w, n, d).value, Some(x)).hopCount == k + 1
  {
    NearerIsExact(w, n, d, k, k + 1);
    ExactNeighbourAdvertises(w, x, n, d, k + 1);
  }

  lemma NearerIsExact(w: World, n: Mac, d: Mac, k: nat, j: nat)
    requires n in w.tables && d in w.tables && 1 <= k <= 14 && j == k + 1
    requires CorrectUpTo(w, k) && AtDistance(w.topo.links, n, d, k)
    ensures Exact(w, n, d, j - 1)
  {
    assert Exact(w, n, d, k);
  }

  /** An advert of a nearer neighbour is taken up, unless the route already leads to another one. */
  lemma NearerTakenUp(w: World, v: World, x: Mac, n: Mac, d: Mac, k: nat, now: uint32)
    requires Stable(w) && x in w.tables && d in w.tables && n in w.tables && x in v.tables
    requires 1 <= k <= 14 && AtDistance(w.topo.links, x, d, k + 1)
    requires Nearer(w.topo.links, x, n, d, k) && Heard(w, v, x, n, d, now)
    requires RouteTo(w, n, d).Some? && Export(RouteTo(w, n, d).value, Some(x)).hopCount == k + 1
    ensures var r := RouteTo(w, x, d);
            if LeadsElsewhere(r, n, k) then RouteTo(v, x, d) == r
            else
              && Exact(v, x, d, k + 1)
              && RouteTo(v, x, d).value.nextHopMac == n && RouteTo(v, x, d).value.lastUpdated == now
  {
    RightLength(w, x, d, k);
  }

  lemma HearNearer(w: World, mvs: seq<Move>, round: seq<Move>, x: Mac, n: Mac, d: Mac, k: nat, now: uint32)
    requires Stable(w) && x in w.tables && d in w.tables && n in w.tables && x != d
    requires 1 <= k <= 14 && CorrectUpTo(w, k) && AtDistance(w.topo.links, x, d, k + 1)
    requires Nearer(w.topo.links, x, n, d, k) && StillToHear(w, round, x, d, k)
    ensures var mv := Hear(x, n, now);
            x in Make(w, mv).tables && OnTrack(Make(w, mv), mvs + [mv], round + [mv], x, d, k)
  {
    var mv := Hear(x, n, now);
    var v := Make(w, mv);
    ExchangeRoute(w, x, n, now, d);
    NearerOffers(w, x, n, d, k);
    NearerTakenUp(w, v, x, n, d, k, now);
    var r := RouteTo(w, x, d);
    if LeadsElsewhere(r, n, k) {
      RightLength(w, x, d, k);
      HeardInNext(round, mv, x, r.value.nextHopMac);
    } else {
      LastHeardNext(mvs, mv, x, n);
    }
  }

  lemma NeighbourWalk(links: set<(Mac, Mac)>, x: Mac, n: Mac, d: Mac, k: nat, h: nat)
    requires AtDistance(links, x, d, k + 1) && (x, n) in links && Walk(links, n, d, h)
    ensures h >= k && (h == k ==> AtDistance(links, n, d, k))
  {
    WalkStep(links, x, n, d, h);
    if h == k { NearerByOne(links, x, n, d, k + 1); }
  }

  /** A neighbour that is not nearer has a longer route, if any. */
  lemma NotNearer(w: World, x: Mac, n: Mac, d: Mac, k: nat)
    requires Stable(w) && x in w.tables && d in w.tables && n in w.tables
    requires AtDistance(w.topo.links, x, d, k + 1) && (x, n) in w.topo.links && !AtDistance(w.topo.links, n, d, k)
    ensures RouteTo(w, n, d).Some? ==> k + 1 <= RouteTo(w, n, d).value.hopCount <= 15
  {
    if RouteTo(w, n, d).Some? {
      var hops := LengthOfWalk(w, n, d);
      NeighbourWalk(w.topo.links, x, n, d, k, hops);
    }
  }

  lemma LengthOfWalk(w: World, n: Mac, d: Mac) returns (hops: nat)
    requires Stable(w) && n in w.tables && d in w.tables && RouteTo(w, n, d).Some?
    ensures hops == RouteTo(w, n, d).value.hopCount <= 15 && Walk(w.topo.links, n, d, hops)
  {
    RouteSound(w, n, d);
    hops := RouteTo(w, n, d).value.hopCount;
  }

  /** Nobody else offers a route of the right length, or a shorter one. */
  lemma OthersOfferNothing(w: World, v: World, x: Mac, n: Mac, d: Mac, k: nat, now: uint32)
    requires Stable(w) && x in w.tables && d in w.tables && n in w.tables && x in v.tables
    requires AtDistance(w.topo.links, x, d, k + 1) && !AtDistance(w.topo.links, n, d, k)
    requires RouteTo(w, n, d).Some? ==> k + 1 <= RouteTo(w, n, d).value.hopCount <= 15
    requires Heard(w, v, x, n, d, now)
    ensures RouteTo(v, x, d).Some? && RouteTo(v, x, d).value.hopCount == k + 1 ==> RouteTo(v, x, d) == RouteTo(w, x, d)
  {
    RightLength(w, x, d, k);
  }

  lemma HearOther(w: World, mvs: seq<Move>, round: seq<Move>, x: Mac, n: Mac, d: Mac, k: nat, now: uint32)
    requires Stable(w) && x in w.tables && d in w.tables && n in w.tables && x != d
    requires 1 <= k <= 14 && AtDistance(w.topo.links, x, d, k + 1) && (x, n) in w.topo.links
    requires !AtDistance(w.topo.links, n, d, k) && StillToHear(w, round, x, d, k)
    ensures var mv := Hear(x, n, now);
            x in Make(w, mv).tables && StillToHear(Make(w, mv), round + [mv], x, d, k)
  {
    var mv := Hear(x, n, now);
    var v := Make(w, mv);
    ExchangeRoute(w, x, n, now, d);
    NotNearer(w, x, n, d, k);
    OthersOfferNothing(w, v, x, n, d, k, now);
    RightLength(w, x, d, k);
    var m :| Nearer(w.topo.links, x, m, d, k) && !HeardIn(round, x, m);
    HeardInNext(round, mv, x, m);
    if RouteTo(v, x, d).Some? { HeardInNext(round, mv, x, RouteTo(v, x, d).value.nextHopMac); }
  }

  /** Moves of others, and expiry, only ever take a route away. */
  lemma OtherMove(w: World, round: seq<Move>, mv: Move, x: Mac, d: Mac, k: nat)
    requires Stable(w) && CanMake(w, mv) && x in w.tables && d in w.tables && StillToHear(w, round, x, d, k)
    requires mv.x != x || mv.Purge?
    ensures x in Make(w, mv).tables && StillToHear(Make(w, mv), round + [mv], x, d, k)
  {
    MakeStable(w, mv);
    var v := Make(w, mv);
    if mv.x == x { SweepRefinesMap(w.tables[x], Expired(mv.now), w.topo.ip(d)); }
    var m :| Nearer(w.topo.links, x, m, d, k) && !HeardIn(round, x, m);
    HeardInNext(round, mv, x, m);
    if RouteTo(v, x, d).Some? { HeardInNext(round, mv, x, RouteTo(v, x, d).value.nextHopMac); }
  }

  lemma HearsOn(w: World, mvs: seq<Move>, round: seq<Move>, mv: Move, x: Mac, d: Mac, k: nat)
    requires Stable(w) && CanMake(w, mv) && x in w.tables && d in w.tables
    requires 1 <= k <= 14 && CorrectUpTo(w, k) && AtDistance(w.topo.links, x, d, k + 1)
    requires StillToHear(w, round, x, d, k)
    ensures x in Make(w, mv).tables && OnTrack(Make(w, mv), mvs + [mv], round + [mv], x, d, k)
  {
    NotItself(w.topo.links, x, d, k + 1);
    if mv.x != x || mv.Purge? {
      OtherMove(w, round, mv, x, d, k);
    } else if AtDistance(w.topo.links, mv.n, d, k) {
      HearNearer(w, mvs, round, x, mv.n, d, k, mv.now);
    } else {
      HearOther(w, mvs, round, x, mv.n, d, k, mv.now);
    }
  }

  lemma StaysOnTrack(w: World, mvs: seq<Move>, round: seq<Move>, mv: Move, x: Mac, d: Mac, k: nat)
    requires Stable(w) && CanMake(w, mv) && PunctualAt(mvs, mv) && x in w.tables && d in w.tables
    requires 1 <= k <= 14 && CorrectUpTo(w, k) && AtDistance(w.topo.links, x, d, k + 1)
    requires OnTrack(w, mvs, round, x, d, k)
    ensures x in Make(w, mv).tables && OnTrack(Make(w, mv), mvs + [mv], round + [mv], x, d, k)
  {
    if Upheld(w, mvs, x, d, k + 1) {
      MoveUpholds(w, mvs, mv, x, d, k + 1);
    } else {
      HearsOn(w, mvs, round, mv, x, d, k);
    }
  }

  /* ----- Whole histories ----- */

  lemma LastMove(w: World, mvs: seq<Move>)
    requires Stable(w) && AllCanMake(w, mvs) && Punctual(mvs) && |mvs| > 0
    ensures var mv := mvs[|mvs| - 1];
            var before := mvs[..|mvs| - 1];
            && mvs == before + [mv] && AllCanMake(w, before) && Punctual(before) && PunctualAt(before, mv)
            && CanMake(After(w, before), mv) && After(w, mvs) == Make(After(w, before), mv)
  {
    var before := mvs[..|mvs| - 1];
    forall i | 0 <= i < |before|
      ensures PunctualAt(before[..i], before[i])
    {
      assert before[..i] == mvs[..i] && PunctualAt(mvs[..i], mvs[i]);
    }
    assert CanMake(w, mvs[|mvs| - 1]);
  }

  lemma PunctualPrefix(w: World, mvs: seq<Move>, more: seq<Move>)
    requires AllCanMake(w, mvs + more) && Punctual(mvs + more)
    ensures AllCanMake(w, mvs) && Punctual(mvs)
  {
    var all := mvs + more;
    forall i | 0 <= i < |mvs|
      ensures CanMake(w, mvs[i]) && PunctualAt(mvs[..i], mvs[i])
    {
      assert all[i] == mvs[i] && all[..i] == mvs[..i];
      assert CanMake(w, all[i]) && PunctualAt(all[..i], all[i]);
    }
  }

  lemma {:induction false} HistoryUpholds(w: World, start: seq<Move>, round: seq<Move>, k: nat)
    requires Stable(w) && AllCanMake(w, start + round) && Punctual(start + round)
    requires AllCanMake(w, start) && UpheldUpTo(After(w, start), start, k)
    ensures UpheldUpTo(After(w, start + round), start + round, k)
  {
    if |round| == 0 {
      assert start + round == start;
    } else {
      var init := round[..|round| - 1];
      assert (start + round)[..|start + round| - 1] == start + init;
      LastMove(w, start + round);
      HistoryUpholds(w, start, init, k);
      AllUpheld(After(w, start + init), start + init, round[|round| - 1], k);
    }
  }

  lemma FirstOnTrack(w: World, mvs: seq<Move>, x: Mac, d: Mac, k: nat)
    requires x in w.tables && AtDistance(w.topo.links, x, d, k + 1)
    ensures OnTrack(w, mvs, [], x, d, k)
  {
    var links := w.topo.links;
    var n :| (x, n) in links && Walk(links, n, d, k);
    NearerByOne(links, x, n, d, k + 1);
    assert Nearer(links, x, n, d, k) && !HeardIn([], x, n);
  }

  lemma OnTrackNext(w: World, start: seq<Move>, init: seq<Move>, mv: Move, x: Mac, d: Mac, k: nat)
    requires Stable(w) && AllCanMake(w, start + init + [mv]) && Punctual(start + init + [mv])
    requires AllCanMake(w, start + init) && UpheldUpTo(After(w, start + init), start + init, k)
    requires x in w.tables && d in w.tables && 1 <= k <= 14 && AtDistance(w.topo.links, x, d, k + 1)
    requires OnTrack(After(w, start + init), start + init, init, x, d, k)
    ensures x in After(w, start + init + [mv]).tables
    ensures OnTrack(After(w, start + init + [mv]), start + init + [mv], init + [mv], x, d, k)
  {
    var mvs := start + init;
    assert (mvs + [mv])[..|mvs + [mv]| - 1] == mvs;
    LastMove(w, mvs + [mv]);
    UpheldIsCorrect(After(w, mvs), mvs, k);
    StaysOnTrack(After(w, mvs), mvs, init, mv, x, d, k);
  }

  lemma SplitLast(start: seq<Move>, round: seq<Move>)
    requires |round| > 0
    ensures start + round == start + round[..|round| - 1] + [round[|round| - 1]]
    ensures round == round[..|round| - 1] + [round[|round| - 1]]
  {
  }

  lemma {:induction false} RoundOnTrack(w: World, start: seq<Move>, round: seq<Move>, x: Mac, d: Mac, k: nat)
    requires Stable(w) && AllCanMake(w, start + round) && Punctual(start + round)
    requires AllCanMake(w, start) && UpheldUpTo(After(w, start), start, k)
    requires x in w.tables && d in w.tables && 1 <= k <= 14 && AtDistance(w.topo.links, x, d, k + 1)
    ensures OnTrack(After(w, start + round), start + round, round, x, d, k)
  {
    if |round| == 0 {
      assert start + round == start;
      FirstOnTrack(After(w, start), start, x, d, k);
    } else {
      var init, mv := round[..|round| - 1], round[|round| - 1];
      SplitLast(start, round);
      PunctualPrefix(w, start + init, [mv]);
      RoundOnTrack(w, start, init, x, d, k);
      HistoryUpholds(w, start, init, k);
      OnTrackNext(w, start, init, mv, x, d, k);
    }
  }

  ghost predicate HearsAll(w: World, round: seq<Move>)
  {
    forall l :: l in w.topo.links ==> HeardIn(round, l.0, l.1)
  }

  lemma AllHeard(w: World, mvs: seq<Move>, round: seq<Move>, x: Mac, d: Mac, k: nat)
    requires x in w.tables && HearsAll(w, round) && OnTrack(w, mvs, round, x, d, k)
    ensures Upheld(w, mvs, x, d, k + 1)
  {
    forall n | Nearer(w.topo.links, x, n, d, k)
      ensures HeardIn(round, x, n)
    {
      var l := (x, n);
      assert l in w.topo.links && l.0 == x && l.1 == n;
    }
  }

  lemma PairUpheld(w: World, start: seq<Move>, round: seq<Move>, x: Mac, d: Mac, k: nat)
    requires Stable(w) && AllCanMake(w, start + round) && Punctual(start + round) && HearsAll(w, round)
    requires AllCanMake(w, start) && UpheldUpTo(After(w, start), start, k)
    requires x in w.tables && d in w.tables && 1 <= k <= 14 && AtDistance(w.topo.links, x, d, k + 1)
    ensures x in After(w, start + round).tables
    ensures Upheld(After(w, start + round), start + round, x, d, k + 1)
  {
    RoundOnTrack(w, start, round, x, d, k);
    AllHeard(After(w, start + round), start + round, round, x, d, k);
  }

  lemma OneLinkMore(v: World, mvs: seq<Move>, k: nat)
    requires UpheldUpTo(v, mvs, k)
    requires forall x, d :: x in v.tables && d in v.tables && k + 1 <= 15 && AtDistance(v.topo.links, x, d, k + 1) ==>
               Upheld(v, mvs, x, d, k + 1)
    ensures UpheldUpTo(v, mvs, k + 1)
  {
  }

  /** A round in which every node hears every neighbour makes the routes one link farther right, and keeps them up. */
  lemma RoundUpholds(w: World, start: seq<Move>, round: seq<Move>, k: nat)
    requires Stable(w) && AllCanMake(w, start + round) && Punctual(start + round) && HearsAll(w, round)
    requires AllCanMake(w, start) && UpheldUpTo(After(w, start), start, k) && k >= 1
    ensures UpheldUpTo(After(w, start + round), start + round, k + 1)
  {
    var v, mvs := After(w, start + round), start + round;
    HistoryUpholds(w, start, round, k);
    forall x, d | x in v.tables && d in v.tables && k + 1 <= 15 && AtDistance(v.topo.links, x, d, k + 1)
      ensures Upheld(v, mvs, x, d, k + 1)
    {
      PairUpheld(w, start, round, x, d, k);
    }
    OneLinkMore(v, mvs, k);
  }

  function Joined(rounds: seq<seq<Move>>): seq<Move>
  {
    if |rounds| == 0 then [] else Joined(rounds[..|rounds| - 1]) + rounds[|rounds| - 1]
  }

  lemma DirectRoutesUpheld(w: World)
    requires Stable(w) && DirectRoutes(w)
    ensures UpheldUpTo(w, [], 1)
  {
    DirectRoutesAreExact(w);
    forall x, d, j: nat | x in w.tables && d in w.tables && 1 <= j <= 1 && AtDistance(w.topo.links, x, d, j)
      ensures Upheld(w, [], x, d, j)
    {
      assert Exact(w, x, d, j);
    }
  }

  lemma {:induction false} RoundsUphold(w: World, rounds: seq<seq<Move>>)
    requires Stable(w) && DirectRoutes(w) && AllCanMake(w, Joined(rounds)) && Punctual(Joined(rounds))
    requires forall i :: 0 <= i < |rounds| ==> HearsAll(w, rounds[i])
    ensures UpheldUpTo(After(w, Joined(rounds)), Joined(rounds), |rounds| + 1)
  {
    if |rounds| == 0 {
      DirectRoutesUpheld(w);
    } else {
      var n := |rounds| - 1;
      PunctualPrefix(w, Joined(rounds[..n]), rounds[n]);
      RoundsUphold(w, rounds[..n]);
      RoundUpholds(w, Joined(rounds[..n]), rounds[n], n + 1);
    }
  }

  /**
   Convergence with expiry running at any moment, as long as no node expires its routes after
   more than 90 seconds of silence from a neighbour: after k rounds in which every node hears
   every neighbour, and after any later moves, every pair at distance at most k + 1 (and at most
   15) has an exact route, and it is as fresh as the last advert of its next hop.
   */
  lemma ConvergesWithExpiry(w: World, rounds: seq<seq<Move>>, later: seq<Move>)
    requires Stable(w) && DirectRoutes(w)
    requires AllCanMake(w, Joined(rounds) + later) && Punctual(Joined(rounds) + later)
    requires forall i :: 0 <= i < |rounds| ==> HearsAll(w, rounds[i])
    ensures var mvs := Joined(rounds) + later;
            CorrectUpTo(After(w, mvs), |rounds| + 1) && UpheldUpTo(After(w, mvs), mvs, |rounds| + 1)
  {
    PunctualPrefix(w, Joined(rounds), later);
    RoundsUphold(w, rounds);
    HistoryUpholds(w, Joined(rounds), later, |rounds| + 1);
    UpheldIsCorrect(After(w, Joined(rounds) + later), Joined(rounds) + later, |rounds| + 1);
  }
}
