/**
 The router of one node: a 64-slot route table and a 32-slot seen-frame ring, both updated
 in place. `now` is the value of millis().
 */
module RouterClass {
  import opened MeshTypes
  import opened RouteTable
  import opened RouteAdvCodec
  import opened SeenFrames
  import Memory

  const EMPTY_ROUTE := RouteEntry(0, Mac(0, 0, 0, 0, 0, 0), Mac(0, 0, 0, 0, 0, 0), 0, 0, 0, false)
  const EMPTY_SEEN := SeenFrameEntry(Mac(0, 0, 0, 0, 0, 0), 0, 0, false)

  class Router {
    const routes: array<RouteEntry>
    var routeCount: nat
    var topologyChanged: bool
    const seenCache: array<SeenFrameEntry>
    var seenCacheIdx: nat
    ghost var marks: seq<Mark>  // every frame ever marked
    ghost var clock: uint32     // the latest time the ring has been used

    ghost predicate RoutesValid()
      reads this, routes
    {
      && routes.Length == MAX_ROUTES
      && Unique(routes[..])
      && routeCount == CountValid(routes[..])
    }

    ghost predicate SeenValid()
      reads this, seenCache
    {
      Represents(seenCache[..], seenCacheIdx, marks, clock)
    }

    constructor ()
      ensures RoutesValid() && SeenValid() && fresh(routes) && fresh(seenCache)
      ensures routes.Length == 64 && seenCache.Length == 32
      ensures !topologyChanged && routeCount == 0 && marks == [] && clock == 0
      ensures forall ip :: Lookup(routes[..], ip) == None
    {
      routes := new RouteEntry[MAX_ROUTES](_ => EMPTY_ROUTE);
      seenCache := new SeenFrameEntry[SEEN_CACHE_SIZE](_ => EMPTY_SEEN);
      routeCount, topologyChanged, seenCacheIdx, marks, clock := 0, false, 0, [], 0;
      new;
      CountExtremes(routes[..], IsRoute());
      forall ip: uint32
        ensures Lookup(routes[..], ip) == None
      {
        LookupSome(routes[..], ip);
      }
    }

    method FindRouteByIP(destIP: uint32) returns (slot: int)
      requires RoutesValid()
      ensures slot == if FindIP(routes[..], destIP) < MAX_ROUTES then FindIP(routes[..], destIP) else -1
      ensures slot >= 0 ==> Lookup(routes[..], destIP) == Some(routes[slot])
      ensures slot == -1 ==> Lookup(routes[..], destIP) == None
    {
      for i := 0 to MAX_ROUTES
        invariant forall j :: 0 <= j < i ==> !HasIP(destIP)(routes[j])
      {
        if routes[i].valid && routes[i].destIP == destIP {
          FirstIndexUnique(routes[..], HasIP(destIP), i);
          return i;
        }
      }
      FirstIndexUnique(routes[..], HasIP(destIP), MAX_ROUTES);
      return -1;
    }

    method FindRouteByMac(destMac: Mac) returns (slot: int)
      requires RoutesValid()
      ensures slot == if FindMac(routes[..], destMac) < MAX_ROUTES then FindMac(routes[..], destMac) else -1
      ensures slot >= 0 ==> routes[slot].valid && routes[slot].destMac == destMac
      ensures slot == -1 ==> forall i :: 0 <= i < MAX_ROUTES && routes[i].valid ==> routes[i].destMac != destMac
    {
      for i := 0 to MAX_ROUTES
        invariant forall j :: 0 <= j < i ==> !HasMac(destMac)(routes[j])
      {
        if routes[i].valid && routes[i].destMac == destMac {
          FirstIndexUnique(routes[..], HasMac(destMac), i);
          return i;
        }
      }
      FirstIndexUnique(routes[..], HasMac(destMac), MAX_ROUTES);
      forall i | 0 <= i < MAX_ROUTES && routes[i].valid
        ensures routes[i].destMac != destMac
      {
        assert !HasMac(destMac)(routes[i]);
      }
      return -1;
    }

    method FindEvictionCandidate(now: uint32) returns (candidate: int)
      requires RoutesValid()
      ensures candidate == EvictionCandidate(routes[..], now)
    {
      candidate := -1;
      var worstScore := 0;
      for i := 0 to MAX_ROUTES
        invariant (candidate, worstScore) == EvictionScan(routes[..], now, i)
      {
        if routes[i].valid {
          var score := Score(now, routes[i]);
          if score > worstScore {
            worstScore := score;
            candidate := i;
          }
        }
      }
    }

    /** The returned slot is the entry the source returns a pointer to; -1 is nullptr. */
    method AddRoute(destIP: uint32, destMac: Mac, nextHopMac: Mac, hopCount: uint8, now: uint32) returns (slot: int)
      requires RoutesValid()
      modifies routes, `routeCount, `topologyChanged
      ensures RoutesValid()
      ensures var r := RouteTable.AddRoute(old(routes[..]), destIP, destMac, nextHopMac, hopCount, now);
              routes[..] == r.table && slot == r.slot && topologyChanged == (old(topologyChanged) || r.changed)
    {
      ghost var before := routes[..];
      AddRouteKeeps(before, destIP, destMac, nextHopMac, hopCount, now);
      FullWhenNoFree(before);
      slot := FindRouteByIP(destIP);
      if slot >= 0 {
        if routes[slot].hopCount == 1 && routes[slot].nextHopMac != nextHopMac { return; }
        if hopCount < routes[slot].hopCount || routes[slot].nextHopMac == nextHopMac {
          routes[slot] := routes[slot].(nextHopMac := nextHopMac, hopCount := hopCount, metric := hopCount,
                                        lastUpdated := now);
          topologyChanged := true;
        }
        return;
      }
      for i := 0 to MAX_ROUTES
        invariant forall j :: 0 <= j < i ==> !IsFree()(routes[j])
        invariant routes[..] == before && routeCount == old(routeCount) && topologyChanged == old(topologyChanged)
      {
        if !routes[i].valid {
          FirstIndexUnique(before, IsFree(), i);
          routes[i] := NewRoute(destIP, destMac, nextHopMac, hopCount, now);
          routeCount := routeCount + 1;
          topologyChanged := true;
          return i;
        }
      }
      FirstIndexUnique(before, IsFree(), MAX_ROUTES);
      slot := FindEvictionCandidate(now);
      if slot >= 0 {
        routes[slot] := NewRoute(destIP, destMac, nextHopMac, hopCount, now);
        topologyChanged := true;
      }
    }

    /** The three statements with which the source drops slot i. */
    method ClearSlot(i: nat)
      requires RoutesValid() && i < MAX_ROUTES && routes[i].valid
      modifies routes, `routeCount, `topologyChanged
      ensures RoutesValid() && topologyChanged
      ensures routes[..] == Clear(old(routes[..]), i)
    {
      CountUpdate(routes[..], IsRoute(), i, routes[i].(valid := false));
      ghost var before := routes[..];
      routes[i] := routes[i].(valid := false);
      routeCount := routeCount - 1;
      topologyChanged := true;
      assert routes[..] == Clear(before, i);
    }

    method RemoveRoute(destIP: uint32) returns (removed: bool)
      requires RoutesValid()
      modifies routes, `routeCount, `topologyChanged
      ensures RoutesValid()
      ensures routes[..] == RouteTable.RemoveRoute(old(routes[..]), destIP)
      ensures removed <==> Lookup(old(routes[..]), destIP).Some?
      ensures topologyChanged == (old(topologyChanged) || removed)
    {
      ghost var before := routes[..];
      RemoveRefinesMap(before, destIP, destIP);
      for i := 0 to MAX_ROUTES
        invariant forall j :: 0 <= j < i ==> !HasIP(destIP)(routes[j])
        invariant routes[..] == before && routeCount == old(routeCount) && topologyChanged == old(topologyChanged)
      {
        if routes[i].valid && routes[i].destIP == destIP {
          FirstIndexUnique(before, HasIP(destIP), i);
          ClearSlot(i);
          return true;
        }
      }
      FirstIndexUnique(before, HasIP(destIP), MAX_ROUTES);
      return false;
    }

    method ExpireRoutes(now: uint32)
      requires RoutesValid()
      modifies routes, `routeCount, `topologyChanged
      ensures RoutesValid()
      ensures routes[..] == Sweep(old(routes[..]), Expired(now))
      ensures forall q :: Lookup(routes[..], q) ==
                match Lookup(old(routes[..]), q)
                case None => None
                case Some(e) =>
                  if e.nextHopMac != e.destMac && (now - e.lastUpdated) % 0x1_0000_0000 > 90000 then None else Some(e)
      ensures topologyChanged == (old(topologyChanged) || routes[..] != old(routes[..]))
    {
      ghost var before := routes[..];
      for i := 0 to MAX_ROUTES
        invariant RoutesValid()
        invariant forall k :: 0 <= k < i ==> routes[k] == Sweep(before, Expired(now))[k]
        invariant forall k :: i <= k < MAX_ROUTES ==> routes[k] == before[k]
        invariant topologyChanged == (old(topologyChanged) || exists k :: 0 <= k < i && routes[k] != before[k])
      {
        if routes[i].valid && routes[i].nextHopMac != routes[i].destMac && Age(now, routes[i]) > ROUTE_EXPIRE_MS {
          ClearSlot(i);
          assert routes[i] != before[i];
        }
      }
      assert routes[..] == Sweep(before, Expired(now));
      forall q {
        ExpireRefinesMap(before, now, q);
      }
    }

    method HandleRouteWithdraw(destMac: Mac)
      requires RoutesValid()
      modifies routes, `routeCount, `topologyChanged
      ensures RoutesValid()
      ensures routes[..] == Sweep(old(routes[..]), Targets(destMac))
      ensures forall q :: Lookup(routes[..], q) ==
                match Lookup(old(routes[..]), q)
                case None => None
                case Some(e) => if e.destMac == destMac then None else Some(e)
      ensures topologyChanged == (old(topologyChanged) || routes[..] != old(routes[..]))
    {
      ghost var before := routes[..];
      for i := 0 to MAX_ROUTES
        invariant RoutesValid()
        invariant forall k :: 0 <= k < i ==> routes[k] == Sweep(before, Targets(destMac))[k]
        invariant forall k :: i <= k < MAX_ROUTES ==> routes[k] == before[k]
        invariant topologyChanged == (old(topologyChanged) || exists k :: 0 <= k < i && routes[k] != before[k])
      {
        if routes[i].valid && routes[i].destMac == destMac {
          ClearSlot(i);
          assert routes[i] != before[i];
        }
      }
      assert routes[..] == Sweep(before, Targets(destMac));
      forall q {
        WithdrawRefinesMap(before, destMac, q);
      }
    }

    /** Writes at most 18 entries; the table itself is not touched. */
    method SerializeRouteAdv(buf: array<uint8>, excludeNextHop: Option<Mac>) returns (offset: nat)
      requires RoutesValid()
      modifies buf
      ensures RoutesValid() && routes[..] == old(routes[..])
      ensures offset <= buf.Length
      ensures buf[..offset] == EncodeAll(Advert(routes[..], excludeNextHop, AdvCapacity(buf.Length)))
      ensures offset == 12 * Least(Least(CountValid(routes[..]), buf.Length / 12), 18)
      ensures forall k :: offset <= k < buf.Length ==> buf[k] == old(buf[k])
    {
      offset := 0;
      var maxEntries := buf.Length / 12;
      if maxEntries > ADV_MAX_ENTRIES { maxEntries := ADV_MAX_ENTRIES; }
      var i := 0;
      ghost var t := routes[..];
      ghost var sent: seq<AdvEntry> := [];
      while i < MAX_ROUTES && offset / 12 < maxEntries
        invariant i <= MAX_ROUTES && routes[..] == t
        invariant sent == Advert(t[..i], excludeNextHop, maxEntries)
        invariant offset == 12 * |sent| && |sent| <= maxEntries
        invariant buf[..offset] == EncodeAll(sent)
        invariant forall k :: offset <= k < buf.Length ==> buf[k] == old(buf[k])
      {
        AdvertNext(t, i, excludeNextHop, maxEntries);
        if routes[i].valid {
          var e := Export(routes[i], excludeNextHop);
          offset := WriteEntry(buf, offset, sent, e);
          sent := sent + [e];
          assert routes[..] == t;
        }
        i := i + 1;
      }
      AdvertPrefixFull(t, i, excludeNextHop, maxEntries);
      AdvertRank(t, excludeNextHop, maxEntries);
    }

    static method WriteEntry(buf: array<uint8>, offset: nat, ghost sent: seq<AdvEntry>, e: AdvEntry) returns (next: nat)
      requires offset + 12 <= buf.Length && buf[..offset] == EncodeAll(sent)
      modifies buf
      ensures next == offset + 12
      ensures buf[..next] == EncodeAll(sent + [e])
      ensures forall k :: next <= k < buf.Length ==> buf[k] == old(buf[k])
    {
      EncodeAllNext(sent, e);
      Memory.CopyBytes(buf, offset, EncodeEntry(e));
      next := offset + 12;
    }

    /** The body of the loop of DeserializeRouteAdv, for one decoded entry. */
    method HandleAdvEntry(e: AdvEntry, fromMac: Mac, localMac: Option<Mac>, now: uint32) returns (counted: bool)
      requires RoutesValid()
      modifies routes, `routeCount, `topologyChanged
      ensures RoutesValid()
      ensures routes[..] == Apply(old(routes[..]), e, fromMac, localMac, now)
      ensures counted <==> localMac != Some(e.destMac) && e.hopCount < INFINITY
    {
      if localMac == Some(e.destMac) { return false; }
      if e.hopCount >= INFINITY {
        var existing := FindRouteByIP(e.destIP);
        if existing >= 0 && routes[existing].nextHopMac == fromMac {
          var removed := RemoveRoute(e.destIP);
        }
        return false;
      }
      var slot := AddRoute(e.destIP, e.destMac, fromMac, e.hopCount, now);
      return true;
    }

    static method ReadEntry(payload: Bytes, i: nat) returns (e: AdvEntry)
      requires i < |payload| / 12
      ensures e == DecodeAll(payload)[i]
    {
      e := DecodeEntry(payload[12 * i..12 * i + 12]);
    }

    /** Returns how many entries were offered to the table. */
    method DeserializeRouteAdv(payload: Bytes, fromMac: Mac, localMac: Option<Mac>, now: uint32) returns (count: nat)
      requires RoutesValid()
      modifies routes, `routeCount, `topologyChanged
      ensures RoutesValid()
      ensures routes[..] == ApplyAll(old(routes[..]), DecodeAll(payload), fromMac, localMac, now)
      ensures count == Accepted(DecodeAll(payload), localMac)
      ensures count == |Offered(DecodeAll(payload), localMac)|
    {
      count := 0;
      ghost var es := DecodeAll(payload);
      ghost var t := routes[..];
      for i := 0 to |payload| / 12
        invariant RoutesValid()
        invariant routes[..] == ApplyAll(t, es[..i], fromMac, localMac, now)
        invariant count == Accepted(es[..i], localMac)
      {
        ApplyAllNext(t, es, i, fromMac, localMac, now);
        var e := ReadEntry(payload, i);
        var counted := HandleAdvEntry(e, fromMac, localMac, now);
        if counted { count := count + 1; }
      }
      assert es[..|payload| / 12] == es;
      AcceptedCounts(es, localMac);
    }

    /** Looks like a query, but clears the stale matches it meets on the way. */
    method IsFrameSeen(srcMac: Mac, sequence: uint16, now: uint32) returns (seen: bool)
      requires SeenValid() && clock <= now
      modifies seenCache, `clock
      ensures SeenValid() && clock == now
      ensures seen <==>
              exists j :: 0 <= j < |marks| && j >= |marks| - 32 &&
                marks[j].mac == srcMac && marks[j].sequence == sequence && now - marks[j].time < 10000
    {
      LaterClock(seenCache[..], seenCacheIdx, marks, clock, now);
      clock := now;
      for i := 0 to SEEN_CACHE_SIZE
        invariant SeenValid() && clock == now && marks == old(marks)
        invariant forall k :: 0 <= k < i ==> !SlotHit(seenCache[k], srcMac, sequence, now)
      {
        if seenCache[i].valid && seenCache[i].srcMac == srcMac && seenCache[i].sequence == sequence {
          assert SlotMatches(seenCache[..][i], i, marks, clock);
          if now - seenCache[i].timestamp < SEEN_FRAME_TTL_MS {
            RingIsLog(seenCache[..], seenCacheIdx, marks, now, srcMac, sequence);
            assert SlotHit(seenCache[..][i], srcMac, sequence, now);
            return true;
          }
          Invalidate(seenCache[..], seenCacheIdx, marks, now, i);
          ghost var c := seenCache[..];
          seenCache[i] := seenCache[i].(valid := false);
          assert seenCache[..] == c[i := c[i].(valid := false)];
        }
      }
      RingIsLog(seenCache[..], seenCacheIdx, marks, now, srcMac, sequence);
      return false;
    }

    method MarkFrameSeen(srcMac: Mac, sequence: uint16, now: uint32)
      requires SeenValid() && clock <= now
      modifies seenCache, `seenCacheIdx, `marks, `clock
      ensures SeenValid() && clock == now
      ensures marks == old(marks) + [Mark(srcMac, sequence, now)]
    {
      LaterClock(seenCache[..], seenCacheIdx, marks, clock, now);
      AddMark(seenCache[..], seenCacheIdx, marks, now, srcMac, sequence);
      ghost var c, s := seenCache[..], seenCacheIdx;
      seenCache[seenCacheIdx] := SeenFrameEntry(srcMac, sequence, now, true);
      assert seenCache[..] == c[s := SeenFrameEntry(srcMac, sequence, now, true)];
      seenCacheIdx := (seenCacheIdx + 1) % SEEN_CACHE_SIZE;
      marks := marks + [Mark(srcMac, sequence, now)];
      clock := now;
    }

    /** Periodic maintenance: forgets expired routes and old marks, changing no answer of IsFrameSeen. */
    method Update(now: uint32)
      requires RoutesValid() && SeenValid() && clock <= now
      modifies routes, `routeCount, `topologyChanged, seenCache, `clock
      ensures RoutesValid() && SeenValid() && clock == now
      ensures routes[..] == Sweep(old(routes[..]), Expired(now))
    {
      ExpireRoutes(now);
      LaterClock(seenCache[..], seenCacheIdx, marks, clock, now);
      clock := now;
      for i := 0 to SEEN_CACHE_SIZE
        invariant SeenValid() && RoutesValid() && clock == now
        invariant routes[..] == Sweep(old(routes[..]), Expired(now))
      {
        assert SlotMatches(seenCache[..][i], i, marks, clock);
        if seenCache[i].valid && now - seenCache[i].timestamp > SEEN_FRAME_TTL_MS {
          Invalidate(seenCache[..], seenCacheIdx, marks, now, i);
          ghost var c := seenCache[..];
          seenCache[i] := seenCache[i].(valid := false);
          assert seenCache[..] == c[i := c[i].(valid := false)];
        }
      }
    }
  }

  function Least(a: nat, b: nat): nat
  {
    if a <= b then a else b
  }

  function AdvCapacity(bufLen: nat): nat
  {
    if bufLen / 12 > ADV_MAX_ENTRIES then ADV_MAX_ENTRIES else bufLen / 12
  }

  /** Once an advert is full, or the table is exhausted, the remaining slots add nothing. */
  lemma {:induction false} AdvertPrefixFull(t: Table, i: nat, exclude: Option<Mac>, max: nat)
    requires i <= |t|
    requires |Advert(t[..i], exclude, max)| >= max || i == |t|
    ensures Advert(t, exclude, max) == Advert(t[..i], exclude, max)
    decreases |t|
  {
    if i < |t| {
      assert t[..|t| - 1][..i] == t[..i];
      AdvertPrefixFull(t[..|t| - 1], i, exclude, max);
    } else {
      assert t[..i] == t;
    }
  }
}
