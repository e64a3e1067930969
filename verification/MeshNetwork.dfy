/**
 One mesh node: its handshake contexts beside its peer table and its router. Random bytes,
 key pairs and the time are parameters; a frame to be sent is a result.
 */
module MeshNetworkClass {
  import opened MeshTypes
  import opened Handshake
  import RouteTable
  import RouteAdvCodec
  import RouteNetwork
  import SeenFrames
  import PeerTable
  import opened PeerMaps
  import opened PeerManagerClass
  import opened RouterClass
  import opened Sending
  import opened Forwarding

  /** IPAddress(10, 200, mac[4], mac[5]) as a little-endian uint32_t. */
  function PeerIP(mac: Mac): uint32
  {
    var hi: int, lo: int := mac.b4, mac.b5;
    10 + 200 * 0x100 + hi * 0x1_0000 + lo * 0x100_0000
  }

  /** Derived addresses are one to one exactly when the last two bytes of the MACs tell the nodes apart. */
  lemma PeerIPDistinct(a: Mac, b: Mac)
    ensures PeerIP(a) == PeerIP(b) <==> a.b4 == b.b4 && a.b5 == b.b5
  {
  }

  /** The octets of a derived address are 10, 200 and the last two bytes of the MAC. */
  lemma PeerIPOctets(mac: Mac)
    ensures RouteAdvCodec.LittleEndian32(PeerIP(mac)) == [10, 200, mac.b4, mac.b5]
  {
    var hi: int, lo: int := mac.b4, mac.b5;
    var ip: int := PeerIP(mac);
    assert ip == 10 + 0x100 * (200 + 0x100 * (hi + 0x100 * lo));
    assert ip / 0x100 == 200 + 0x100 * (hi + 0x100 * lo);
    assert ip / 0x100 / 0x100 == hi + 0x100 * lo;
  }

  /** A frame from a known peer refreshes it. */
  function Seen(m: PeerMap, src: Mac, now: uint32): PeerMap
  {
    if src in m then m[src := m[src].(lastSeen := now)] else m
  }

  /** What a node knows of others: its peers, as a map, and its routes. */
  datatype Tables = Tables(peers: PeerMap, routes: RouteTable.Table)

  /** A completed exchange: the peer is registered with its key, and the direct route installed. */
  ghost predicate JoinStep(t: Tables, t': Tables, src: Mac, key: Bytes, epoch: uint8, now: uint32)
  {
    && RegisterStep(t.peers, t'.peers, src, key, epoch, now)
    && t'.routes == RouteTable.AddRoute(t.routes, PeerIP(src), src, src, 1, now).table
  }

  /**
   The direct route that a completed exchange leaves behind: a new one, unless the table is full and nothing in it
   can be evicted; in place of a longer one; and not in place of another direct one.
   */
  lemma JoinedRoute(t: Tables, t': Tables, src: Mac, key: Bytes, epoch: uint8, now: uint32)
    requires JoinStep(t, t', src, key, epoch, now) && RouteTable.Unique(t.routes)
    ensures var r := RouteTable.Lookup(t'.routes, PeerIP(src));
            match RouteTable.Lookup(t.routes, PeerIP(src))
            case None => t' == t.(peers := t'.peers)
                         || r == Some(RouteTable.RouteEntry(PeerIP(src), src, src, 1, 1, now, true))
            case Some(e) =>
              if e.nextHopMac == src || e.hopCount > 1
              then r == Some(e.(nextHopMac := src, hopCount := 1, metric := 1, lastUpdated := now))
              else r == Some(e)
    ensures RouteTable.FindFree(t.routes) < |t.routes| && RouteTable.Lookup(t.routes, PeerIP(src)).None? ==>
              RouteTable.Lookup(t'.routes, PeerIP(src)).Some?
  {
    RouteTable.AddRouteRefinesMap(t.routes, PeerIP(src), src, src, 1, now, PeerIP(src));
  }

  /** The peer it leaves behind holds the key, with its epoch and fresh counters, if addPeer had an entry to give. */
  lemma JoinedPeer(t: Tables, t': Tables, src: Mac, key: Bytes, epoch: uint8, now: uint32)
    requires JoinStep(t, t', src, key, epoch, now)
    ensures if src in t.peers || |t.peers| < 16 || exists k :: k in t.peers && t.peers[k].lastSeen != 0xFFFF_FFFF
            then HoldsKey(t'.peers, src, key) && t'.peers[src].epoch == epoch && t'.peers[src].lastSeen == now
            else t'.peers == t.peers && src !in t.peers
  {
    Registered(t.peers, t'.peers, src, key, epoch, now);
    if exists k :: k in t.peers && t.peers[k].lastSeen != 0xFFFF_FFFF { assert !NoVictim(t.peers); }
  }

  /** In the network of routers, where addresses are derived, that is a neighbour step. */
  lemma JoinIsNeighbourStep(w: RouteNetwork.World, x: Mac, n: Mac, t: Tables, t': Tables, key: Bytes, epoch: uint8,
                            now: uint32)
    requires x in w.tables && (x, n) in w.topo.links && w.topo.ip == PeerIP
    requires t.routes == w.tables[x] && JoinStep(t, t', n, key, epoch, now)
    ensures RouteNetwork.Step(w, RouteNetwork.Neighbour(x, n, now)) == RouteNetwork.SetTable(w, x, t'.routes)
  {
  }

  /** A message from src changes the tables exactly when it yields a key. */
  ghost predicate OutcomeStep(t: Tables, t': Tables, src: Mac, key: Option<Bytes>, epoch: uint8, now: uint32)
  {
    match key
    case None => t' == t
    case Some(k) => JoinStep(t, t', src, k, epoch, now)
  }

  /** The tables after a ROUTE_WITHDRAW: a note about ourselves, or about a node we have no route to, is ignored. */
  ghost function Without(t: Tables, local: Mac, payload: Bytes): Tables
  {
    if |payload| < 6 then t
    else
      var lost := Mac(payload[0], payload[1], payload[2], payload[3], payload[4], payload[5]);
      if lost == local || RouteTable.FindMac(t.routes, lost) == |t.routes| then t
      else Tables(t.peers - {lost}, RouteTable.Sweep(t.routes, RouteTable.Targets(lost)))
  }

  /**
   Afterwards there is no route to the lost node, and it is a peer no more if there was one; all other routes and
   peers are as before.
   */
  lemma WithoutLost(t: Tables, local: Mac, lost: Mac, rest: Bytes, q: uint32)
    requires RouteTable.Unique(t.routes) && lost != local
    ensures var t' := Without(t, local, lost.Octets() + rest);
            var known := exists i: nat :: i < |t.routes| && t.routes[i].valid && t.routes[i].destMac == lost;
            && t'.peers == (if known then t.peers - {lost} else t.peers)
            && (forall i :: 0 <= i < |t'.routes| && t'.routes[i].valid ==> t'.routes[i].destMac != lost)
            && RouteTable.Lookup(t'.routes, q) ==
               match RouteTable.Lookup(t.routes, q)
               case None => None
               case Some(e) => if e.destMac == lost then None else Some(e)
  {
    var payload := lost.Octets() + rest;
    assert payload[..6] == lost.Octets();
    var i := RouteTable.FindMac(t.routes, lost);
    RouteTable.WithdrawRefinesMap(t.routes, lost, q);
    RouteTable.LookupSome(t.routes, q);
    if i < |t.routes| {
      assert RouteTable.HasMac(lost)(t.routes[i]);
    } else {
      assert forall j :: 0 <= j < |t.routes| ==> !RouteTable.HasMac(lost)(t.routes[j]);
    }
  }

  class MeshNetwork {
    const localMac: Mac
    const psk: Bytes
    const crypto: Crypto
    const onBattery: bool
    const handshakes: array<Context>
    const peerMgr: PeerManager
    const router: Router
    var epoch: uint8
    var relayEnabled: bool

    ghost predicate Valid()
      reads this, handshakes, peerMgr, peerMgr.peers, router, router.routes, router.seenCache
    {
      SlotsValid(handshakes[..]) && TablesValid()
    }

    ghost predicate TablesValid()
      reads this, peerMgr, peerMgr.peers, router, router.routes, router.seenCache
    {
      peerMgr.Valid() && router.RoutesValid() && router.SeenValid() && KeysFit(crypto)
    }

    ghost function Contents(): Tables
      requires peerMgr.Valid()
      reads this, peerMgr, peerMgr.peers, router, router.routes
    {
      Tables(peerMgr.Peers(), router.routes[..])
    }

    constructor (localMac: Mac, psk: Bytes, crypto: Crypto, onBattery: bool)
      requires KeysFit(crypto)
      ensures Valid() && this.localMac == localMac && this.psk == psk
      ensures this.crypto == crypto && this.onBattery == onBattery
      ensures fresh(handshakes) && fresh(peerMgr) && fresh(router) && handshakes.Length == 4
      ensures epoch == 0 && relayEnabled == !onBattery
    {
      this.localMac := localMac;
      this.psk := psk;
      this.crypto := crypto;
      this.onBattery := onBattery;
      handshakes := new Context[MAX_HANDSHAKES](_ => NO_CONTEXT);
      peerMgr := new PeerManager();
      router := new Router();
      epoch, relayEnabled := 0, !onBattery;
    }

    method FindHandshake(mac: Mac) returns (slot: nat)
      requires Valid()
      ensures slot == FindContext(handshakes[..], mac)
      ensures slot <= MAX_HANDSHAKES
    {
      for i := 0 to MAX_HANDSHAKES
        invariant forall j :: 0 <= j < i ==> !IsLiveFor(mac)(handshakes[j])
      {
        if handshakes[i].state != IDLE && handshakes[i].peerMac == mac {
          FirstIndexUnique(handshakes[..], IsLiveFor(mac), i);
          return i;
        }
      }
      FirstIndexUnique(handshakes[..], IsLiveFor(mac), MAX_HANDSHAKES);
      return MAX_HANDSHAKES;
    }

    /** The slot to use; a slot that was not live for the MAC is wiped, but left IDLE. */
    method AllocHandshake(mac: Mac) returns (slot: nat)
      requires Valid()
      modifies handshakes
      ensures slot == SlotFor(old(handshakes[..]), mac)
      ensures handshakes[..] == old(handshakes[..])[slot := Allocated(old(handshakes[..]), mac)]
    {
      ghost var cs := handshakes[..];
      slot := FindHandshake(mac);
      if slot < MAX_HANDSHAKES { return; }
      for i := 0 to MAX_HANDSHAKES
        invariant handshakes[..] == cs
        invariant forall j :: 0 <= j < i ==> !IsIdle()(handshakes[j])
      {
        if handshakes[i].state == IDLE {
          FirstIndexUnique(cs, IsIdle(), i);
          handshakes[i] := NO_CONTEXT.(peerMac := mac);
          return i;
        }
      }
      FirstIndexUnique(cs, IsIdle(), MAX_HANDSHAKES);
      var oldest: int := UINT32_MAX;
      slot := 0;
      for i := 0 to MAX_HANDSHAKES
        invariant (slot, oldest) == OldestScan(cs, Started(), i)
      {
        if handshakes[i].startedAt < oldest {
          oldest := handshakes[i].startedAt;
          slot := i;
        }
      }
      handshakes[slot] := NO_CONTEXT.(peerMac := mac);
    }

    method FreeHandshake(mac: Mac)
      requires handshakes.Length == MAX_HANDSHAKES
      modifies handshakes
      ensures handshakes[..] == FreeContext(old(handshakes[..]), mac)
    {
      ghost var cs := handshakes[..];
      for i := 0 to MAX_HANDSHAKES
        invariant handshakes[..] == cs
        invariant forall j :: 0 <= j < i ==> !HasPeerMac(mac)(handshakes[j])
      {
        if handshakes[i].peerMac == mac {
          FirstIndexUnique(cs, HasPeerMac(mac), i);
          handshakes[i] := handshakes[i].(state := IDLE);
          return;
        }
      }
      FirstIndexUnique(cs, HasPeerMac(mac), MAX_HANDSHAKES);
    }

    /** The last part of _checkPeerTimeouts. */
    method TimeoutHandshakes(now: uint32)
      requires Valid()
      modifies handshakes
      ensures Valid()
      ensures handshakes[..] == Handshake.DropStale(old(handshakes[..]), now)
    {
      ghost var cs := handshakes[..];
      for i := 0 to MAX_HANDSHAKES
        invariant forall k :: 0 <= k < i ==> handshakes[k] == Handshake.DropStale(cs, now)[k]
        invariant forall k :: i <= k < MAX_HANDSHAKES ==> handshakes[k] == cs[k]
      {
        if StaleAt(handshakes[i], now) {
          handshakes[i] := handshakes[i].(state := IDLE);
        }
      }
      assert handshakes[..] == Handshake.DropStale(cs, now);
    }

    method InitiateHandshake(peer: Mac, priv: Bytes, pub: Bytes, nonce: Bytes, now: uint32)
      returns (send: Option<Frame>)
      requires Valid() && |nonce| == NONCE_SIZE
      modifies handshakes
      ensures Valid()
      ensures var r := Initiate(old(handshakes[..]), peer, priv, pub, nonce, now);
              handshakes[..] == r.contexts && send == r.send
    {
      ghost var cs := handshakes[..];
      InitiateKeeps(cs, peer, priv, pub, nonce, now);
      var slot := FindHandshake(peer);
      if slot < MAX_HANDSHAKES { return None; }
      slot := AllocHandshake(peer);
      handshakes[slot] := handshakes[slot].(localPub := pub, localPriv := priv, nonce := nonce,
                                            state := HELLO_SENT, startedAt := now);
      assert handshakes[..] == Initiate(cs, peer, priv, pub, nonce, now).contexts;
      return Some(Hello(pub + nonce));
    }

    method HandleKeyExchHello(src: Mac, payload: Bytes, priv: Bytes, pub: Bytes, nonce: Bytes, now: uint32)
      returns (send: Option<Frame>)
      requires Valid() && |nonce| == NONCE_SIZE
      modifies handshakes
      ensures Valid()
      ensures var r := OnHello(old(handshakes[..]), src, payload, priv, pub, nonce, now);
              handshakes[..] == r.contexts && send == r.send
    {
      if |payload| < 40 { return None; }
      ghost var cs := handshakes[..];
      OnHelloKeeps(cs, src, payload, priv, pub, nonce, now);
      var slot := AllocHandshake(src);
      handshakes[slot] := handshakes[slot].(peerPub := payload[..32], peerNonce := payload[32..40],
                                            localPub := pub, localPriv := priv, nonce := nonce,
                                            state := REPLY_SENT, startedAt := now);
      assert handshakes[..] == OnHello(cs, src, payload, priv, pub, nonce, now).contexts;
      return Some(Reply(pub + nonce));
    }

    /** addPeer, then setLinkKey when that gave an entry. */
    method RegisterKey(src: Mac, key: Bytes, now: uint32)
      requires TablesValid() && |key| == KEY_SIZE
      modifies peerMgr.peers, peerMgr`count
      ensures TablesValid()
      ensures RegisterStep(old(peerMgr.Peers()), peerMgr.Peers(), src, key, epoch, now)
    {
      ghost var before := peerMgr.Peers();
      var slot := peerMgr.AddPeer(src, now);
      ghost var mid := peerMgr.Peers();
      if slot >= 0 {
        var stored := peerMgr.SetLinkKey(src, key, epoch);
      }
      RegisteredBy(before, mid, peerMgr.Peers(), src, key, epoch, now, slot >= 0);
    }

    method InstallRoute(src: Mac, now: uint32)
      requires TablesValid()
      modifies router.routes, router`routeCount, router`topologyChanged
      ensures TablesValid()
      ensures router.routes[..] == RouteTable.AddRoute(old(router.routes[..]), PeerIP(src), src, src, 1, now).table
    {
      var route := router.AddRoute(PeerIP(src), src, src, 1, now);
    }

    /** What both sides do with a derived key. */
    method Join(src: Mac, key: Bytes, now: uint32)
      requires TablesValid() && |key| == KEY_SIZE
      modifies peerMgr.peers, peerMgr`count, router.routes, router`routeCount, router`topologyChanged
      ensures TablesValid()
      ensures JoinStep(old(Contents()), Contents(), src, key, epoch, now)
    {
      RegisterKey(src, key, now);
      ghost var registered := peerMgr.Peers();
      InstallRoute(src, now);
      assert peerMgr.Peers() == registered;
    }

    /** The end of a successful exchange: key, direct route, and the context retired. */
    method FinishExchange(src: Mac, key: Bytes, now: uint32)
      requires TablesValid() && |key| == KEY_SIZE
      requires handshakes.Length == MAX_HANDSHAKES && SlotsValid(FreeContext(handshakes[..], src))
      modifies handshakes, peerMgr.peers, peerMgr`count, router.routes, router`routeCount, router`topologyChanged
      ensures Valid()
      ensures handshakes[..] == FreeContext(old(handshakes[..]), src)
      ensures JoinStep(old(Contents()), Contents(), src, key, epoch, now)
    {
      Join(src, key, now);
      ghost var tables := Contents();
      FreeHandshake(src);
      assert Contents() == tables;
    }

    /** Initiator: derive and install the key, answer with CONFIRM, retire the context. */
    method HandleKeyExchReply(src: Mac, payload: Bytes, now: uint32) returns (send: Option<Frame>)
      requires Valid()
      modifies handshakes, peerMgr.peers, peerMgr`count, router.routes, router`routeCount, router`topologyChanged
      ensures Valid()
      ensures var r := OnReply(crypto, psk, localMac, old(handshakes[..]), src, payload);
              && handshakes[..] == r.contexts && send == r.send
              && OutcomeStep(old(Contents()), Contents(), src, r.key, epoch, now)
              && (r.key.None? ==> Contents() == old(Contents()))
    {
      OnReplyKeeps(crypto, psk, localMac, handshakes[..], src, payload);
      if |payload| < 40 { return None; }
      var slot := FindHandshake(src);
      if slot == MAX_HANDSHAKES || handshakes[slot].state != HELLO_SENT { return None; }
      send := CompleteReply(slot, src, payload, now);
    }

    /** HandleKeyExchReply for a well-formed REPLY to our own HELLO. */
    method CompleteReply(slot: nat, src: Mac, payload: Bytes, now: uint32) returns (send: Option<Frame>)
      requires Valid() && |payload| >= 40 && slot < MAX_HANDSHAKES
      requires slot == FindContext(handshakes[..], src) && handshakes[slot].state == HELLO_SENT
      modifies handshakes, peerMgr.peers, peerMgr`count, router.routes, router`routeCount, router`topologyChanged
      ensures Valid()
      ensures var r := OnReply(crypto, psk, localMac, old(handshakes[..]), src, payload);
              && handshakes[..] == r.contexts && send == r.send
              && OutcomeStep(old(Contents()), Contents(), src, r.key, epoch, now)
    {
      OnReplyKeeps(crypto, psk, localMac, handshakes[..], src, payload);
      FindContextSpec(handshakes[..], src);
      var ctx := handshakes[slot].(peerPub := payload[..32], peerNonce := payload[32..40]);
      send := ConcludeReply(slot, ctx, crypto.shared(ctx.localPriv, ctx.peerPub), now);
    }

    /** The rest of HandleKeyExchReply, with the shared secret when it could be computed. */
    method ConcludeReply(slot: nat, ctx: Context, secret: Option<Bytes>, now: uint32) returns (send: Option<Frame>)
      requires TablesValid() && handshakes.Length == MAX_HANDSHAKES && slot < MAX_HANDSHAKES
      requires |ctx.nonce| == |ctx.peerNonce|
      requires var last := if secret.Some? then ctx.(state := CONFIRMED) else ctx;
               SlotsValid(FreeContext(handshakes[..][slot := last], ctx.peerMac))
      modifies handshakes, peerMgr.peers, peerMgr`count, router.routes, router`routeCount, router`topologyChanged
      ensures Valid()
      ensures var last := if secret.Some? then ctx.(state := CONFIRMED) else ctx;
              handshakes[..] == FreeContext(old(handshakes[..])[slot := last], ctx.peerMac)
      ensures match secret
              case None => send == None && Contents() == old(Contents())
              case Some(s) =>
                && send == Some(Confirm(XorBytes(ctx.nonce, ctx.peerNonce)))
                && JoinStep(old(Contents()), Contents(), ctx.peerMac,
                            LinkKey(crypto, psk, localMac, ctx.peerMac, s), epoch, now)
    {
      if secret.None? {
        AbandonExchange(slot, ctx);
        return None;
      }
      ConfirmAndFinish(slot, ctx, LinkKey(crypto, psk, localMac, ctx.peerMac, secret.value), now);
      return Some(Confirm(XorBytes(ctx.nonce, ctx.peerNonce)));
    }

    method AbandonExchange(slot: nat, ctx: Context)
      requires TablesValid() && handshakes.Length == MAX_HANDSHAKES && slot < MAX_HANDSHAKES
      requires SlotsValid(FreeContext(handshakes[..][slot := ctx], ctx.peerMac))
      modifies handshakes
      ensures Valid() && Contents() == old(Contents())
      ensures handshakes[..] == FreeContext(old(handshakes[..])[slot := ctx], ctx.peerMac)
    {
      ghost var cs := handshakes[..];
      handshakes[slot] := ctx;
      assert handshakes[..] == cs[slot := ctx];
      FreeHandshake(ctx.peerMac);
    }

    method ConfirmAndFinish(slot: nat, ctx: Context, key: Bytes, now: uint32)
      requires TablesValid() && |key| == KEY_SIZE && handshakes.Length == MAX_HANDSHAKES && slot < MAX_HANDSHAKES
      requires SlotsValid(FreeContext(handshakes[..][slot := ctx.(state := CONFIRMED)], ctx.peerMac))
      modifies handshakes, peerMgr.peers, peerMgr`count, router.routes, router`routeCount, router`topologyChanged
      ensures Valid()
      ensures handshakes[..] == FreeContext(old(handshakes[..])[slot := ctx.(state := CONFIRMED)], ctx.peerMac)
      ensures JoinStep(old(Contents()), Contents(), ctx.peerMac, key, epoch, now)
    {
      ghost var cs := handshakes[..];
      handshakes[slot] := ctx.(state := CONFIRMED);
      assert handshakes[..] == cs[slot := ctx.(state := CONFIRMED)];
      FinishExchange(ctx.peerMac, key, now);
    }

    /** Responder: check the CONFIRM, install the key, echo a CONFIRM, retire the context. */
    method HandleKeyExchConfirm(src: Mac, payload: Bytes, now: uint32) returns (send: Option<Frame>)
      requires Valid()
      modifies handshakes, peerMgr.peers, peerMgr`count, router.routes, router`routeCount, router`topologyChanged
      ensures Valid()
      ensures var r := OnConfirm(crypto, psk, localMac, old(handshakes[..]), src, payload);
              && handshakes[..] == r.contexts && send == r.send
              && OutcomeStep(old(Contents()), Contents(), src, r.key, epoch, now)
              && (r.key.None? ==> Contents() == old(Contents()))
    {
      ghost var cs := handshakes[..];
      OnConfirmKeeps(crypto, psk, localMac, cs, src, payload);
      if |payload| < 8 { return None; }
      var slot := FindHandshake(src);
      if slot == MAX_HANDSHAKES || handshakes[slot].state != REPLY_SENT { return None; }
      FindContextSpec(cs, src);
      var ctx := handshakes[slot];
      var secret := crypto.shared(ctx.localPriv, ctx.peerPub);
      if secret.None? || payload[..8] != XorBytes(ctx.peerNonce, ctx.nonce) {
        FreeHandshake(src);
        return None;
      }
      var key := LinkKey(crypto, psk, localMac, src, secret.value);
      FinishExchange(src, key, now);
      send := Some(Confirm(XorBytes(ctx.nonce, ctx.peerNonce)));
    }

    /** The broadcast filter at the head of _handleFrame: may this broadcast be processed? */
    method AcceptBroadcast(src: Mac, sequence: uint16, now: uint32) returns (accepted: bool)
      requires Valid() && router.clock <= now
      modifies router.seenCache, router`seenCacheIdx, router`marks, router`clock
      ensures Valid() && router.clock == now
      ensures router.marks == SeenFrames.Filter(old(router.marks), SeenFrames.Mark(src, sequence, now))
      ensures accepted <==> !SeenFrames.SeenRecently(old(router.marks), src, sequence, now)
      ensures old(SeenFrames.NoEarlyRepeat(router.marks)) ==> SeenFrames.NoEarlyRepeat(router.marks)
    {
      if SeenFrames.NoEarlyRepeat(router.marks) {
        SeenFrames.FilterKeepsNoEarlyRepeat(router.marks, SeenFrames.Mark(src, sequence, now));
      }
      var seen := router.IsFrameSeen(src, sequence, now);
      if seen { return false; }
      router.MarkFrameSeen(src, sequence, now);
      return true;
    }

    /** The head of _handleFrame: another network's frames, our own and repeated broadcasts go no further. */
    method AcceptFrame(networkId: uint16, src: Mac, dst: Mac, sequence: uint16, now: uint32) returns (accepted: bool)
      requires Valid() && router.clock <= now
      modifies router.seenCache, router`seenCacheIdx, router`marks, router`clock
      ensures Valid() && Contents() == old(Contents())
      ensures var ours := networkId == crypto.netId(psk) && src != localMac;
              && (accepted <==>
                    ours && (dst == BROADCAST ==> !SeenFrames.SeenRecently(old(router.marks), src, sequence, now)))
              && router.marks == if ours && dst == BROADCAST
                                 then SeenFrames.Filter(old(router.marks), SeenFrames.Mark(src, sequence, now))
                                 else old(router.marks)
    {
      if networkId != crypto.netId(psk) || src == localMac { return false; }
      if dst != BROADCAST { return true; }
      accepted := AcceptBroadcast(src, sequence, now);
    }

    /** A known sender is refreshed; its slot, -1 for nullptr. */
    method NoteSender(src: Mac, now: uint32) returns (slot: int)
      requires Valid()
      modifies peerMgr.peers
      ensures Valid()
      ensures Contents() == old(Contents()).(peers := Seen(old(peerMgr.Peers()), src, now))
      ensures -1 <= slot < PeerTable.MAX_PEERS && (slot == -1 <==> src !in old(peerMgr.Peers()))
      ensures slot >= 0 ==> peerMgr.peers[slot].isBattery == old(peerMgr.Peers())[src].isBattery
    {
      slot := peerMgr.FindPeer(src);
      if slot >= 0 { peerMgr.Store(slot, peerMgr.peers[slot].(lastSeen := now)); }
    }

    /** ROUTE_ADV from a neighbour. */
    method HandleRouteAdv(src: Mac, payload: Bytes, now: uint32)
      requires Valid()
      modifies peerMgr.peers, router.routes, router`routeCount, router`topologyChanged
      ensures Valid()
      ensures router.routes[..] ==
              RouteTable.ApplyAll(old(router.routes[..]), RouteAdvCodec.DecodeAll(payload), src, Some(localMac), now)
      ensures var m := old(peerMgr.Peers());
              peerMgr.Peers() == if src in m then m[src := m[src].(lastSeen := now)] else m
    {
      var slot := NoteSender(src, now);
      var count := router.DeserializeRouteAdv(payload, src, Some(localMac), now);
    }

    /** ROUTE_WITHDRAW: when we have a route to the lost node, all of them go, and it is no longer a peer. */
    method HandleRouteWithdraw(payload: Bytes)
      requires Valid()
      modifies peerMgr.peers, peerMgr`count, router.routes, router`routeCount, router`topologyChanged
      ensures Valid()
      ensures Contents() == Without(old(Contents()), localMac, payload)
      ensures |payload| >= 6 ==>
                Mac(payload[0], payload[1], payload[2], payload[3], payload[4], payload[5]) == localMac ==>
                  Contents() == old(Contents())
      ensures |payload| < 6 ==> Contents() == old(Contents())
    {
      if |payload| < 6 { return; }
      var lostMac := Mac(payload[0], payload[1], payload[2], payload[3], payload[4], payload[5]);
      if lostMac == localMac { return; }
      var existing := router.FindRouteByMac(lostMac);
      if existing < 0 { return; }
      router.HandleRouteWithdraw(lostMac);
      var removed := peerMgr.RemovePeer(lostMac);
    }

    /** A DATA frame, or the payload of a reassembled one, sent by src. */
    method HandleData(src: Mac, f: DataFrame, now: uint32) returns (action: Action)
      requires Valid()
      modifies peerMgr.peers
      ensures Valid()
      ensures var m := old(peerMgr.Peers());
              peerMgr.Peers() == if src in m then m[src := m[src].(lastSeen := now)] else m
      ensures router.routes[..] == old(router.routes[..])
      ensures var s := Setting(old(peerMgr.Peers()), onBattery, relayEnabled, src);
              && action == DataAction(s, old(router.routes[..]), localMac, f)
              && Fate(s, old(router.routes[..]), localMac, f, action)
    {
      ghost var s := Setting(peerMgr.Peers(), onBattery, relayEnabled, src);
      FateOfFrame(s, router.routes[..], localMac, f);
      var slot := NoteSender(src, now);
      if slot >= 0 && peerMgr.peers[slot].isBattery && !onBattery && f.protocol == MESH_INTERNAL { return AnswerTime; }
      action := DeliverOrRelay(f);
    }

    /** HandleData, once the frame is not a battery child's uplink. */
    method DeliverOrRelay(f: DataFrame) returns (action: Action)
      requires Valid()
      ensures action == DataAction(Setting(map[], onBattery, relayEnabled, localMac), router.routes[..], localMac, f)
    {
      if f.dst == localMac || f.dst == BROADCAST {
        return if f.protocol == IPv4 && f.len >= MIN_IPV4_PACKET then DeliverLocally else Discard;
      }
      if relayEnabled {
        var route := router.FindRouteByMac(f.dst);
        if route >= 0 && FitsFrame(f.len) { return RelayTo(router.routes[route].nextHopMac); }
      }
      return Discard;
    }

    /** The frames that sendData puts on the air; sent is its result, when the radio accepts them all. */
    method SendData(dst: Mac, data: Bytes, fragId: uint16) returns (out: seq<Outgoing>, sent: bool)
      requires Valid()
      ensures out == Sends(router.routes[..], dst, data, fragId)
      ensures sent <==> |out| > 0
      ensures SentWhole(out, data, fragId) <==> |data| <= MAX_SENDABLE
      ensures forall i :: 0 <= i < |out| ==> 22 + |out[i].payload| <= 250
      ensures |data| <= 216 ==> |out| == 1 && !out[0].fragment && out[0].payload == data
      ensures 216 < |data| <= 1792 ==> |out| == (|data| + 223) / 224
      ensures forall i: nat, k :: RouteTable.FirstRoute(router.routes[..], dst, i) && 0 <= k < |out| ==>
                out[k].nextHop == router.routes[i].nextHopMac
    {
      SendsWholeIff(router.routes[..], dst, data, fragId);
      SendsHow(router.routes[..], dst, data, fragId);
      var nextHop := dst;
      var route := router.FindRouteByMac(dst);
      if route >= 0 { nextHop := router.routes[route].nextHopMac; }
      if |data| <= MESH_MAX_PAYLOAD { return [Outgoing(nextHop, false, data)], true; }
      out := SendFragments(nextHop, data, fragId);
      sent := |out| > 0;
    }
  }
}
