/**
 The key-exchange contexts of one node as values: four slots, and what each message of the
 HELLO / REPLY / CONFIRM exchange does to them.
 */
module Handshake {
  import opened MeshTypes
  import opened Bits

  const MAX_HANDSHAKES: nat := 4
  const HANDSHAKE_TIMEOUT_MS: int := 10000
  const PUB_SIZE: nat := 32
  const NONCE_SIZE: nat := 8

  datatype State = IDLE | HELLO_SENT | REPLY_SENT | CONFIRMED

  datatype Context = Context(
    peerMac: Mac,
    localPub: Bytes,
    localPriv: Bytes,
    peerPub: Bytes,
    nonce: Bytes,
    peerNonce: Bytes,
    state: State,
    startedAt: uint32)

  type Contexts = seq<Context>

  /** A zeroed context (memset). */
  const NO_CONTEXT := Context(Mac(0, 0, 0, 0, 0, 0), Zeros(32), Zeros(32), Zeros(32), Zeros(8), Zeros(8), IDLE, 0)

  function Zeros(n: nat): (r: Bytes)
    ensures |r| == n && forall i :: 0 <= i < n ==> r[i] == 0
  {
    seq(n, i => 0)
  }

  /** The cryptographic primitives; `shared` may fail. `netId` is the 16-bit network id of a pre-shared key. */
  datatype Crypto = Crypto(
    pub: Bytes -> Bytes,
    shared: (Bytes, Bytes) -> Option<Bytes>,
    kdf: (Bytes, Bytes, Mac, Mac) -> Bytes,
    netId: Bytes -> uint16)

  /** deriveLinkKey always yields a 16-byte key. */
  ghost predicate KeysFit(c: Crypto)
  {
    forall s, k, a, b :: |c.kdf(s, k, a, b)| == KEY_SIZE
  }

  datatype Frame = Hello(payload: Bytes) | Reply(payload: Bytes) | Confirm(payload: Bytes)

  /** What one message does at its receiver: new contexts, a derived link key, an answer. */
  datatype Reaction = Reaction(contexts: Contexts, key: Option<Bytes>, send: Option<Frame>)

  function XorBytes(a: Bytes, b: Bytes): (r: Bytes)
    requires |a| == |b|
    ensures |r| == |a|
  {
    seq(|a|, i requires 0 <= i < |a| => XorByte(a[i], b[i]))
  }

  function XorByte(a: uint8, b: uint8): uint8
  {
    assert Pow2(8) == 0x100;
    BitXorBound(a, b, 8);
    BitXor(a, b)
  }

  /** p is the bitwise exclusive or of a and b. */
  ghost predicate IsXor(p: Bytes, a: Bytes, b: Bytes)
  {
    && |p| == |a| == |b|
    && forall i, k: nat :: 0 <= i < |p| ==> (Bit(p[i], k) <==> (Bit(a[i], k) != Bit(b[i], k)))
  }

  lemma XorBytesBits(a: Bytes, b: Bytes)
    requires |a| == |b|
    ensures IsXor(XorBytes(a, b), a, b)
  {
    forall i, k: nat | 0 <= i < |a|
      ensures Bit(XorBytes(a, b)[i], k) <==> (Bit(a[i], k) != Bit(b[i], k))
    {
      BitXorBits(a[i], b[i], k);
    }
  }

  /** Bytes with the same bits are the same. */
  lemma XorUnique(p: Bytes, q: Bytes, a: Bytes, b: Bytes)
    requires IsXor(p, a, b) && IsXor(q, a, b)
    ensures p == q
  {
    assert Pow2(8) == 0x100;
    forall i | 0 <= i < |p|
      ensures p[i] == q[i]
    {
      MaskExtensional(p[i], q[i], 8);
    }
  }

  /** Whoever knows one of two nonces reads the other from their XOR. */
  lemma XorCancels(a: Bytes, b: Bytes)
    requires |a| == |b|
    ensures XorBytes(a, XorBytes(a, b)) == b
    ensures XorBytes(b, XorBytes(a, b)) == a
  {
    var p := XorBytes(a, b);
    XorBytesBits(a, b);
    XorBytesBits(a, p);
    XorBytesBits(b, p);
    assert IsXor(b, a, p) && IsXor(a, b, p);
    XorUnique(XorBytes(a, p), b, a, p);
    XorUnique(XorBytes(b, p), a, b, p);
  }

  /* ----- Slots ----- */

  function IsLiveFor(mac: Mac): Context -> bool
  {
    (c: Context) => c.state != IDLE && c.peerMac == mac
  }

  function IsIdle(): Context -> bool
  {
    (c: Context) => c.state == IDLE
  }

  /** _freeHandshake compares the MAC only. */
  function HasPeerMac(mac: Mac): Context -> bool
  {
    (c: Context) => c.peerMac == mac
  }

  function Started(): Context -> uint32
  {
    (c: Context) => c.startedAt
  }

  function FindContext(cs: Contexts, mac: Mac): nat
  {
    FirstIndex(cs, IsLiveFor(mac))
  }

  function SlotFor(cs: Contexts, mac: Mac): (i: nat)
    requires |cs| == MAX_HANDSHAKES
    ensures i < |cs|
  {
    if FindContext(cs, mac) < |cs| then FindContext(cs, mac)
    else if FirstIndex(cs, IsIdle()) < |cs| then FirstIndex(cs, IsIdle())
    else OldestScan(cs, Started(), |cs|).0
  }

  /** _allocHandshake: the context to be used, blank unless one was already live. */
  function Allocated(cs: Contexts, mac: Mac): Context
    requires |cs| == MAX_HANDSHAKES
  {
    if FindContext(cs, mac) < |cs| then cs[FindContext(cs, mac)] else NO_CONTEXT.(peerMac := mac)
  }

  function FreeContext(cs: Contexts, mac: Mac): Contexts
  {
    var i := FirstIndex(cs, HasPeerMac(mac));
    if i < |cs| then cs[i := cs[i].(state := IDLE)] else cs
  }

  /**
   No slot before a live context holds the same MAC, whatever its state. In particular there
   is at most one live context per MAC.
   */
  ghost predicate NoShadow(cs: Contexts)
  {
    forall i, j :: 0 <= i < j < |cs| && cs[j].state != IDLE ==> cs[i].peerMac != cs[j].peerMac
  }

  lemma FindContextSpec(cs: Contexts, mac: Mac)
    ensures var i := FindContext(cs, mac);
            && (i < |cs| ==> cs[i].state != IDLE && cs[i].peerMac == mac)
            && (i == |cs| ==> forall j :: 0 <= j < |cs| && cs[j].state != IDLE ==> cs[j].peerMac != mac)
  {
  }

  /** Making the allocated slot live, with any contents for that MAC, keeps every live context reachable. */
  lemma AllocKeepsNoShadow(cs: Contexts, mac: Mac, c: Context)
    requires |cs| == MAX_HANDSHAKES && NoShadow(cs) && c.peerMac == mac
    ensures NoShadow(cs[SlotFor(cs, mac) := c])
  {
  }

  /** An exchange with another peer is given up only when all four slots hold one, and then one started first. */
  lemma SlotSpares(cs: Contexts, mac: Mac)
    requires |cs| == MAX_HANDSHAKES
    ensures var i := SlotFor(cs, mac);
            cs[i].state != IDLE && cs[i].peerMac != mac ==>
              forall j :: 0 <= j < |cs| ==>
                cs[j].state != IDLE && cs[j].peerMac != mac && cs[i].startedAt <= cs[j].startedAt
  {
    FindContextSpec(cs, mac);
    OldestIsMinimal(cs, Started(), |cs|);
    forall j | 0 <= j < |cs| && FirstIndex(cs, IsIdle()) == |cs|
      ensures cs[j].state != IDLE
    {
      assert !IsIdle()(cs[j]);
    }
  }

  /**
   _freeHandshake, which does not look at the state, always retires the live context of its
   MAC, and touches no other live context.
   */
  lemma FreeRetires(cs: Contexts, mac: Mac)
    requires NoShadow(cs)
    ensures var r := FreeContext(cs, mac);
            && |r| == |cs| && NoShadow(r)
            && FindContext(r, mac) == |r|
            && (forall i :: 0 <= i < |cs| && cs[i].peerMac != mac ==> r[i] == cs[i])
            && (forall i :: 0 <= i < |cs| && r[i].state != IDLE ==> r[i] == cs[i])
  {
  }

  function StaleAt(c: Context, now: uint32): bool
  {
    c.state != IDLE && (now - c.startedAt) % 0x1_0000_0000 > HANDSHAKE_TIMEOUT_MS
  }

  function DropStale(cs: Contexts, now: uint32): (r: Contexts)
    ensures |r| == |cs|
    ensures forall i :: 0 <= i < |cs| ==> r[i] == if StaleAt(cs[i], now) then cs[i].(state := IDLE) else cs[i]
    ensures NoShadow(cs) ==> NoShadow(r)
  {
    seq(|cs|, i requires 0 <= i < |cs| => if StaleAt(cs[i], now) then cs[i].(state := IDLE) else cs[i])
  }

  /** An exchange under way is there for ten seconds from its start, and not after that. */
  lemma TimesOut(cs: Contexts, mac: Mac, now: uint32)
    requires NoShadow(cs) && FindContext(cs, mac) < |cs|
    ensures var i := FindContext(cs, mac);
            var r := DropStale(cs, now);
            if (now - cs[i].startedAt) % 0x1_0000_0000 <= 10000
            then FindContext(r, mac) == i && r[i] == cs[i]
            else FindContext(r, mac) == |r|
  {
    FindContextSpec(cs, mac);
    FindContextSpec(DropStale(cs, now), mac);
  }

  /* ----- Messages ----- */

  /** The lower MAC first. */
  function LinkKey(c: Crypto, psk: Bytes, local: Mac, peer: Mac, secret: Bytes): Bytes
  {
    if MacLess(local, peer) then c.kdf(secret, psk, local, peer) else c.kdf(secret, psk, peer, local)
  }

  lemma LinkKeySymmetric(c: Crypto, psk: Bytes, a: Mac, b: Mac, secret: Bytes)
    ensures LinkKey(c, psk, a, b, secret) == LinkKey(c, psk, b, a, secret)
  {
    BytesLessTotal(a.Octets(), b.Octets());
  }

  /** The MAC that is the lower number goes first. */
  lemma LinkKeyOrder(c: Crypto, psk: Bytes, a: Mac, b: Mac, secret: Bytes)
    ensures var v := BigEndian([a.b0, a.b1, a.b2, a.b3, a.b4, a.b5]);
            var w := BigEndian([b.b0, b.b1, b.b2, b.b3, b.b4, b.b5]);
            LinkKey(c, psk, a, b, secret) == if v < w then c.kdf(secret, psk, a, b) else c.kdf(secret, psk, b, a)
  {
    BytesLessIsNumeric(a.Octets(), b.Octets());
  }

  function Initiate(cs: Contexts, peer: Mac, priv: Bytes, pub: Bytes, nonce: Bytes, now: uint32): Reaction
    requires |cs| == MAX_HANDSHAKES
  {
    if FindContext(cs, peer) < |cs| then Reaction(cs, None, None)
    else
      var ctx := Allocated(cs, peer).(localPub := pub, localPriv := priv, nonce := nonce,
                                      state := HELLO_SENT, startedAt := now);
      Reaction(cs[SlotFor(cs, peer) := ctx], None, Some(Hello(pub + nonce)))
  }

  function OnHello(cs: Contexts, src: Mac, payload: Bytes, priv: Bytes, pub: Bytes, nonce: Bytes, now: uint32): Reaction
    requires |cs| == MAX_HANDSHAKES
  {
    if |payload| < 40 then Reaction(cs, None, None)
    else
      var ctx := Allocated(cs, src).(peerPub := payload[..32], peerNonce := payload[32..40],
                                     localPub := pub, localPriv := priv, nonce := nonce,
                                     state := REPLY_SENT, startedAt := now);
      Reaction(cs[SlotFor(cs, src) := ctx], None, Some(Reply(pub + nonce)))
  }

  ghost predicate NoncesFit(cs: Contexts)
  {
    forall i :: 0 <= i < |cs| && cs[i].state != IDLE ==>
      |cs[i].nonce| == NONCE_SIZE && (cs[i].state == REPLY_SENT ==> |cs[i].peerNonce| == NONCE_SIZE)
  }

  function OnReply(c: Crypto, psk: Bytes, local: Mac, cs: Contexts, src: Mac, payload: Bytes): Reaction
    requires NoncesFit(cs)
  {
    FindContextSpec(cs, src);
    var i := FindContext(cs, src);
    if |payload| < 40 || i == |cs| || cs[i].state != HELLO_SENT then Reaction(cs, None, None)
    else
      var ctx := cs[i].(peerPub := payload[..32], peerNonce := payload[32..40]);
      match c.shared(ctx.localPriv, ctx.peerPub)
      case None => Reaction(FreeContext(cs[i := ctx], src), None, None)
      case Some(secret) =>
        Reaction(FreeContext(cs[i := ctx.(state := CONFIRMED)], src),
                 Some(LinkKey(c, psk, local, src, secret)),
                 Some(Confirm(XorBytes(ctx.nonce, ctx.peerNonce))))
  }

  /** A CONFIRM longer than 8 bytes is compared by its first 8. */
  function OnConfirm(c: Crypto, psk: Bytes, local: Mac, cs: Contexts, src: Mac, payload: Bytes): Reaction
    requires NoncesFit(cs)
  {
    FindContextSpec(cs, src);
    var i := FindContext(cs, src);
    if |payload| < 8 || i == |cs| || cs[i].state != REPLY_SENT then Reaction(cs, None, None)
    else
      match c.shared(cs[i].localPriv, cs[i].peerPub)
      case None => Reaction(FreeContext(cs, src), None, None)
      case Some(secret) =>
        if payload[..8] != XorBytes(cs[i].peerNonce, cs[i].nonce) then Reaction(FreeContext(cs, src), None, None)
        else
          Reaction(FreeContext(cs, src),
                   Some(LinkKey(c, psk, local, src, secret)),
                   Some(Confirm(XorBytes(cs[i].nonce, cs[i].peerNonce))))
  }

  ghost predicate SlotsValid(cs: Contexts)
  {
    |cs| == MAX_HANDSHAKES && NoShadow(cs) && NoncesFit(cs)
  }

  /** Every event of the handshake keeps the slots valid. */
  lemma InitiateKeeps(cs: Contexts, peer: Mac, priv: Bytes, pub: Bytes, nonce: Bytes, now: uint32)
    requires SlotsValid(cs) && |nonce| == NONCE_SIZE
    ensures SlotsValid(Initiate(cs, peer, priv, pub, nonce, now).contexts)
  {
  }

  lemma OnHelloKeeps(cs: Contexts, src: Mac, payload: Bytes, priv: Bytes, pub: Bytes, nonce: Bytes, now: uint32)
    requires SlotsValid(cs) && |nonce| == NONCE_SIZE
    ensures SlotsValid(OnHello(cs, src, payload, priv, pub, nonce, now).contexts)
  {
    FindContextSpec(cs, src);
    if |payload| >= 40 {
      AllocKeepsNoShadow(cs, src, OnHello(cs, src, payload, priv, pub, nonce, now).contexts[SlotFor(cs, src)]);
    }
  }

  /** What was written into a live context just before it is freed does not outlive it. */
  lemma FreeAfterWrite(cs: Contexts, i: nat, ctx: Context)
    requires SlotsValid(cs) && i < |cs| && cs[i].state != IDLE && ctx.peerMac == cs[i].peerMac && ctx.state != IDLE
    ensures var r := FreeContext(cs[i := ctx], ctx.peerMac);
            && SlotsValid(r) && FindContext(r, ctx.peerMac) == |r|
            && (forall j :: 0 <= j < |cs| && r[j].state != IDLE ==> r[j] == cs[j])
  {
    FreeRetires(cs[i := ctx], ctx.peerMac);
  }

  /** A REPLY that is acted on retires the context, so it cannot be acted on twice. */
  lemma OnReplyKeeps(c: Crypto, psk: Bytes, local: Mac, cs: Contexts, src: Mac, payload: Bytes)
    requires SlotsValid(cs)
    ensures var r := OnReply(c, psk, local, cs, src, payload);
            && SlotsValid(r.contexts)
            && (r.contexts != cs ==> FindContext(r.contexts, src) == |cs|)
            && (r.key.Some? ==> FindContext(r.contexts, src) == |cs|)
            && (forall i :: 0 <= i < |cs| && r.contexts[i].state != IDLE ==> r.contexts[i] == cs[i])
  {
    FindContextSpec(cs, src);
    var i := FindContext(cs, src);
    if |payload| >= 40 && i < |cs| && cs[i].state == HELLO_SENT {
      var ctx := cs[i].(peerPub := payload[..32], peerNonce := payload[32..40]);
      FreeAfterWrite(cs, i, if c.shared(ctx.localPriv, ctx.peerPub).None? then ctx else ctx.(state := CONFIRMED));
    }
  }

  lemma OnConfirmKeeps(c: Crypto, psk: Bytes, local: Mac, cs: Contexts, src: Mac, payload: Bytes)
    requires SlotsValid(cs)
    ensures var r := OnConfirm(c, psk, local, cs, src, payload);
            && SlotsValid(r.contexts)
            && (r.key.Some? ==> FindContext(r.contexts, src) == |cs|)
            && (forall i :: 0 <= i < |cs| && r.contexts[i].state != IDLE ==> r.contexts[i] == cs[i])
  {
    FreeRetires(cs, src);
  }

  /**
   The CONFIRM check does not involve the link key: with any other pre-shared key the same
   message is accepted, answered and followed by the same state.
   */
  lemma ConfirmIgnoresKey(c: Crypto, psk: Bytes, other: Bytes, local: Mac, cs: Contexts, src: Mac, payload: Bytes)
    requires NoncesFit(cs)
    ensures var r := OnConfirm(c, psk, local, cs, src, payload);
            var q := OnConfirm(c, other, local, cs, src, payload);
            r.contexts == q.contexts && r.send == q.send && (r.key.Some? <==> q.key.Some?)
  {
  }

  /* ----- An exchange under way ----- */

  /** There is a live exchange with `other`, made with this private key and nonce. */
  ghost predicate Waiting(cs: Contexts, other: Mac, state: State, priv: Bytes, nonce: Bytes)
  {
    var i := FindContext(cs, other);
    i < |cs| && cs[i].state == state && cs[i].localPriv == priv && cs[i].nonce == nonce
  }

  /** ... as responder, for this HELLO. */
  ghost predicate Answering(cs: Contexts, other: Mac, priv: Bytes, nonce: Bytes, peerPub: Bytes, peerNonce: Bytes)
  {
    && Waiting(cs, other, REPLY_SENT, priv, nonce)
    && var i := FindContext(cs, other);
       cs[i].peerPub == peerPub && cs[i].peerNonce == peerNonce
  }

  lemma LiveSlotFound(cs: Contexts, i: nat, mac: Mac)
    requires SlotsValid(cs) && i < |cs| && cs[i].state != IDLE && cs[i].peerMac == mac
    ensures FindContext(cs, mac) == i
  {
  }

  lemma InitiateWaits(cs: Contexts, peer: Mac, priv: Bytes, pub: Bytes, nonce: Bytes, now: uint32)
    requires SlotsValid(cs) && |nonce| == NONCE_SIZE && FindContext(cs, peer) == |cs|
    ensures var r := Initiate(cs, peer, priv, pub, nonce, now);
            && r.send == Some(Hello(pub + nonce)) && Waiting(r.contexts, peer, HELLO_SENT, priv, nonce)
  {
    InitiateKeeps(cs, peer, priv, pub, nonce, now);
    LiveSlotFound(Initiate(cs, peer, priv, pub, nonce, now).contexts, SlotFor(cs, peer), peer);
  }

  /** Every HELLO is answered, whatever exchange with its sender there was before. */
  lemma HelloIsAnswered(cs: Contexts, src: Mac, peerPub: Bytes, peerNonce: Bytes, priv: Bytes, pub: Bytes,
                        nonce: Bytes, now: uint32)
    requires SlotsValid(cs) && |nonce| == |peerNonce| == NONCE_SIZE && |peerPub| == PUB_SIZE
    ensures var r := OnHello(cs, src, peerPub + peerNonce, priv, pub, nonce, now);
            && r.key.None? && r.send == Some(Reply(pub + nonce))
            && Answering(r.contexts, src, priv, nonce, peerPub, peerNonce)
  {
    var payload := peerPub + peerNonce;
    assert payload[..32] == peerPub && payload[32..40] == peerNonce;
    OnHelloKeeps(cs, src, payload, priv, pub, nonce, now);
    LiveSlotFound(OnHello(cs, src, payload, priv, pub, nonce, now).contexts, SlotFor(cs, src), src);
  }

  /** A CONFIRM that carries the exclusive or of two nonces, so that either of them gives away the other. */
  ghost predicate ProvesNonces(f: Option<Frame>, mine: Bytes, theirs: Bytes)
  {
    && f.Some? && f.value.Confirm? && IsXor(f.value.payload, mine, theirs)
    && XorBytes(mine, f.value.payload) == theirs && XorBytes(theirs, f.value.payload) == mine
  }

  lemma XorProves(mine: Bytes, theirs: Bytes)
    requires |mine| == |theirs|
    ensures ProvesNonces(Some(Confirm(XorBytes(mine, theirs))), mine, theirs)
    ensures XorBytes(mine, theirs) == XorBytes(theirs, mine)
  {
    XorBytesBits(mine, theirs);
    XorBytesBits(theirs, mine);
    XorUnique(XorBytes(theirs, mine), XorBytes(mine, theirs), mine, theirs);
    XorCancels(mine, theirs);
  }

  /**
   The whole context of an exchange begun or answered now, and that every other slot is as before. No exchange is
   begun while there is one with that peer, and a HELLO that is too short is not answered.
   */
  lemma StartsNow(cs: Contexts, other: Mac, payload: Bytes, priv: Bytes, pub: Bytes, nonce: Bytes, now: uint32)
    requires SlotsValid(cs) && |nonce| == NONCE_SIZE
    ensures FindContext(cs, other) < |cs| ==> Initiate(cs, other, priv, pub, nonce, now) == Reaction(cs, None, None)
    ensures |payload| < 40 ==> OnHello(cs, other, payload, priv, pub, nonce, now) == Reaction(cs, None, None)
    ensures var r := Initiate(cs, other, priv, pub, nonce, now).contexts;
            FindContext(cs, other) == |cs| ==>
              var i := FindContext(r, other);
              && i < |r| && r == cs[i := r[i]]
              && r[i] == Context(other, pub, priv, Zeros(32), nonce, Zeros(8), HELLO_SENT, now)
    ensures var r := OnHello(cs, other, payload, priv, pub, nonce, now).contexts;
            |payload| >= 40 ==>
              var i := FindContext(r, other);
              && i < |r| && r == cs[i := r[i]]
              && r[i] == Context(other, pub, priv, payload[..32], nonce, payload[32..40], REPLY_SENT, now)
  {
    InitiateKeeps(cs, other, priv, pub, nonce, now);
    OnHelloKeeps(cs, other, payload, priv, pub, nonce, now);
    FindContextSpec(cs, other);
    if FindContext(cs, other) == |cs| {
      LiveSlotFound(Initiate(cs, other, priv, pub, nonce, now).contexts, SlotFor(cs, other), other);
    }
    if |payload| >= 40 {
      LiveSlotFound(OnHello(cs, other, payload, priv, pub, nonce, now).contexts, SlotFor(cs, other), other);
    }
  }

  /** A REPLY to a waiting initiator is acted on. */
  lemma ReplyIsTaken(c: Crypto, psk: Bytes, local: Mac, cs: Contexts, src: Mac, priv: Bytes, nonce: Bytes,
                     peerPub: Bytes, peerNonce: Bytes, secret: Bytes)
    requires SlotsValid(cs) && |nonce| == |peerNonce| == NONCE_SIZE && |peerPub| == PUB_SIZE
    requires Waiting(cs, src, HELLO_SENT, priv, nonce) && c.shared(priv, peerPub) == Some(secret)
    ensures var r := OnReply(c, psk, local, cs, src, peerPub + peerNonce);
            && r.key == Some(LinkKey(c, psk, local, src, secret))
            && r.send == Some(Confirm(XorBytes(nonce, peerNonce)))
  {
    var payload := peerPub + peerNonce;
    assert payload[..32] == peerPub && payload[32..40] == peerNonce;
  }

  /** It yields the link key, and a CONFIRM with the exclusive or of the two nonces. */
  lemma ReplyCompletes(c: Crypto, psk: Bytes, local: Mac, cs: Contexts, src: Mac, priv: Bytes, nonce: Bytes,
                       peerPub: Bytes, peerNonce: Bytes, secret: Bytes)
    requires SlotsValid(cs) && |nonce| == |peerNonce| == NONCE_SIZE && |peerPub| == PUB_SIZE
    requires Waiting(cs, src, HELLO_SENT, priv, nonce) && c.shared(priv, peerPub) == Some(secret)
    ensures var r := OnReply(c, psk, local, cs, src, peerPub + peerNonce);
            && r.key == Some(LinkKey(c, psk, local, src, secret))
            && r.send == Some(Confirm(XorBytes(nonce, peerNonce))) && ProvesNonces(r.send, nonce, peerNonce)
  {
    ReplyIsTaken(c, psk, local, cs, src, priv, nonce, peerPub, peerNonce, secret);
    XorProves(nonce, peerNonce);
  }

  /** A CONFIRM with that at a waiting responder is acted on. */
  lemma ConfirmIsTaken(c: Crypto, psk: Bytes, local: Mac, cs: Contexts, src: Mac, priv: Bytes, nonce: Bytes,
                       peerPub: Bytes, peerNonce: Bytes, secret: Bytes)
    requires SlotsValid(cs) && |nonce| == |peerNonce| == NONCE_SIZE
    requires Answering(cs, src, priv, nonce, peerPub, peerNonce) && c.shared(priv, peerPub) == Some(secret)
    ensures var r := OnConfirm(c, psk, local, cs, src, XorBytes(peerNonce, nonce));
            && r.key == Some(LinkKey(c, psk, local, src, secret))
            && r.send == Some(Confirm(XorBytes(nonce, peerNonce)))
  {
    var payload := XorBytes(peerNonce, nonce);
    assert payload[..8] == payload;
  }

  /** A responder accepts the exclusive or of the two nonces, whatever key it derives, and sends the same back. */
  lemma ConfirmCompletes(c: Crypto, psk: Bytes, local: Mac, cs: Contexts, src: Mac, priv: Bytes, nonce: Bytes,
                         peerPub: Bytes, peerNonce: Bytes, proof: Bytes, secret: Bytes)
    requires SlotsValid(cs) && |nonce| == |peerNonce| == NONCE_SIZE
    requires Answering(cs, src, priv, nonce, peerPub, peerNonce) && c.shared(priv, peerPub) == Some(secret)
    requires IsXor(proof, peerNonce, nonce)
    ensures var r := OnConfirm(c, psk, local, cs, src, proof);
            r.key == Some(LinkKey(c, psk, local, src, secret)) && ProvesNonces(r.send, nonce, peerNonce)
  {
    XorBytesBits(peerNonce, nonce);
    XorUnique(proof, XorBytes(peerNonce, nonce), peerNonce, nonce);
    ConfirmIsTaken(c, psk, local, cs, src, priv, nonce, peerPub, peerNonce, secret);
    XorProves(nonce, peerNonce);
  }

  /** The live context of mac, when it is in this state. */
  ghost function InState(cs: Contexts, mac: Mac, state: State): Option<Context>
  {
    var i := FindContext(cs, mac);
    if i < |cs| && cs[i].state == state then Some(cs[i]) else None
  }

  /**
   A REPLY too short, or not to a HELLO of ours, changes nothing and is not answered. Any other ends the
   exchange: with a key and a CONFIRM, or with neither when no secret can be computed.
   */
  lemma ReplyEnds(c: Crypto, psk: Bytes, local: Mac, cs: Contexts, src: Mac, payload: Bytes)
    requires SlotsValid(cs)
    ensures var r := OnReply(c, psk, local, cs, src, payload);
            match InState(cs, src, HELLO_SENT)
            case None => r == Reaction(cs, None, None)
            case Some(ctx) =>
              if |payload| < 40 then r == Reaction(cs, None, None)
              else
                && FindContext(r.contexts, src) == |cs|
                && r.key == (match c.shared(ctx.localPriv, payload[..32])
                             case None => None
                             case Some(secret) => Some(LinkKey(c, psk, local, src, secret)))
                && (if r.key.Some? then ProvesNonces(r.send, ctx.nonce, payload[32..40]) else r.send.None?)
  {
    FindContextSpec(cs, src);
    var i := FindContext(cs, src);
    if |payload| >= 40 && i < |cs| && cs[i].state == HELLO_SENT {
      OnReplyKeeps(c, psk, local, cs, src, payload);
      var ctx := cs[i].(peerPub := payload[..32], peerNonce := payload[32..40]);
      FreeAfterWrite(cs, i, if c.shared(ctx.localPriv, ctx.peerPub).None? then ctx else ctx.(state := CONFIRMED));
      XorProves(cs[i].nonce, payload[32..40]);
    }
  }

  /**
   A CONFIRM too short, or for no exchange we answered, changes nothing and is not answered. Any other
   ends the exchange, and it yields the key, and an answer, exactly when a secret can be computed and its
   first eight bytes are the exclusive or of the two nonces.
   */
  lemma ConfirmEnds(c: Crypto, psk: Bytes, local: Mac, cs: Contexts, src: Mac, payload: Bytes)
    requires SlotsValid(cs)
    ensures var r := OnConfirm(c, psk, local, cs, src, payload);
            match InState(cs, src, REPLY_SENT)
            case None => r == Reaction(cs, None, None)
            case Some(ctx) =>
              if |payload| < 8 then r == Reaction(cs, None, None)
              else
                && r.contexts == FreeContext(cs, src) && FindContext(r.contexts, src) == |cs|
                && r.key == (match c.shared(ctx.localPriv, ctx.peerPub)
                             case None => None
                             case Some(secret) =>
                               if IsXor(payload[..8], ctx.peerNonce, ctx.nonce)
                               then Some(LinkKey(c, psk, local, src, secret)) else None)
                && (if r.key.Some? then ProvesNonces(r.send, ctx.nonce, ctx.peerNonce) else r.send.None?)
  {
    FindContextSpec(cs, src);
    FreeRetires(cs, src);
    var i := FindContext(cs, src);
    if |payload| >= 8 && i < |cs| && cs[i].state == REPLY_SENT {
      var proof := XorBytes(cs[i].peerNonce, cs[i].nonce);
      XorBytesBits(cs[i].peerNonce, cs[i].nonce);
      if IsXor(payload[..8], cs[i].peerNonce, cs[i].nonce) {
        XorUnique(payload[..8], proof, cs[i].peerNonce, cs[i].nonce);
      }
      XorProves(cs[i].nonce, cs[i].peerNonce);
    }
  }
}
