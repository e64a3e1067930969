/**
 Nodes exchanging handshake messages over a network that may lose, duplicate, delay and reorder
 them, but not forge them. Contexts may be evicted, overwritten or time out at any step, and the
 rest of a node may do anything to its peer table between two steps.
 */
module KeyExchange {
  import opened MeshTypes
  import opened Handshake
  import opened PeerMaps

  datatype Role = Initiator | Responder

  /** A key pair and nonce made by `owner` for an exchange with `other`. Each nonce is made once. */
  datatype Secret = Secret(owner: Mac, role: Role, other: Mac, priv: Bytes, nonce: Bytes)

  datatype Message = Message(src: Mac, dst: Mac, frame: Frame)

  /** `node` registered a link key for `peer`: its peer table before and after. */
  datatype Install = Install(node: Mac, peer: Mac, role: Role, key: Bytes, before: PeerMap, after: PeerMap)

  datatype World = World(
    crypto: Crypto,
    psk: map<Mac, Bytes>,
    contexts: map<Mac, Contexts>,
    peers: map<Mac, PeerMap>,
    made: set<Secret>,
    wire: set<Message>,
    log: seq<Install>)

  datatype Event =
    | Begin(x: Mac, peer: Mac, priv: Bytes, nonce: Bytes, now: uint32)
    | Receive(x: Mac, m: Message, priv: Bytes, nonce: Bytes, now: uint32, epoch: uint8, table: PeerMap)
    | Expire(x: Mac, now: uint32)
    | Other(x: Mac, table: PeerMap)   // whatever else x does to its peer table

  /* ----- Assumptions ----- */

  /** Public keys have 32 bytes, and Diffie-Hellman commutes. */
  ghost predicate DiffieHellman(c: Crypto)
  {
    && (forall a :: |c.pub(a)| == PUB_SIZE)
    && (forall a, b :: c.shared(a, c.pub(b)) == c.shared(b, c.pub(a)))
  }

  ghost predicate XorMatch(a: Secret, b: Secret, c: Secret, d: Secret)
  {
    |a.nonce| == |b.nonce| && |c.nonce| == |d.nonce| && XorBytes(a.nonce, b.nonce) == XorBytes(c.nonce, d.nonce)
  }

  /** Pairs of different nonces made in the run are determined by their XOR. */
  ghost predicate XorDeterminesPair(made: set<Secret>)
  {
    forall a, b, c, d ::
      a in made && b in made && c in made && d in made && a != b && c != d && XorMatch(a, b, c, d) ==>
      (a == c && b == d) || (a == d && b == c)
  }

  /* ----- Steps ----- */

  ghost predicate FreshNonce(w: World, nonce: Bytes)
  {
    |nonce| == NONCE_SIZE && forall s :: s in w.made ==> s.nonce != nonce
  }

  /** Frames carry the sender's network id; the receiver drops those of another network. */
  ghost predicate SameNetwork(w: World, x: Mac, y: Mac)
  {
    x in w.psk && y in w.psk && w.crypto.netId(w.psk[x]) == w.crypto.netId(w.psk[y])
  }

  ghost predicate Ready(w: World)
  {
    && w.psk.Keys == w.contexts.Keys == w.peers.Keys
    && (forall x :: x in w.contexts ==> SlotsValid(w.contexts[x]))
  }

  /** What x makes of a message. */
  ghost function Reacts(w: World, x: Mac, m: Message, priv: Bytes, nonce: Bytes, now: uint32): Reaction
    requires Ready(w) && x in w.contexts
  {
    match m.frame
    case Hello(payload) => OnHello(w.contexts[x], m.src, payload, priv, w.crypto.pub(priv), nonce, now)
    case Reply(payload) => OnReply(w.crypto, w.psk[x], x, w.contexts[x], m.src, payload)
    case Confirm(payload) => OnConfirm(w.crypto, w.psk[x], x, w.contexts[x], m.src, payload)
  }

  /** A derived key is registered the way addPeer and setLinkKey do it, with `table` the outcome. */
  ghost predicate Registers(w: World, x: Mac, other: Mac, key: Option<Bytes>, epoch: uint8, now: uint32, table: PeerMap)
    requires x in w.peers
  {
    key.Some? ==> RegisterStep(w.peers[x], table, other, key.value, epoch, now)
  }

  ghost predicate Enabled(w: World, ev: Event)
  {
    && Ready(w) && ev.x in w.contexts
    && match ev
       case Begin(x, peer, _, nonce, _) => peer in w.contexts && peer != x && FreshNonce(w, nonce)
       case Receive(x, m, priv, nonce, now, epoch, table) =>
         && m in w.wire && m.dst == x && m.src != x && SameNetwork(w, m.src, x)
         && (m.frame.Hello? ==> FreshNonce(w, nonce))
         && Registers(w, x, m.src, Reacts(w, x, m, priv, nonce, now).key, epoch, now, table)
       case Expire(_, _) => true
       case Other(_, _) => true
  }

  /** A derived key goes into the peer table and the log. */
  ghost function Register(w: World, x: Mac, other: Mac, role: Role, key: Option<Bytes>, table: PeerMap): World
    requires x in w.peers
  {
    if key.None? then w
    else w.(peers := w.peers[x := table], log := w.log + [Install(x, other, role, key.value, w.peers[x], table)])
  }

  /** What a node's reaction leaves behind: its contexts, what it made and what it sent. */
  ghost function React(w: World, x: Mac, other: Mac, r: Reaction, made: set<Secret>): World
  {
    w.(contexts := w.contexts[x := r.contexts],
       made := w.made + made,
       wire := if r.send.Some? then w.wire + {Message(x, other, r.send.value)} else w.wire)
  }

  function RoleOf(f: Frame): Role
  {
    if f.Reply? then Initiator else Responder
  }

  ghost function Step(w: World, ev: Event): World
    requires Enabled(w, ev)
  {
    match ev
    case Begin(x, peer, priv, nonce, now) =>
      var r := Initiate(w.contexts[x], peer, priv, w.crypto.pub(priv), nonce, now);
      React(w, x, peer, r, if r.send.Some? then {Secret(x, Initiator, peer, priv, nonce)} else {})
    case Receive(x, m, priv, nonce, now, _, table) =>
      var r := Reacts(w, x, m, priv, nonce, now);
      var made := if m.frame.Hello? && r.send.Some? then {Secret(x, Responder, m.src, priv, nonce)} else {};
      React(Register(w, x, m.src, RoleOf(m.frame), r.key, table), x, m.src, r, made)
    case Expire(x, now) => w.(contexts := w.contexts[x := DropStale(w.contexts[x], now)])
    case Other(x, table) => w.(peers := w.peers[x := table])
  }

  /* ----- Invariant ----- */

  /** `owner` made a secret for `other` and offered its public half. */
  ghost predicate Offered(w: World, owner: Mac, role: Role, other: Mac, priv: Bytes, pub: Bytes, nonce: Bytes)
  {
    Secret(owner, role, other, priv, nonce) in w.made && pub == w.crypto.pub(priv)
  }

  /** A live context remembers a secret its node made, and a responder's also the HELLO it answers. */
  ghost predicate ContextSound(w: World, x: Mac, ctx: Context)
  {
    match ctx.state
    case IDLE => true
    case CONFIRMED => false
    case HELLO_SENT => Secret(x, Initiator, ctx.peerMac, ctx.localPriv, ctx.nonce) in w.made
    case REPLY_SENT =>
      && Secret(x, Responder, ctx.peerMac, ctx.localPriv, ctx.nonce) in w.made
      && exists priv :: Offered(w, ctx.peerMac, Initiator, x, priv, ctx.peerPub, ctx.peerNonce)
  }

  /** s is the shared secret of an exchange of `node` with `peer`: a is what node made for it, b what peer made. */
  ghost predicate SecretOf(w: World, node: Mac, peer: Mac, role: Role, a: Secret, b: Secret, s: Bytes)
  {
    && a in w.made && b in w.made
    && a.owner == node && a.other == peer && a.role == role
    && b.owner == peer && b.other == node && b.role != role
    && w.crypto.shared(a.priv, w.crypto.pub(b.priv)) == Some(s)
  }

  /** An entry registers the link key of an exchange of the two nodes, through their network, in the peer table. */
  ghost predicate EntrySound(w: World, e: Install)
  {
    && SameNetwork(w, e.node, e.peer)
    && (exists a, b, s :: SecretOf(w, e.node, e.peer, e.role, a, b, s)
                          && e.key == LinkKey(w.crypto, w.psk[e.node], e.node, e.peer, s))
    && (exists epoch, now :: RegisterStep(e.before, e.after, e.peer, e.key, epoch, now))
  }

  ghost predicate IsEntry(e: Install, node: Mac, peer: Mac, role: Role, key: Bytes)
  {
    e.node == node && e.peer == peer && e.role == role && e.key == key
  }

  ghost predicate IsInitiatorEntry(w: World, e: Install, a: Secret, s: Bytes)
    requires a.owner in w.psk
  {
    IsEntry(e, a.owner, a.other, Initiator, LinkKey(w.crypto, w.psk[a.owner], a.owner, a.other, s))
  }

  /** The initiator of secrets a and b has derived and registered its key. */
  ghost predicate InitiatorDone(w: World, a: Secret, b: Secret)
    requires a.owner in w.psk
  {
    var s := w.crypto.shared(a.priv, w.crypto.pub(b.priv));
    s.Some? && exists e :: e in w.log && IsInitiatorEntry(w, e, a, s.value)
  }

  /**
   A CONFIRM is the XOR of the two nonces of one exchange, sent by the initiator when done or echoed
   by the responder.
   */
  ghost predicate ConfirmOf(w: World, m: Message, payload: Bytes, a: Secret, b: Secret)
  {
    && a in w.made && b in w.made && |a.nonce| == |b.nonce|
    && a.owner == m.src && a.other == m.dst && b.owner == m.dst && b.other == m.src && m.src in w.psk
    && payload == XorBytes(a.nonce, b.nonce)
    && ((a.role == Initiator && b.role == Responder && InitiatorDone(w, a, b))
        || (a.role == Responder && b.role == Initiator))
  }

  ghost predicate MessageSound(w: World, m: Message)
  {
    match m.frame
    case Hello(payload) =>
      |payload| == 40 && exists priv :: Offered(w, m.src, Initiator, m.dst, priv, payload[..32], payload[32..])
    case Reply(payload) =>
      |payload| == 40 && exists priv :: Offered(w, m.src, Responder, m.dst, priv, payload[..32], payload[32..])
    case Confirm(payload) => |payload| == NONCE_SIZE && exists a, b :: ConfirmOf(w, m, payload, a, b)
  }

  ghost predicate NodeSound(w: World, x: Mac, cs: Contexts)
  {
    forall i :: 0 <= i < |cs| ==> ContextSound(w, x, cs[i])
  }

  ghost predicate SecretsDistinct(made: set<Secret>)
  {
    && (forall s :: s in made ==> |s.nonce| == NONCE_SIZE && s.owner != s.other)
    && (forall s, t :: s in made && t in made && s.nonce == t.nonce ==> s == t)
  }

  ghost predicate Inv(w: World)
  {
    && Ready(w) && DiffieHellman(w.crypto) && SecretsDistinct(w.made)
    && (forall x :: x in w.contexts ==> NodeSound(w, x, w.contexts[x]))
    && (forall m :: m in w.wire ==> m.src in w.psk && MessageSound(w, m))
    && (forall e :: e in w.log ==> EntrySound(w, e))
  }

  /* ----- Growing worlds ----- */

  ghost predicate Grows(w: World, v: World)
  {
    && v.crypto == w.crypto && v.psk == w.psk && w.made <= v.made && w.log <= v.log
  }

  lemma InitiatorStaysDone(w: World, v: World, a: Secret, b: Secret)
    requires Grows(w, v) && a.owner in w.psk && InitiatorDone(w, a, b)
    ensures InitiatorDone(v, a, b)
  {
    var s := w.crypto.shared(a.priv, w.crypto.pub(b.priv)).value;
    var e :| e in w.log && IsInitiatorEntry(w, e, a, s);
    assert e in v.log && IsInitiatorEntry(v, e, a, s);
  }

  lemma MessageStaysSound(w: World, v: World, m: Message)
    requires Grows(w, v) && MessageSound(w, m)
    ensures MessageSound(v, m)
  {
    match m.frame
    case Hello(payload) =>
      var priv :| Offered(w, m.src, Initiator, m.dst, priv, payload[..32], payload[32..]);
      assert Offered(v, m.src, Initiator, m.dst, priv, payload[..32], payload[32..]);
    case Reply(payload) =>
      var priv :| Offered(w, m.src, Responder, m.dst, priv, payload[..32], payload[32..]);
      assert Offered(v, m.src, Responder, m.dst, priv, payload[..32], payload[32..]);
    case Confirm(payload) =>
      var a, b :| ConfirmOf(w, m, payload, a, b);
      if InitiatorDone(w, a, b) { InitiatorStaysDone(w, v, a, b); }
      assert ConfirmOf(v, m, payload, a, b);
  }

  lemma ContextStaysSound(w: World, v: World, x: Mac, ctx: Context)
    requires Grows(w, v) && ContextSound(w, x, ctx)
    ensures ContextSound(v, x, ctx)
  {
    if ctx.state == REPLY_SENT {
      var priv :| Offered(w, ctx.peerMac, Initiator, x, priv, ctx.peerPub, ctx.peerNonce);
      assert Offered(v, ctx.peerMac, Initiator, x, priv, ctx.peerPub, ctx.peerNonce);
    }
  }

  lemma EntryStaysSound(w: World, v: World, e: Install)
    requires Grows(w, v) && EntrySound(w, e)
    ensures EntrySound(v, e)
  {
    var a, b, s :| SecretOf(w, e.node, e.peer, e.role, a, b, s)
                   && e.key == LinkKey(w.crypto, w.psk[e.node], e.node, e.peer, s);
    assert SecretOf(v, e.node, e.peer, e.role, a, b, s);
  }

  /** Contexts that are live after a step and unchanged by it stay sound. */
  lemma NodeStaysSound(w: World, v: World, x: Mac, cs: Contexts, s: nat)
    requires Grows(w, v) && x in w.contexts && NodeSound(w, x, w.contexts[x]) && |cs| == |w.contexts[x]|
    requires forall i :: 0 <= i < |cs| && i != s && cs[i].state != IDLE ==> cs[i] == w.contexts[x][i]
    requires s < |cs| ==> ContextSound(v, x, cs[s])
    ensures NodeSound(v, x, cs)
  {
    forall i | 0 <= i < |cs|
      ensures ContextSound(v, x, cs[i])
    {
      if i != s && cs[i].state != IDLE { ContextStaysSound(w, v, x, cs[i]); }
    }
  }

  lemma NodeGrows(w: World, v: World, x: Mac, cs: Contexts)
    requires Grows(w, v) && NodeSound(w, x, cs)
    ensures NodeSound(v, x, cs)
  {
    forall i | 0 <= i < |cs|
      ensures ContextSound(v, x, cs[i])
    {
      ContextStaysSound(w, v, x, cs[i]);
    }
  }

  lemma NodesStaySound(w: World, v: World, x: Mac, cs: Contexts)
    requires Inv(w) && x in w.contexts && Grows(w, v)
    requires v.contexts == w.contexts[x := cs] && NodeSound(v, x, cs)
    ensures forall y :: y in v.contexts ==> NodeSound(v, y, v.contexts[y])
  {
    forall y | y in v.contexts
      ensures NodeSound(v, y, v.contexts[y])
    {
      if y != x { NodeGrows(w, v, y, v.contexts[y]); }
    }
  }

  /** The invariant survives a step if the acting node's contexts and its new message are sound. */
  lemma StepFrame(w: World, v: World, x: Mac, cs: Contexts, made: set<Secret>, sent: set<Message>)
    requires Inv(w) && x in w.contexts && SecretsDistinct(w.made + made)
    requires v == w.(contexts := w.contexts[x := cs], made := w.made + made, wire := w.wire + sent)
    requires SlotsValid(cs) && NodeSound(v, x, cs)
    requires forall m :: m in sent ==> m.src == x && MessageSound(v, m)
    ensures Inv(v)
  {
    NodesStaySound(w, v, x, cs);
    forall m | m in v.wire
      ensures m.src in v.psk && MessageSound(v, m)
    {
      if m in w.wire { MessageStaysSound(w, v, m); }
    }
    forall e | e in v.log
      ensures EntrySound(v, e)
    {
      EntryStaysSound(w, v, e);
    }
  }

  /** The invariant survives any change of a peer table, and new sound entries. */
  lemma RegisterFrame(w: World, v: World, x: Mac, table: PeerMap, entries: seq<Install>)
    requires Inv(w) && x in w.peers && forall e :: e in entries ==> EntrySound(w, e)
    requires v == w.(peers := w.peers[x := table], log := w.log + entries)
    ensures Inv(v) && Grows(w, v)
  {
    forall x | x in v.contexts
      ensures NodeSound(v, x, v.contexts[x])
    {
      NodeGrows(w, v, x, v.contexts[x]);
    }
    forall m | m in v.wire
      ensures MessageSound(v, m)
    {
      MessageStaysSound(w, v, m);
    }
    forall f | f in v.log
      ensures EntrySound(v, f)
    {
      EntryStaysSound(w, v, f);
    }
  }

  lemma FreshStaysDistinct(w: World, s: Secret)
    requires SecretsDistinct(w.made) && FreshNonce(w, s.nonce) && s.owner != s.other
    ensures SecretsDistinct(w.made + {s})
  {
  }

  /* ----- The steps keep the invariant ----- */

  /** New contexts alone. */
  lemma ContextsKeep(w: World, v: World, x: Mac, cs: Contexts)
    requires Inv(w) && x in w.contexts && v == w.(contexts := w.contexts[x := cs])
    requires SlotsValid(cs) && NodeSound(w, x, cs)
    ensures Inv(v)
  {
    assert w.made + {} == w.made && w.wire + {} == w.wire;
    NodeGrows(w, v, x, cs);
    StepFrame(w, v, x, cs, {}, {});
  }

  /** New contexts, and an answer. */
  lemma AnswerKeeps(w: World, v: World, x: Mac, cs: Contexts, m: Message)
    requires Inv(w) && x in w.contexts && v == w.(contexts := w.contexts[x := cs], wire := w.wire + {m})
    requires SlotsValid(cs) && NodeSound(w, x, cs) && m.src == x && MessageSound(w, m)
    ensures Inv(v)
  {
    assert w.made + {} == w.made;
    MessageStaysSound(w, v, m);
    NodeGrows(w, v, x, cs);
    StepFrame(w, v, x, cs, {}, {m});
  }

  /** The rest of a step that may have registered a key: new contexts, and perhaps a CONFIRM. */
  lemma ReactKeeps(w: World, v: World, x: Mac, other: Mac, r: Reaction)
    requires Inv(w) && x in w.contexts && v == React(w, x, other, r, {})
    requires SlotsValid(r.contexts) && NodeSound(w, x, r.contexts)
    requires r.send.Some? ==> MessageSound(w, Message(x, other, r.send.value))
    ensures Inv(v)
  {
    assert w.made + {} == w.made;
    if r.send.Some? {
      AnswerKeeps(w, v, x, r.contexts, Message(x, other, r.send.value));
    } else {
      ContextsKeep(w, v, x, r.contexts);
    }
  }

  lemma HelloSound(v: World, x: Mac, other: Mac, priv: Bytes, nonce: Bytes)
    requires Secret(x, Initiator, other, priv, nonce) in v.made
    requires |v.crypto.pub(priv)| == PUB_SIZE && |nonce| == NONCE_SIZE
    ensures MessageSound(v, Message(x, other, Hello(v.crypto.pub(priv) + nonce)))
  {
    var pub := v.crypto.pub(priv);
    assert (pub + nonce)[..32] == pub && (pub + nonce)[32..] == nonce;
    assert Offered(v, x, Initiator, other, priv, pub, nonce);
  }

  lemma BeginKeeps(w: World, ev: Event)
    requires Inv(w) && Enabled(w, ev) && ev.Begin?
    ensures Inv(Step(w, ev))
  {
    var Begin(x, peer, priv, nonce, now) := ev;
    var cs, pub := w.contexts[x], w.crypto.pub(priv);
    var r := Initiate(cs, peer, priv, pub, nonce, now);
    var v := Step(w, ev);
    if r.send.Some? {
      InitiateKeeps(cs, peer, priv, pub, nonce, now);
      HelloSound(v, x, peer, priv, nonce);
      FreshStaysDistinct(w, Secret(x, Initiator, peer, priv, nonce));
      NodeStaysSound(w, v, x, r.contexts, SlotFor(cs, peer));
      StepFrame(w, v, x, r.contexts, {Secret(x, Initiator, peer, priv, nonce)}, {Message(x, peer, r.send.value)});
    } else {
      ReactKeeps(w, v, x, peer, r);
    }
  }

  /** The context that answers a HELLO remembers it. */
  lemma HelloRemembered(w: World, x: Mac, m: Message, payload: Bytes, v: World, ctx: Context, priv: Bytes)
    requires MessageSound(w, m) && m.frame == Hello(payload) && m.dst == x && Grows(w, v)
    requires Secret(x, Responder, m.src, priv, ctx.nonce) in v.made
    requires ctx.state == REPLY_SENT && ctx.peerMac == m.src && ctx.localPriv == priv
    requires ctx.peerPub == payload[..32] && ctx.peerNonce == payload[32..40]
    ensures ContextSound(v, x, ctx)
  {
    var q :| Offered(w, m.src, Initiator, x, q, payload[..32], payload[32..]);
    assert payload[32..40] == payload[32..];
    assert Offered(v, m.src, Initiator, x, q, ctx.peerPub, ctx.peerNonce);
  }

  lemma ReplySound(v: World, x: Mac, other: Mac, priv: Bytes, nonce: Bytes)
    requires Secret(x, Responder, other, priv, nonce) in v.made
    requires |v.crypto.pub(priv)| == PUB_SIZE && |nonce| == NONCE_SIZE
    ensures MessageSound(v, Message(x, other, Reply(v.crypto.pub(priv) + nonce)))
  {
    var pub := v.crypto.pub(priv);
    assert (pub + nonce)[..32] == pub && (pub + nonce)[32..] == nonce;
    assert Offered(v, x, Responder, other, priv, pub, nonce);
  }

  lemma HelloContexts(w: World, v: World, x: Mac, m: Message, payload: Bytes, priv: Bytes, nonce: Bytes, now: uint32,
                      r: Reaction)
    requires Inv(w) && x in w.contexts && m.dst == x && m.frame == Hello(payload) && MessageSound(w, m)
    requires |nonce| == NONCE_SIZE && r == OnHello(w.contexts[x], m.src, payload, priv, w.crypto.pub(priv), nonce, now)
    requires Grows(w, v) && Secret(x, Responder, m.src, priv, nonce) in v.made
    ensures SlotsValid(r.contexts) && NodeSound(v, x, r.contexts)
    ensures r.key.None? && r.send == Some(Reply(w.crypto.pub(priv) + nonce))
  {
    var cs, pub := w.contexts[x], w.crypto.pub(priv);
    OnHelloKeeps(cs, m.src, payload, priv, pub, nonce, now);
    var s := SlotFor(cs, m.src);
    FindContextSpec(cs, m.src);
    HelloRemembered(w, x, m, payload, v, r.contexts[s], priv);
    NodeStaysSound(w, v, x, r.contexts, s);
  }

  lemma HelloKeeps(w: World, v: World, x: Mac, m: Message, priv: Bytes, nonce: Bytes, r: Reaction)
    requires Inv(w) && x in w.contexts && m.src != x && FreshNonce(w, nonce)
    requires r.key.None? && r.send == Some(Reply(w.crypto.pub(priv) + nonce))
    requires v == React(w, x, m.src, r, {Secret(x, Responder, m.src, priv, nonce)})
    requires SlotsValid(r.contexts) && NodeSound(v, x, r.contexts)
    ensures Inv(v)
  {
    ReplySound(v, x, m.src, priv, nonce);
    FreshStaysDistinct(w, Secret(x, Responder, m.src, priv, nonce));
    StepFrame(w, v, x, r.contexts, {Secret(x, Responder, m.src, priv, nonce)}, {Message(x, m.src, r.send.value)});
  }

  /** A REPLY that is acted on belongs to an exchange that x began and the sender answered. */
  lemma ReplyExchange(w: World, x: Mac, m: Message, r: Reaction) returns (a: Secret, b: Secret, s: Bytes)
    requires Inv(w) && x in w.contexts && m in w.wire && m.dst == x && m.frame.Reply?
    requires r == OnReply(w.crypto, w.psk[x], x, w.contexts[x], m.src, m.frame.payload) && r.key.Some?
    ensures SecretOf(w, x, m.src, Initiator, a, b, s)
    ensures r.key == Some(LinkKey(w.crypto, w.psk[x], x, m.src, s))
    ensures |a.nonce| == |b.nonce| && r.send == Some(Confirm(XorBytes(a.nonce, b.nonce)))
  {
    var cs, payload := w.contexts[x], m.frame.payload;
    FindContextSpec(cs, m.src);
    var i := FindContext(cs, m.src);
    assert ContextSound(w, x, cs[i]);
    var q :| Offered(w, m.src, Responder, x, q, payload[..32], payload[32..]);
    assert payload[32..40] == payload[32..];
    a := Secret(x, Initiator, m.src, cs[i].localPriv, cs[i].nonce);
    b := Secret(m.src, Responder, x, q, payload[32..]);
    s := w.crypto.shared(cs[i].localPriv, payload[..32]).value;
  }

  /** A CONFIRM that is acted on reaches an exchange that the sender began and x answered. */
  lemma ConfirmExchange(w: World, x: Mac, m: Message, r: Reaction) returns (mine: Secret, theirs: Secret, s: Bytes)
    requires Inv(w) && x in w.contexts && m in w.wire && m.dst == x && m.frame.Confirm?
    requires r == OnConfirm(w.crypto, w.psk[x], x, w.contexts[x], m.src, m.frame.payload) && r.key.Some?
    ensures SecretOf(w, x, m.src, Responder, mine, theirs, s)
    ensures r.key == Some(LinkKey(w.crypto, w.psk[x], x, m.src, s))
    ensures |mine.nonce| == |theirs.nonce| && r.send == Some(Confirm(XorBytes(mine.nonce, theirs.nonce)))
    ensures m.frame.payload == XorBytes(theirs.nonce, mine.nonce)
  {
    var cs, payload := w.contexts[x], m.frame.payload;
    FindContextSpec(cs, m.src);
    var i := FindContext(cs, m.src);
    assert ContextSound(w, x, cs[i]);
    var q :| Offered(w, m.src, Initiator, x, q, cs[i].peerPub, cs[i].peerNonce);
    assert MessageSound(w, m) && payload[..8] == payload;
    mine := Secret(x, Responder, m.src, cs[i].localPriv, cs[i].nonce);
    theirs := Secret(m.src, Initiator, x, q, cs[i].peerNonce);
    s := w.crypto.shared(cs[i].localPriv, cs[i].peerPub).value;
  }

  lemma NewEntryKeeps(w: World, u: World, x: Mac, other: Mac, role: Role, key: Bytes, a: Secret, b: Secret, s: Bytes,
                      epoch: uint8, now: uint32, table: PeerMap)
    requires Inv(w) && x in w.peers && SameNetwork(w, other, x) && SecretOf(w, x, other, role, a, b, s)
    requires key == LinkKey(w.crypto, w.psk[x], x, other, s)
    requires RegisterStep(w.peers[x], table, other, key, epoch, now)
    requires u == Register(w, x, other, role, Some(key), table)
    ensures Inv(u) && Grows(w, u) && Install(x, other, role, key, w.peers[x], table) in u.log
  {
    var e := Install(x, other, role, key, w.peers[x], table);
    assert u.log[|w.log|] == e;
    RegisterFrame(w, u, x, table, [e]);
  }

  /** The CONFIRM an initiator sends is backed by its entry. */
  lemma ConfirmSound(w: World, v: World, x: Mac, other: Mac, key: Bytes, before: PeerMap, after: PeerMap,
                     a: Secret, b: Secret, s: Bytes)
    requires x in w.psk && Grows(w, v) && SecretOf(w, x, other, Initiator, a, b, s)
    requires |a.nonce| == |b.nonce| == NONCE_SIZE
    requires key == LinkKey(w.crypto, w.psk[x], x, other, s)
    requires Install(x, other, Initiator, key, before, after) in v.log
    ensures MessageSound(v, Message(x, other, Confirm(XorBytes(a.nonce, b.nonce))))
  {
    assert IsInitiatorEntry(v, Install(x, other, Initiator, key, before, after), a, s);
    assert ConfirmOf(v, Message(x, other, Confirm(XorBytes(a.nonce, b.nonce))), XorBytes(a.nonce, b.nonce), a, b);
  }

  lemma EchoSound(w: World, v: World, x: Mac, other: Mac, a: Secret, b: Secret, s: Bytes)
    requires x in w.psk && Grows(w, v) && SecretOf(w, x, other, Responder, a, b, s)
    requires |a.nonce| == |b.nonce| == NONCE_SIZE
    ensures MessageSound(v, Message(x, other, Confirm(XorBytes(a.nonce, b.nonce))))
  {
    assert ConfirmOf(v, Message(x, other, Confirm(XorBytes(a.nonce, b.nonce))), XorBytes(a.nonce, b.nonce), a, b);
  }

  lemma ReplyKeeps(w: World, v: World, x: Mac, m: Message, r: Reaction, epoch: uint8, now: uint32, table: PeerMap)
    requires Inv(w) && x in w.contexts && m in w.wire && m.dst == x && m.frame.Reply? && SameNetwork(w, m.src, x)
    requires r == OnReply(w.crypto, w.psk[x], x, w.contexts[x], m.src, m.frame.payload)
    requires Registers(w, x, m.src, r.key, epoch, now, table)
    requires v == React(Register(w, x, m.src, Initiator, r.key, table), x, m.src, r, {})
    ensures Inv(v)
  {
    var u := Register(w, x, m.src, Initiator, r.key, table);
    OnReplyKeeps(w.crypto, w.psk[x], x, w.contexts[x], m.src, m.frame.payload);
    if r.key.Some? { ReplyRegisters(w, u, x, m, r, epoch, now, table); }
    NodeStaysSound(w, u, x, r.contexts, |r.contexts|);
    ReactKeeps(u, v, x, m.src, r);
  }

  lemma ReplyRegisters(w: World, u: World, x: Mac, m: Message, r: Reaction, epoch: uint8, now: uint32, table: PeerMap)
    requires Inv(w) && x in w.contexts && m in w.wire && m.dst == x && m.frame.Reply? && SameNetwork(w, m.src, x)
    requires r == OnReply(w.crypto, w.psk[x], x, w.contexts[x], m.src, m.frame.payload) && r.key.Some?
    requires Registers(w, x, m.src, r.key, epoch, now, table)
    requires u == Register(w, x, m.src, Initiator, r.key, table)
    ensures Inv(u) && r.send.Some? && MessageSound(u, Message(x, m.src, r.send.value))
  {
    var a, b, s := ReplyExchange(w, x, m, r);
    NewEntryKeeps(w, u, x, m.src, Initiator, r.key.value, a, b, s, epoch, now, table);
    ConfirmSound(w, u, x, m.src, r.key.value, w.peers[x], table, a, b, s);
  }

  lemma ConfirmRegisters(w: World, u: World, x: Mac, m: Message, r: Reaction, epoch: uint8, now: uint32, table: PeerMap)
    requires Inv(w) && x in w.contexts && m in w.wire && m.dst == x && m.frame.Confirm? && SameNetwork(w, m.src, x)
    requires r == OnConfirm(w.crypto, w.psk[x], x, w.contexts[x], m.src, m.frame.payload) && r.key.Some?
    requires Registers(w, x, m.src, r.key, epoch, now, table)
    requires u == Register(w, x, m.src, Responder, r.key, table)
    ensures Inv(u) && r.send.Some? && MessageSound(u, Message(x, m.src, r.send.value))
  {
    var mine, theirs, s := ConfirmExchange(w, x, m, r);
    NewEntryKeeps(w, u, x, m.src, Responder, r.key.value, mine, theirs, s, epoch, now, table);
    EchoSound(w, u, x, m.src, mine, theirs, s);
  }

  lemma ConfirmKeeps(w: World, v: World, x: Mac, m: Message, r: Reaction, epoch: uint8, now: uint32, table: PeerMap)
    requires Inv(w) && x in w.contexts && m in w.wire && m.dst == x && m.frame.Confirm? && SameNetwork(w, m.src, x)
    requires r == OnConfirm(w.crypto, w.psk[x], x, w.contexts[x], m.src, m.frame.payload)
    requires Registers(w, x, m.src, r.key, epoch, now, table)
    requires v == React(Register(w, x, m.src, Responder, r.key, table), x, m.src, r, {})
    ensures Inv(v)
  {
    var u := Register(w, x, m.src, Responder, r.key, table);
    OnConfirmKeeps(w.crypto, w.psk[x], x, w.contexts[x], m.src, m.frame.payload);
    if r.key.Some? { ConfirmRegisters(w, u, x, m, r, epoch, now, table); }
    NodeStaysSound(w, u, x, r.contexts, |r.contexts|);
    ReactKeeps(u, v, x, m.src, r);
  }

  lemma ExpireKeeps(w: World, x: Mac, now: uint32)
    requires Inv(w) && x in w.contexts
    ensures Inv(Step(w, Expire(x, now)))
  {
    var cs := DropStale(w.contexts[x], now);
    NodeStaysSound(w, w, x, cs, |cs|);
    ContextsKeep(w, Step(w, Expire(x, now)), x, cs);
  }

  lemma OtherKeeps(w: World, x: Mac, table: PeerMap)
    requires Inv(w) && x in w.contexts
    ensures Inv(Step(w, Other(x, table)))
  {
    RegisterFrame(w, Step(w, Other(x, table)), x, table, []);
  }

  lemma ReceiveKeeps(w: World, ev: Event)
    requires Inv(w) && Enabled(w, ev) && ev.Receive?
    ensures Inv(Step(w, ev))
  {
    var r := Reacts(w, ev.x, ev.m, ev.priv, ev.nonce, ev.now);
    var v := Step(w, ev);
    match ev.m.frame
    case Hello(payload) =>
      assert MessageSound(w, ev.m);
      HelloContexts(w, v, ev.x, ev.m, payload, ev.priv, ev.nonce, ev.now, r);
      HelloKeeps(w, v, ev.x, ev.m, ev.priv, ev.nonce, r);
    case Reply(_) => ReplyKeeps(w, v, ev.x, ev.m, r, ev.epoch, ev.now, ev.table);
    case Confirm(_) => ConfirmKeeps(w, v, ev.x, ev.m, r, ev.epoch, ev.now, ev.table);
  }

  lemma StepGrows(w: World, ev: Event)
    requires Enabled(w, ev)
    ensures Grows(w, Step(w, ev))
  {
  }

  lemma StepKeeps(w: World, ev: Event)
    requires Inv(w) && Enabled(w, ev)
    ensures Inv(Step(w, ev)) && Grows(w, Step(w, ev))
  {
    StepGrows(w, ev);
    match ev
    case Begin(_, _, _, _, _) => BeginKeeps(w, ev);
    case Receive(_, _, _, _, _, _, _) => ReceiveKeeps(w, ev);
    case Expire(x, now) => ExpireKeeps(w, x, now);
    case Other(x, table) => OtherKeeps(w, x, table);
  }

  /* ----- Runs ----- */

  /** Steps that are not enabled are no steps. */
  ghost function Next(w: World, ev: Event): World
  {
    if Enabled(w, ev) then Step(w, ev) else w
  }

  ghost function Run(w: World, evs: seq<Event>): World
  {
    if |evs| == 0 then w else Next(Run(w, evs[..|evs| - 1]), evs[|evs| - 1])
  }

  lemma NextKeeps(w: World, ev: Event)
    requires Inv(w)
    ensures Inv(Next(w, ev)) && Grows(w, Next(w, ev))
  {
    if Enabled(w, ev) { StepKeeps(w, ev); }
  }

  lemma {:induction false} RunKeeps(w: World, evs: seq<Event>)
    requires Inv(w)
    ensures Inv(Run(w, evs)) && Grows(w, Run(w, evs))
  {
    if |evs| > 0 {
      RunKeeps(w, evs[..|evs| - 1]);
      NextKeeps(Run(w, evs[..|evs| - 1]), evs[|evs| - 1]);
    }
  }

  /** All nodes off: no contexts, no messages, no peers, nothing registered. */
  ghost predicate Boot(w: World)
  {
    && w.psk.Keys == w.contexts.Keys == w.peers.Keys && DiffieHellman(w.crypto)
    && w.made == {} && w.wire == {} && w.log == []
    && (forall x :: x in w.peers ==> w.peers[x] == map[])
    && (forall x :: x in w.contexts ==>
          |w.contexts[x]| == MAX_HANDSHAKES && forall i :: 0 <= i < MAX_HANDSHAKES ==> w.contexts[x][i] == NO_CONTEXT)
  }

  lemma BootInv(w: World)
    requires Boot(w)
    ensures Inv(w)
  {
  }

  /** In every run from boot the invariant holds. */
  lemma RunFromBoot(w: World, evs: seq<Event>)
    requires Boot(w)
    ensures Inv(Run(w, evs)) && Grows(w, Run(w, evs))
  {
    BootInv(w);
    RunKeeps(w, evs);
  }
}
