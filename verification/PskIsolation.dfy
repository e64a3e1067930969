/**
 Which networks agree on their keys in every run. The CONFIRM check does not look at the derived
 keys, so nodes with different pre-shared keys are kept apart by their network ids alone: an
 exchange that nothing disturbs goes through between any two nodes that hear each other.
 */
module PskIsolation {
  import opened MeshTypes
  import opened Handshake
  import opened PeerMaps
  import opened KeyExchange
  import opened KeyAgreement

  /* ----- An exchange that nothing disturbs ----- */

  /** Initiator a, responder r, what they draw at random, and what becomes of their peer tables. */
  datatype Plan = Plan(
    a: Mac, r: Mac, privA: Bytes, nonceA: Bytes, privR: Bytes, nonceR: Bytes, secret: Bytes,
    now: uint32, epoch: uint8, tableA: PeerMap, tableR: PeerMap)
  {
    function HelloPayload(c: Crypto): Bytes { c.pub(privA) + nonceA }

    function ReplyPayload(c: Crypto): Bytes { c.pub(privR) + nonceR }

    function Proof(): Bytes
      requires |nonceA| == |nonceR|
    {
      XorBytes(nonceA, nonceR)
    }

    function KeyA(w: World): Bytes
      requires a in w.psk
    {
      LinkKey(w.crypto, w.psk[a], a, r, secret)
    }

    function KeyR(w: World): Bytes
      requires r in w.psk
    {
      LinkKey(w.crypto, w.psk[r], r, a, secret)
    }

    function Events(c: Crypto): (evs: seq<Event>)
      requires |nonceA| == |nonceR|
      ensures |evs| == 4
    {
      [Begin(a, r, privA, nonceA, now),
       Receive(r, Message(a, r, Hello(HelloPayload(c))), privR, nonceR, now, epoch, map[]),
       Receive(a, Message(r, a, Reply(ReplyPayload(c))), [], [], now, epoch, tableA),
       Receive(r, Message(a, r, Confirm(Proof())), [], [], now, epoch, tableR)]
    }

    ghost function EntryA(w: World): Install
      requires a in w.psk && a in w.peers
    {
      Install(a, r, Initiator, KeyA(w), w.peers[a], tableA)
    }

    ghost function EntryR(w: World): Install
      requires r in w.psk && r in w.peers
    {
      Install(r, a, Responder, KeyR(w), w.peers[r], tableR)
    }
  }

  /** Both sides are on one network, their nonces and public keys have their sizes, and they can compute the secret. */
  ghost predicate Compatible(w: World, p: Plan)
  {
    && Ready(w) && p.a in w.contexts && p.r in w.contexts && p.a != p.r && SameNetwork(w, p.a, p.r)
    && |p.nonceA| == |p.nonceR| == NONCE_SIZE
    && |w.crypto.pub(p.privA)| == |w.crypto.pub(p.privR)| == PUB_SIZE
    && w.crypto.shared(p.privA, w.crypto.pub(p.privR)) == Some(p.secret)
    && w.crypto.shared(p.privR, w.crypto.pub(p.privA)) == Some(p.secret)
  }

  /** v has the same nodes as w. */
  ghost predicate SameNodes(w: World, v: World)
  {
    Ready(v) && v.crypto == w.crypto && v.psk == w.psk
  }

  ghost predicate HelloOut(w: World, p: Plan, v: World)
  {
    && SameNodes(w, v) && v.log == w.log && v.peers == w.peers && p.a in v.contexts
    && v.made == w.made + {Secret(p.a, Initiator, p.r, p.privA, p.nonceA)}
    && Message(p.a, p.r, Hello(p.HelloPayload(w.crypto))) in v.wire
    && Waiting(v.contexts[p.a], p.r, HELLO_SENT, p.privA, p.nonceA)
  }

  ghost predicate ReplyOut(w: World, p: Plan, v: World)
  {
    && SameNodes(w, v) && v.log == w.log && v.peers == w.peers && p.a in v.contexts && p.r in v.contexts
    && v.made == w.made + {Secret(p.a, Initiator, p.r, p.privA, p.nonceA)}
                        + {Secret(p.r, Responder, p.a, p.privR, p.nonceR)}
    && Message(p.r, p.a, Reply(p.ReplyPayload(w.crypto))) in v.wire
    && Waiting(v.contexts[p.a], p.r, HELLO_SENT, p.privA, p.nonceA)
    && Answering(v.contexts[p.r], p.a, p.privR, p.nonceR, w.crypto.pub(p.privA), p.nonceA)
  }

  /** The initiator has its key; its CONFIRM is out. */
  ghost predicate ConfirmOut(w: World, p: Plan, v: World)
    requires Compatible(w, p)
  {
    SameNodes(w, v) && InitiatorLogged(w, p, v) && ConfirmSent(w, p, v)
  }

  ghost predicate InitiatorLogged(w: World, p: Plan, v: World)
    requires Compatible(w, p)
  {
    && v.made == w.made + {Secret(p.a, Initiator, p.r, p.privA, p.nonceA)}
                        + {Secret(p.r, Responder, p.a, p.privR, p.nonceR)}
    && v.log == w.log + [p.EntryA(w)] && v.peers == w.peers[p.a := p.tableA]
  }

  ghost predicate ConfirmSent(w: World, p: Plan, v: World)
    requires Compatible(w, p)
  {
    && Message(p.a, p.r, Confirm(p.Proof())) in v.wire && p.r in v.contexts
    && Answering(v.contexts[p.r], p.a, p.privR, p.nonceR, w.crypto.pub(p.privA), p.nonceA)
  }

  ghost predicate Done(w: World, p: Plan, v: World)
    requires Compatible(w, p)
  {
    && v.crypto == w.crypto && v.psk == w.psk
    && v.made == w.made + {Secret(p.a, Initiator, p.r, p.privA, p.nonceA)}
                        + {Secret(p.r, Responder, p.a, p.privR, p.nonceR)}
    && v.log == w.log + [p.EntryA(w)] + [p.EntryR(w)] && v.peers == w.peers[p.a := p.tableA][p.r := p.tableR]
  }

  lemma HelloSent(w: World, p: Plan)
    requires Compatible(w, p) && FreshNonce(w, p.nonceA) && FindContext(w.contexts[p.a], p.r) == MAX_HANDSHAKES
    ensures var v := Next(w, p.Events(w.crypto)[0]);
            Ready(v) ==> HelloOut(w, p, v)
  {
    InitiateWaits(w.contexts[p.a], p.r, p.privA, w.crypto.pub(p.privA), p.nonceA, p.now);
  }

  lemma HelloEnabled(w: World, p: Plan, v: World)
    requires Compatible(w, p) && FreshNonce(w, p.nonceR) && p.nonceA != p.nonceR && HelloOut(w, p, v)
    ensures Enabled(v, p.Events(w.crypto)[1])
  {
    assert FreshNonce(v, p.nonceR);
  }

  lemma HelloAnswered(w: World, p: Plan, v: World)
    requires Compatible(w, p) && HelloOut(w, p, v) && Enabled(v, p.Events(w.crypto)[1])
    ensures var u := Next(v, p.Events(w.crypto)[1]);
            Ready(u) ==> ReplyOut(w, p, u)
  {
    var c := w.crypto;
    HelloIsAnswered(v.contexts[p.r], p.a, c.pub(p.privA), p.nonceA, p.privR, c.pub(p.privR), p.nonceR, p.now);
  }

  lemma ReplyEnabled(w: World, p: Plan, v: World)
    requires Compatible(w, p) && ReplyOut(w, p, v)
    requires RegisterStep(w.peers[p.a], p.tableA, p.r, p.KeyA(w), p.epoch, p.now)
    ensures Enabled(v, p.Events(w.crypto)[2])
  {
    ReplyIsTaken(v.crypto, v.psk[p.a], p.a, v.contexts[p.a], p.r, p.privA, p.nonceA, v.crypto.pub(p.privR),
                 p.nonceR, p.secret);
  }

  lemma ReplyLogged(w: World, p: Plan, v: World)
    requires Compatible(w, p) && ReplyOut(w, p, v) && Enabled(v, p.Events(w.crypto)[2])
    ensures InitiatorLogged(w, p, Next(v, p.Events(w.crypto)[2]))
  {
    assert v.made + {} == v.made;
    ReplyIsTaken(v.crypto, v.psk[p.a], p.a, v.contexts[p.a], p.r, p.privA, p.nonceA, v.crypto.pub(p.privR),
                 p.nonceR, p.secret);
  }

  lemma ReplyConfirmed(w: World, p: Plan, v: World)
    requires Compatible(w, p) && ReplyOut(w, p, v) && Enabled(v, p.Events(w.crypto)[2])
    ensures ConfirmSent(w, p, Next(v, p.Events(w.crypto)[2]))
  {
    ReplyIsTaken(v.crypto, v.psk[p.a], p.a, v.contexts[p.a], p.r, p.privA, p.nonceA, v.crypto.pub(p.privR),
                 p.nonceR, p.secret);
  }

  lemma ConfirmEnabled(w: World, p: Plan, v: World)
    requires Compatible(w, p) && ConfirmOut(w, p, v)
    requires RegisterStep(w.peers[p.r], p.tableR, p.a, p.KeyR(w), p.epoch, p.now)
    ensures Enabled(v, p.Events(w.crypto)[3])
  {
    ConfirmIsTaken(v.crypto, v.psk[p.r], p.r, v.contexts[p.r], p.a, p.privR, p.nonceR, v.crypto.pub(p.privA),
                   p.nonceA, p.secret);
  }

  lemma ConfirmAccepted(w: World, p: Plan, v: World)
    requires Compatible(w, p) && ConfirmOut(w, p, v) && Enabled(v, p.Events(w.crypto)[3])
    ensures Done(w, p, Next(v, p.Events(w.crypto)[3]))
  {
    assert v.made + {} == v.made;
    ConfirmIsTaken(v.crypto, v.psk[p.r], p.r, v.contexts[p.r], p.a, p.privR, p.nonceR, v.crypto.pub(p.privA),
                   p.nonceA, p.secret);
  }

  /** The plan can be carried out from w: no exchange under way at a, and fresh nonces. */
  ghost predicate Feasible(w: World, p: Plan)
  {
    && Inv(w) && Compatible(w, p)
    && FindContext(w.contexts[p.a], p.r) == MAX_HANDSHAKES
    && FreshNonce(w, p.nonceA) && FreshNonce(w, p.nonceR) && p.nonceA != p.nonceR
  }

  /** The worlds after one, two, three and four events. */
  lemma RunOfFour(w: World, evs: seq<Event>, v1: World, v2: World, v3: World)
    requires |evs| == 4 && v1 == Next(w, evs[0]) && v2 == Next(v1, evs[1]) && v3 == Next(v2, evs[2])
    ensures Run(w, evs) == Next(v3, evs[3])
  {
    assert evs[..3][..2] == evs[..2] && evs[..2][..1] == evs[..1] && evs[..1][..0] == [];
    assert Run(w, evs[..1]) == v1;
    assert Run(w, evs[..2]) == v2;
    assert Run(w, evs[..3]) == v3;
  }

  lemma NextReady(w: World, ev: Event)
    requires Inv(w)
    ensures Inv(Next(w, ev)) && Ready(Next(w, ev))
  {
    NextKeeps(w, ev);
  }

  lemma NextGrows(w: World, ev: Event)
    ensures Grows(w, Next(w, ev))
  {
    if Enabled(w, ev) { StepGrows(w, ev); }
  }

  lemma AfterExchange(w: World, p: Plan)
    requires Feasible(w, p)
    requires RegisterStep(w.peers[p.a], p.tableA, p.r, p.KeyA(w), p.epoch, p.now)
    requires RegisterStep(w.peers[p.r], p.tableR, p.a, p.KeyR(w), p.epoch, p.now)
    ensures Done(w, p, Run(w, p.Events(w.crypto)))
  {
    var evs := p.Events(w.crypto);
    var v1 := Next(w, evs[0]);
    var v2 := Next(v1, evs[1]);
    var v3 := Next(v2, evs[2]);
    HelloSent(w, p);
    NextReady(w, evs[0]);
    HelloEnabled(w, p, v1);
    HelloAnswered(w, p, v1);
    NextReady(v1, evs[1]);
    ReplyEnabled(w, p, v2);
    ReplyLogged(w, p, v2);
    ReplyConfirmed(w, p, v2);
    NextReady(v2, evs[2]);
    NextGrows(v2, evs[2]);
    ConfirmEnabled(w, p, v3);
    ConfirmAccepted(w, p, v3);
    RunOfFour(w, evs, v1, v2, v3);
  }

  /**
   An exchange that nothing disturbs ends with both sides having registered, in their peer
   tables, a key derived from the same secret, the initiator first.
   */
  lemma UndisturbedExchange(w: World, p: Plan)
    requires Feasible(w, p)
    requires RegisterStep(w.peers[p.a], p.tableA, p.r, p.KeyA(w), p.epoch, p.now)
    requires RegisterStep(w.peers[p.r], p.tableR, p.a, p.KeyR(w), p.epoch, p.now)
    ensures var v := Run(w, p.Events(w.crypto));
            && v.log == w.log + [p.EntryA(w), p.EntryR(w)]
            && p.a in v.peers && p.r in v.peers
            && (CanAdd(w.peers[p.a], p.r) ==> HoldsKey(v.peers[p.a], p.r, p.KeyA(w)))
            && (CanAdd(w.peers[p.r], p.a) ==> HoldsKey(v.peers[p.r], p.a, p.KeyR(w)))
            && (p.KeyA(w) == p.KeyR(w) <== w.psk[p.a] == w.psk[p.r])
  {
    AfterExchange(w, p);
    assert w.log + [p.EntryA(w)] + [p.EntryR(w)] == w.log + [p.EntryA(w), p.EntryR(w)];
    Registered(w.peers[p.a], p.tableA, p.r, p.KeyA(w), p.epoch, p.now);
    Registered(w.peers[p.r], p.tableR, p.a, p.KeyR(w), p.epoch, p.now);
    LinkKeySymmetric(w.crypto, w.psk[p.a], p.a, p.r, p.secret);
  }

  /* ----- Exactly when accepted CONFIRMs mean equal keys ----- */

  /** The link keys that this secret gives under the pre-shared keys of two nodes differ when those keys do. */
  ghost predicate TellsPsksApart(w: World, secret: Bytes)
  {
    forall x, y, a, b :: x in w.psk && y in w.psk && SameKey(w.crypto, secret, w.psk[x], secret, w.psk[y], a, b) ==>
      w.psk[x] == w.psk[y]
  }

  /**
   Two nodes with different pre-shared keys but one network id: the exchange goes through as
   with equal ones, the CONFIRM is accepted, and each registers a key the other does not have.
   */
  lemma WrongPskAccepted(w: World, p: Plan)
    requires Feasible(w, p) && w.psk[p.a] != w.psk[p.r] && TellsPsksApart(w, p.secret)
    requires RegisterStep(w.peers[p.a], p.tableA, p.r, p.KeyA(w), p.epoch, p.now)
    requires RegisterStep(w.peers[p.r], p.tableR, p.a, p.KeyR(w), p.epoch, p.now)
    requires CanAdd(w.peers[p.a], p.r) && CanAdd(w.peers[p.r], p.a)
    ensures var v := Run(w, p.Events(w.crypto));
            && v.log == w.log + [p.EntryA(w), p.EntryR(w)]
            && p.a in v.peers && HoldsKey(v.peers[p.a], p.r, p.KeyA(w))
            && p.r in v.peers && HoldsKey(v.peers[p.r], p.a, p.KeyR(w))
            && p.KeyA(w) != p.KeyR(w)
  {
    UndisturbedExchange(w, p);
    LinkKeySymmetric(w.crypto, w.psk[p.r], p.r, p.a, p.secret);
    var lo, hi := if MacLess(p.a, p.r) then p.a else p.r, if MacLess(p.a, p.r) then p.r else p.a;
    assert !SameKey(w.crypto, p.secret, w.psk[p.a], p.secret, w.psk[p.r], lo, hi);
  }

  /** Nodes that hear each other have the same pre-shared key. */
  ghost predicate Isolated(w: World)
  {
    forall x, y :: SameNetwork(w, x, y) ==> w.psk[x] == w.psk[y]
  }

  /** Every accepted CONFIRM of the run means equal keys. */
  ghost predicate AllAgree(v: World)
  {
    forall j :: 0 <= j < |v.log| && v.log[j].role == Responder ==> Agreed(v, j)
  }

  /** In every run from w whose nonces meet the assumption, accepted CONFIRMs mean equal keys. */
  ghost predicate AlwaysAgree(w: World)
  {
    forall evs :: XorDeterminesPair(Run(w, evs).made) ==> AllAgree(Run(w, evs))
  }

  lemma IsolatedAgree(w: World, evs: seq<Event>)
    requires Boot(w) && Isolated(w) && XorDeterminesPair(Run(w, evs).made)
    ensures AllAgree(Run(w, evs))
  {
    var v := Run(w, evs);
    RunFromBoot(w, evs);
    forall j | 0 <= j < |v.log| && v.log[j].role == Responder
      ensures Agreed(v, j)
    {
      var i := KeysAgree(w, evs, j);
      assert SameNetwork(w, v.log[j].node, v.log[j].peer);
      assert IsEntry(v.log[i], v.log[j].peer, v.log[j].node, Initiator, v.log[j].key);
    }
  }

  /** The first exchange of two nodes that have just been switched on. */
  function FirstExchange(w: World, a: Mac, r: Mac, privA: Bytes, privR: Bytes, secret: Bytes): Plan
    requires a in w.psk && r in w.psk
  {
    var keyA, keyR := LinkKey(w.crypto, w.psk[a], a, r, secret), LinkKey(w.crypto, w.psk[r], r, a, secret);
    Plan(a, r, privA, [0, 0, 0, 0, 0, 0, 0, 0], privR, [1, 0, 0, 0, 0, 0, 0, 0], secret, 0, 0,
         map[r := WithKey(NewPeer(r, 0), keyA, 0)], map[a := WithKey(NewPeer(a, 0), keyR, 0)])
  }

  lemma FirstPeer(mac: Mac, key: Bytes)
    ensures RegisterStep(map[], map[mac := WithKey(NewPeer(mac, 0), key, 0)], mac, key, 0, 0)
    ensures CanAdd(map[], mac)
  {
    RegisteredBy(map[], map[mac := NewPeer(mac, 0)], map[mac := WithKey(NewPeer(mac, 0), key, 0)], mac,
                 key, 0, 0, true);
  }

  lemma FirstExchangeFeasible(w: World, a: Mac, r: Mac, privA: Bytes, privR: Bytes, secret: Bytes)
    requires Boot(w) && SameNetwork(w, a, r) && a != r
    requires w.crypto.shared(privA, w.crypto.pub(privR)) == Some(secret)
    ensures Feasible(w, FirstExchange(w, a, r, privA, privR, secret))
  {
    BootInv(w);
    FindContextSpec(w.contexts[a], r);
  }

  /** Whatever two nodes with different pre-shared keys and one network id there are, they disagree in some run. */
  lemma WrongPskRun(w: World, a: Mac, r: Mac, privA: Bytes, privR: Bytes, secret: Bytes) returns (evs: seq<Event>)
    requires Boot(w) && SameNetwork(w, a, r) && w.psk[a] != w.psk[r] && TellsPsksApart(w, secret)
    requires w.crypto.shared(privA, w.crypto.pub(privR)) == Some(secret)
    ensures XorDeterminesPair(Run(w, evs).made) && !AllAgree(Run(w, evs))
  {
    var p := FirstExchange(w, a, r, privA, privR, secret);
    evs := p.Events(w.crypto);
    FirstExchangeFeasible(w, a, r, privA, privR, secret);
    FirstPeer(r, p.KeyA(w));
    FirstPeer(a, p.KeyR(w));
    AfterExchange(w, p);
    PairDetermined(Run(w, evs).made, Secret(a, Initiator, r, privA, p.nonceA),
                   Secret(r, Responder, a, privR, p.nonceR));
    WrongPskAccepted(w, p);
    LoneEntriesDisagree(Run(w, evs), p.EntryA(w), p.EntryR(w));
  }

  lemma PairDetermined(made: set<Secret>, s: Secret, t: Secret)
    requires made == {s, t}
    ensures XorDeterminesPair(made)
  {
  }

  lemma LoneEntriesDisagree(v: World, e: Install, f: Install)
    requires v.log == [e, f] && f.role == Responder && e.key != f.key
    ensures !AllAgree(v)
  {
    assert v.log[1] == f && !Agreed(v, 1);
  }

  /**
   The exact condition, before anything is sent: accepting a CONFIRM means equal keys in every
   run of the network if and only if nodes with different pre-shared keys always have different
   16-bit network ids.
   */
  lemma AlwaysAgreeIffIsolated(w: World, privA: Bytes, privR: Bytes, secret: Bytes)
    requires Boot(w) && TellsPsksApart(w, secret)
    requires w.crypto.shared(privA, w.crypto.pub(privR)) == Some(secret)
    ensures AlwaysAgree(w) <==> Isolated(w)
  {
    if Isolated(w) {
      forall evs | XorDeterminesPair(Run(w, evs).made)
        ensures AllAgree(Run(w, evs))
      {
        IsolatedAgree(w, evs);
      }
    } else {
      var a, r :| SameNetwork(w, a, r) && w.psk[a] != w.psk[r];
      var evs := WrongPskRun(w, a, r, privA, privR, secret);
    }
  }

  /* ----- A concrete network that is not isolated ----- */

  function Fit(k: Bytes): (r: Bytes)
    ensures |r| == PUB_SIZE
  {
    if |k| == PUB_SIZE then k else seq(PUB_SIZE, i => 0)
  }

  function AddBytes(a: Bytes, b: Bytes): (r: Bytes)
    requires |a| == |b|
    ensures |r| == |a|
  {
    seq(|a|, i requires 0 <= i < |a| => AddByte(a[i], b[i]))
  }

  function AddByte(x: uint8, y: uint8): uint8
  {
    var wide: int := x;
    (wide + y) % 0x100
  }

  /** A stand-in for the key derivation: 16 bytes, which tell one-byte pre-shared keys apart. */
  function ExampleKey(secret: Bytes, psk: Bytes): (key: Bytes)
    ensures |key| == KEY_SIZE
  {
    if |secret| >= 15 && |psk| == 1 then secret[..15] + psk else seq(KEY_SIZE, i => 0)
  }

  /** Stand-ins with the assumed properties: a commutative shared secret, keys of the right size, colliding ids. */
  function ExampleCrypto(): Crypto
  {
    Crypto((k: Bytes) => Fit(k),
           (k: Bytes, p: Bytes) => Some(AddBytes(Fit(k), Fit(p))),
           (s: Bytes, psk: Bytes, a: Mac, b: Mac) => ExampleKey(s, psk),
           (psk: Bytes) => |psk| % 0x1_0000)
  }

  lemma ExampleCommutes()
    ensures DiffieHellman(ExampleCrypto()) && KeysFit(ExampleCrypto())
  {
    forall a: Bytes, b: Bytes
      ensures AddBytes(Fit(a), Fit(Fit(b))) == AddBytes(Fit(b), Fit(Fit(a)))
    {
    }
  }

  const EXAMPLE_A := Mac(2, 0, 0, 0, 0, 1)
  const EXAMPLE_R := Mac(2, 0, 0, 0, 0, 2)

  /** Two nodes with pre-shared keys "a" and "b". */
  function ExampleNetwork(): World
  {
    var idle := [NO_CONTEXT, NO_CONTEXT, NO_CONTEXT, NO_CONTEXT];
    World(ExampleCrypto(), map[EXAMPLE_A := [97], EXAMPLE_R := [98]], map[EXAMPLE_A := idle, EXAMPLE_R := idle],
          map[EXAMPLE_A := map[], EXAMPLE_R := map[]], {}, {}, [])
  }

  lemma ExampleKeysDiffer(secret: Bytes)
    requires |secret| == PUB_SIZE
    ensures TellsPsksApart(ExampleNetwork(), secret)
  {
    var w := ExampleNetwork();
    forall x, y, a, b | x in w.psk && y in w.psk && SameKey(w.crypto, secret, w.psk[x], secret, w.psk[y], a, b)
      ensures w.psk[x] == w.psk[y]
    {
      assert ExampleKey(secret, w.psk[x])[15..] == w.psk[x] && ExampleKey(secret, w.psk[y])[15..] == w.psk[y];
    }
  }

  /** A run in which an accepted CONFIRM leaves two different keys behind. */
  lemma WrongPskExample() returns (evs: seq<Event>)
    ensures Boot(ExampleNetwork()) && KeysFit(ExampleNetwork().crypto)
    ensures XorDeterminesPair(Run(ExampleNetwork(), evs).made) && !AllAgree(Run(ExampleNetwork(), evs))
  {
    var w := ExampleNetwork();
    ExampleCommutes();
    var secret := AddBytes(Fit([]), Fit(Fit([])));
    ExampleKeysDiffer(secret);
    evs := WrongPskRun(w, EXAMPLE_A, EXAMPLE_R, [], [], secret);
  }
}
