/**
 What an accepted CONFIRM says in every run: the sender has registered a key before, and the two
 keys are equal exactly when the pre-shared keys are.
 */
module KeyAgreement {
  import opened MeshTypes
  import opened Handshake
  import opened PeerMaps
  import opened KeyExchange

  /* ----- A responder's entry has an initiator's before it ----- */

  /** f is the peer's entry for the exchange of entry e: derived from the same shared secret s. */
  ghost predicate Counterpart(w: World, e: Install, f: Install, s: Bytes)
  {
    && e.node in w.psk && e.peer in w.psk
    && e.key == LinkKey(w.crypto, w.psk[e.node], e.node, e.peer, s)
    && IsEntry(f, e.peer, e.node, Initiator, LinkKey(w.crypto, w.psk[e.peer], e.peer, e.node, s))
  }

  ghost predicate Backed(w: World, e: Install, before: seq<Install>)
  {
    exists f, s :: f in before && Counterpart(w, e, f, s)
  }

  /** The matching XOR singles out the initiator's own exchange. */
  lemma ConfirmMatches(w: World, x: Mac, m: Message, payload: Bytes, mine: Secret, theirs: Secret, a: Secret, b: Secret)
    requires SecretsDistinct(w.made) && XorDeterminesPair(w.made)
    requires ConfirmOf(w, m, payload, a, b) && m.dst == x
    requires mine in w.made && theirs in w.made
    requires mine.owner == x && mine.role == Responder && theirs.owner == m.src && theirs.role == Initiator
             && m.src != x
    requires payload == XorBytes(theirs.nonce, mine.nonce)
    ensures a == theirs && b == mine && InitiatorDone(w, theirs, mine)
  {
    assert XorMatch(a, b, theirs, mine);
  }

  lemma ResponderAgrees(w: World, x: Mac, m: Message, e: Install)
    requires Inv(w) && XorDeterminesPair(w.made)
    requires x in w.contexts && m in w.wire && m.dst == x && m.src != x && m.frame.Confirm? && m.src in w.psk
    requires e.node == x && e.peer == m.src
    requires OnConfirm(w.crypto, w.psk[x], x, w.contexts[x], m.src, m.frame.payload).key == Some(e.key)
    ensures Backed(w, e, w.log)
  {
    var c := w.crypto;
    var r := OnConfirm(c, w.psk[x], x, w.contexts[x], m.src, m.frame.payload);
    var mine, theirs, s := ConfirmExchange(w, x, m, r);
    assert MessageSound(w, m);
    var a, b :| ConfirmOf(w, m, m.frame.payload, a, b);
    ConfirmMatches(w, x, m, m.frame.payload, mine, theirs, a, b);
    assert c.shared(mine.priv, c.pub(theirs.priv)) == c.shared(theirs.priv, c.pub(mine.priv));
    var f :| f in w.log && IsInitiatorEntry(w, f, theirs, s);
    assert Counterpart(w, e, f, s);
  }

  ghost predicate LogBacked(w: World)
  {
    forall j :: 0 <= j < |w.log| && w.log[j].role == Responder ==> Backed(w, w.log[j], w.log[..j])
  }

  lemma LongerLogBacked(w: World, v: World)
    requires Grows(w, v) && LogBacked(w) && |v.log| <= |w.log| + 1
    requires |v.log| == |w.log| + 1 && v.log[|w.log|].role == Responder ==> Backed(w, v.log[|w.log|], w.log)
    ensures LogBacked(v)
  {
    forall j | 0 <= j < |v.log| && v.log[j].role == Responder
      ensures Backed(v, v.log[j], v.log[..j])
    {
      assert v.log[..j] == w.log[..j];
      var f, s :| f in v.log[..j] && Counterpart(w, v.log[j], f, s);
      assert Counterpart(v, v.log[j], f, s);
    }
  }

  lemma NextBacksLog(w: World, ev: Event)
    requires Inv(w) && LogBacked(w) && XorDeterminesPair(w.made)
    ensures LogBacked(Next(w, ev))
  {
    if Enabled(w, ev) {
      var v := Step(w, ev);
      StepGrows(w, ev);
      if |v.log| > |w.log| && v.log[|w.log|].role == Responder {
        ResponderAgrees(w, ev.x, ev.m, v.log[|w.log|]);
      }
      LongerLogBacked(w, v);
    }
  }

  lemma {:induction false} RunBacksLog(w: World, evs: seq<Event>)
    requires Inv(w) && LogBacked(w) && XorDeterminesPair(Run(w, evs).made)
    ensures LogBacked(Run(w, evs))
  {
    if |evs| > 0 {
      var u := Run(w, evs[..|evs| - 1]);
      RunKeeps(w, evs[..|evs| - 1]);
      NextKeeps(u, evs[|evs| - 1]);
      RunBacksLog(w, evs[..|evs| - 1]);
      NextBacksLog(u, evs[|evs| - 1]);
    }
  }

  /* ----- Agreement ----- */

  /** The peer table took the key, unless it was full of peers that cannot be evicted. */
  ghost predicate InTable(e: Install)
  {
    if CanAdd(e.before, e.peer) then HoldsKey(e.after, e.peer, e.key)
    else e.after == e.before && e.peer !in e.after
  }

  lemma EntryInTable(w: World, e: Install)
    requires EntrySound(w, e)
    ensures InTable(e)
  {
    var epoch, now :| RegisterStep(e.before, e.after, e.peer, e.key, epoch, now);
    Registered(e.before, e.after, e.peer, e.key, epoch, now);
  }

  /** Entry i is the peer's entry, as initiator, for the exchange of responder's entry j. */
  ghost predicate AnsweredBy(v: World, j: nat, i: nat)
    requires i < j < |v.log|
  {
    exists s :: Counterpart(v, v.log[j], v.log[i], s)
  }

  /**
   In every run, whenever a responder R registers a key for A on a matching CONFIRM, A has
   earlier registered its key for R, as initiator, derived from the same shared secret. Both
   keys are then in the peer tables, where addPeer has an entry to give. With one pre-shared
   key the two keys are equal.
   */
  lemma KeysAgree(w: World, evs: seq<Event>, j: nat) returns (i: nat)
    requires Boot(w)
    requires var v := Run(w, evs);
             XorDeterminesPair(v.made) && j < |v.log| && v.log[j].role == Responder
    ensures var v := Run(w, evs);
            && i < j && AnsweredBy(v, j, i)
            && InTable(v.log[i]) && InTable(v.log[j])
            && SameNetwork(v, v.log[j].node, v.log[j].peer)
            && (v.psk[v.log[j].node] == v.psk[v.log[j].peer] ==> v.log[i].key == v.log[j].key)
  {
    var v := Run(w, evs);
    RunFromBoot(w, evs);
    BootInv(w);
    RunBacksLog(w, evs);
    i := BackedBy(v, j);
    EntryInTable(v, v.log[i]);
    EntryInTable(v, v.log[j]);
  }

  lemma BackedBy(v: World, j: nat) returns (i: nat)
    requires LogBacked(v) && j < |v.log| && v.log[j].role == Responder
    ensures i < j && AnsweredBy(v, j, i)
    ensures v.log[j].node in v.psk && v.log[j].peer in v.psk
    ensures v.psk[v.log[j].node] == v.psk[v.log[j].peer] ==> v.log[i].key == v.log[j].key
  {
    var e := v.log[j];
    assert Backed(v, e, v.log[..j]);
    var f, s :| f in v.log[..j] && Counterpart(v, e, f, s);
    i :| 0 <= i < j && v.log[..j][i] == f;
    assert v.log[i] == f;
    LinkKeySymmetric(v.crypto, v.psk[e.node], e.node, e.peer, s);
  }

  /** The peer of responder's entry j has earlier registered the very same key for it. */
  ghost predicate Agreed(v: World, j: nat)
    requires j < |v.log|
  {
    var e := v.log[j];
    exists i :: 0 <= i < j && IsEntry(v.log[i], e.peer, e.node, Initiator, e.key)
  }

  /** s is a shared secret of two key pairs made so far. */
  ghost predicate Arises(w: World, s: Bytes)
  {
    exists a, b :: a in w.made && b in w.made && w.crypto.shared(a.priv, w.crypto.pub(b.priv)) == Some(s)
  }

  ghost predicate SameKey(c: Crypto, s: Bytes, p: Bytes, t: Bytes, q: Bytes, a: Mac, b: Mac)
  {
    c.kdf(s, p, a, b) == c.kdf(t, q, a, b)
  }

  /** The key derivation is injective where it is used: different pre-shared keys never give one link key. */
  ghost predicate KdfInjective(w: World)
  {
    forall s, t, x, y, a, b ::
      Arises(w, s) && Arises(w, t) && x in w.psk && y in w.psk && SameKey(w.crypto, s, w.psk[x], t, w.psk[y], a, b) ==>
        s == t && w.psk[x] == w.psk[y]
  }

  lemma SamePskOfSameKey(v: World, e: Install, f: Install)
    requires Inv(v) && KdfInjective(v) && e in v.log && f in v.log
    requires IsEntry(f, e.peer, e.node, Initiator, e.key)
    ensures v.psk[e.node] == v.psk[e.peer]
  {
    var a, b, s :| SecretOf(v, e.node, e.peer, e.role, a, b, s)
      && e.key == LinkKey(v.crypto, v.psk[e.node], e.node, e.peer, s);
    var a', b', t :| SecretOf(v, f.node, f.peer, f.role, a', b', t)
      && f.key == LinkKey(v.crypto, v.psk[f.node], f.node, f.peer, t);
    LinkKeySymmetric(v.crypto, v.psk[f.node], f.node, f.peer, t);
    assert Arises(v, s) && Arises(v, t);
    var lo := if MacLess(e.node, e.peer) then e.node else e.peer;
    var hi := if MacLess(e.node, e.peer) then e.peer else e.node;
    assert SameKey(v.crypto, s, v.psk[e.node], t, v.psk[f.node], lo, hi);
  }

  /**
   The exact condition, for every responder's entry of every run: an accepted CONFIRM means
   agreement on the key if and only if the two nodes have the same pre-shared key.
   */
  lemma AgreedIffSamePsk(w: World, evs: seq<Event>, j: nat)
    requires Boot(w)
    requires var v := Run(w, evs);
             XorDeterminesPair(v.made) && KdfInjective(v) && j < |v.log| && v.log[j].role == Responder
    ensures var v := Run(w, evs);
            && SameNetwork(v, v.log[j].node, v.log[j].peer)
            && (Agreed(v, j) <==> v.psk[v.log[j].node] == v.psk[v.log[j].peer])
  {
    var v := Run(w, evs);
    var e := v.log[j];
    RunFromBoot(w, evs);
    var i := KeysAgree(w, evs, j);
    if v.psk[e.node] == v.psk[e.peer] {
      assert IsEntry(v.log[i], e.peer, e.node, Initiator, e.key);
    }
    if Agreed(v, j) {
      var k :| 0 <= k < j && IsEntry(v.log[k], e.peer, e.node, Initiator, e.key);
      SamePskOfSameKey(v, e, v.log[k]);
    }
  }
}
