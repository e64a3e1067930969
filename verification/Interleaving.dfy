/**
 Many messages at once: fragments of at most four messages arriving in any order, interleaved
 and duplicated at will, with no session timing out.
 */
module Interleaving {
  import opened MeshTypes
  import opened FragmentCodec
  import opened Reassembly

  /** The payload sent under each key. */
  type Messages = map<Key, Bytes>

  /** Fragment `index` of message `key` arrives at time `now`. */
  datatype Arrival = Arrival(key: Key, index: nat, now: uint32)

  function Total(messages: Messages, key: Key): nat
    requires key in messages
  {
    ChunkCount(|messages[key]|)
  }

  /** Every message fits into eight fragments, and every arrival is a fragment of one of them. */
  ghost predicate Genuine(messages: Messages, ds: seq<Arrival>)
  {
    && (forall k :: k in messages ==> 1 <= |messages[k]| <= 1792)
    && (forall i :: 0 <= i < |ds| ==> ds[i].key in messages && ds[i].index < Total(messages, ds[i].key))
  }

  function Wire(messages: Messages, d: Arrival): Bytes
    requires d.key in messages && |messages[d.key]| <= 1792 && d.index < Total(messages, d.key)
  {
    FragmentBytes(messages[d.key], d.key.fragId, d.index, Total(messages, d.key))
  }

  /** The session table after the arrivals ds. */
  ghost function After(ss: Sessions, messages: Messages, ds: seq<Arrival>): (r: Sessions)
    requires Valid(ss) && Genuine(messages, ds)
    ensures Valid(r)
  {
    if |ds| == 0 then ss
    else
      var u := After(ss, messages, ds[..|ds| - 1]);
      var d := ds[|ds| - 1];
      ReassembleRefinesMap(u, d.key.src, Wire(messages, d), d.now, d.key);
      Reassemble(u, d.key.src, Wire(messages, d), d.now).sessions
  }

  /** What reassemble returns for arrival j. */
  ghost function Returned(ss: Sessions, messages: Messages, ds: seq<Arrival>, j: nat): Option<Bytes>
    requires Valid(ss) && Genuine(messages, ds) && j < |ds|
  {
    Reassemble(After(ss, messages, ds[..j]), ds[j].key.src, Wire(messages, ds[j]), ds[j].now).message
  }

  ghost predicate IsAll(s: set<nat>, n: nat)
  {
    forall i: nat :: i in s <==> i < n
  }

  /** One more index; a complete set starts over. */
  ghost function Absorb(s: set<nat>, index: nat, n: nat): (r: set<nat>)
    requires index < n && forall i :: i in s ==> i < n
    ensures forall i :: i in r ==> i < n
  {
    if IsAll(s + {index}, n) then {} else s + {index}
  }

  /** The indices of message k received since it was last complete. */
  ghost function Pending(messages: Messages, ds: seq<Arrival>, k: Key): (s: set<nat>)
    requires Genuine(messages, ds) && k in messages
    ensures forall i :: i in s ==> i < Total(messages, k)
  {
    if |ds| == 0 then {}
    else
      var s := Pending(messages, ds[..|ds| - 1], k);
      var d := ds[|ds| - 1];
      if d.key == k then Absorb(s, d.index, Total(messages, k)) else s
  }

  ghost function ChunksAt(p: Bytes, s: set<nat>): Parts
    requires forall i :: i in s ==> i < ChunkCount(|p|)
  {
    map i | i in s :: (ChunkBounds(p, i); Chunk(p, i))
  }

  lemma {:induction false} AssembledChunks(p: Bytes, s: set<nat>, n: nat)
    requires forall i :: i in s ==> i < ChunkCount(|p|)
    requires n <= ChunkCount(|p|) && forall i :: 0 <= i < n ==> i in s
    ensures Assembled(ChunksAt(p, s), n) == Joined(p, n)
  {
    if n > 0 { AssembledChunks(p, s, n - 1); }
  }

  lemma FullTableNeedsFive(ss: Sessions, keys: set<Key>, key: Key)
    requires Valid(ss) && key in keys && Lookup(ss, key).None? && FindInactive(ss) == |ss|
    requires forall k :: Lookup(ss, k).Some? ==> k in keys
    ensures |keys| >= 5
  {
    forall i | 0 <= i < |ss|
      ensures ss[i].active && KeyOf(ss[i]) in keys && KeyOf(ss[i]) != key
    {
      assert !IsInactive()(ss[i]);
      SlotOf(ss, i);
    }
    var five := {KeyOf(ss[0]), KeyOf(ss[1]), KeyOf(ss[2]), KeyOf(ss[3]), key};
    assert |five| == 5;
    assert |keys - five| + |five| == |keys|;
  }

  /** Four slots suffice for four keys: a new message never meets a full table. */
  lemma RoomForOneMore(ss: Sessions, messages: Messages, key: Key)
    requires Valid(ss) && |messages| <= 4 && key in messages && Lookup(ss, key).None?
    requires forall k :: Lookup(ss, k).Some? ==> k in messages
    ensures FindInactive(ss) < |ss|
  {
    if FindInactive(ss) == |ss| {
      assert |messages.Keys| == |messages|;
      FullTableNeedsFive(ss, messages.Keys, key);
    }
  }

  /** The table holds, for each message, precisely its own pending chunks. */
  ghost predicate InStep(ss: Sessions, messages: Messages, ds: seq<Arrival>)
    requires Valid(ss) && Genuine(messages, ds)
  {
    && (forall k :: k in messages ==> PartsAt(Lookup(ss, k)) == ChunksAt(messages[k], Pending(messages, ds, k)))
    && (forall k :: Lookup(ss, k).Some? ==> k in messages)
  }

  /** A chunk joins the chunks of its message that are already there. */
  lemma OwnArrival(u: Sessions, messages: Messages, d: Arrival, s: set<nat>)
    requires Valid(u) && d.key in messages && 1 <= |messages[d.key]| <= 1792 && d.index < Total(messages, d.key)
    requires forall i :: i in s ==> i < Total(messages, d.key)
    requires PartsAt(Lookup(u, d.key)) == ChunksAt(messages[d.key], s)
    ensures var o := Reassemble(u, d.key.src, Wire(messages, d), d.now);
            var done := IsAll(s + {d.index}, Total(messages, d.key));
            && Valid(o.sessions)
            && o.message == (if done then Some(messages[d.key]) else None)
            && PartsAt(Lookup(o.sessions, d.key)) ==
               ChunksAt(messages[d.key], Absorb(s, d.index, Total(messages, d.key)))
  {
    var p, n := messages[d.key], Total(messages, d.key);
    ParseFragment(p, d.key.fragId, d.index, n);
    AccumulateChunk(p, s, Fragment(d.key.fragId, d.index, n, Chunk(p, d.index)));
    ReassembleRefinesMap(u, d.key.src, Wire(messages, d), d.now, d.key);
  }

  /** One more chunk of p beside those of s. */
  lemma AccumulateChunk(p: Bytes, s: set<nat>, f: Fragment)
    requires f.total == ChunkCount(|p|) && f.index < f.total && f.data == Chunk(p, f.index)
    requires forall i :: i in s ==> i < f.total
    ensures Accumulate(ChunksAt(p, s), f) ==
            if IsAll(s + {f.index}, f.total) then Complete(p) else Waiting(ChunksAt(p, s + {f.index}))
  {
    var t := s + {f.index};
    assert ChunksAt(p, s)[f.index := f.data] == ChunksAt(p, t);
    assert forall k: nat :: k in ChunksAt(p, t) <==> k in t;
    assert IsAll(t, f.total) <==> HasExactly(ChunksAt(p, t), f.total);
    if IsAll(t, f.total) {
      AssembledChunks(p, t, f.total);
      JoinedIsPrefix(p, f.total);
    }
  }

  /** It evicts nobody. */
  lemma OtherArrival(u: Sessions, messages: Messages, d: Arrival, k: Key)
    requires Valid(u) && |messages| <= 4
    requires d.key in messages && |messages[d.key]| <= 1792 && d.index < Total(messages, d.key)
    requires forall q :: Lookup(u, q).Some? ==> q in messages
    requires k != d.key
    ensures var o := Reassemble(u, d.key.src, Wire(messages, d), d.now);
            Valid(o.sessions) && Lookup(o.sessions, k) == Lookup(u, k)
  {
    ParseFragment(messages[d.key], d.key.fragId, d.index, Total(messages, d.key));
    if Lookup(u, d.key).None? { RoomForOneMore(u, messages, d.key); }
    ReassembleRefinesMap(u, d.key.src, Wire(messages, d), d.now, k);
  }

  lemma ArrivalKeepsStep(u: Sessions, messages: Messages, ds: seq<Arrival>)
    requires |ds| > 0 && Genuine(messages, ds) && |messages| <= 4
    requires Valid(u) && InStep(u, messages, ds[..|ds| - 1])
    ensures var d := ds[|ds| - 1];
            var o := Reassemble(u, d.key.src, Wire(messages, d), d.now);
            && Valid(o.sessions)
            && InStep(o.sessions, messages, ds)
            && o.message == if IsAll(Pending(messages, ds[..|ds| - 1], d.key) + {d.index}, Total(messages, d.key))
                            then Some(messages[d.key]) else None
  {
    var d := ds[|ds| - 1];
    var o := Reassemble(u, d.key.src, Wire(messages, d), d.now);
    OwnArrival(u, messages, d, Pending(messages, ds[..|ds| - 1], d.key));
    forall k | k != d.key
      ensures Lookup(o.sessions, k) == Lookup(u, k)
    {
      OtherArrival(u, messages, d, k);
    }
  }

  lemma {:induction false} StaysInStep(ss: Sessions, messages: Messages, ds: seq<Arrival>)
    requires Valid(ss) && Genuine(messages, ds) && |messages| <= 4
    requires forall k :: Lookup(ss, k) == None
    ensures InStep(After(ss, messages, ds), messages, ds)
  {
    if |ds| > 0 {
      StaysInStep(ss, messages, ds[..|ds| - 1]);
      ArrivalKeepsStep(After(ss, messages, ds[..|ds| - 1]), messages, ds);
    }
  }

  /**
   For every interleaving of the fragments of at most four messages: an arrival returns its
   message, byte for byte, exactly when it completes the message's index set, whatever the
   other messages do; and otherwise it returns nothing.
   */
  lemma InterleavedReassembly(ss: Sessions, messages: Messages, ds: seq<Arrival>, j: nat)
    requires Valid(ss) && Genuine(messages, ds) && |messages| <= 4 && j < |ds|
    requires forall k :: Lookup(ss, k) == None
    ensures var k := ds[j].key;
            Returned(ss, messages, ds, j) ==
              if IsAll(Pending(messages, ds[..j], k) + {ds[j].index}, Total(messages, k))
              then Some(messages[k]) else None
  {
    StaysInStep(ss, messages, ds[..j]);
    assert ds[..j + 1][..j] == ds[..j];
    ArrivalKeepsStep(After(ss, messages, ds[..j]), messages, ds[..j + 1]);
  }

  /* ----- First delivery ----- */

  /** All indices of message k that have arrived. */
  ghost function Delivered(ds: seq<Arrival>, k: Key): set<nat>
  {
    if |ds| == 0 then {}
    else Delivered(ds[..|ds| - 1], k) + (if ds[|ds| - 1].key == k then {ds[|ds| - 1].index} else {})
  }

  lemma {:induction false} PendingIsDelivered(messages: Messages, ds: seq<Arrival>, k: Key)
    requires Genuine(messages, ds) && k in messages
    ensures forall i :: i in Delivered(ds, k) ==> i < Total(messages, k)
    ensures !IsAll(Delivered(ds, k), Total(messages, k)) ==> Pending(messages, ds, k) == Delivered(ds, k)
  {
    if |ds| > 0 {
      PendingIsDelivered(messages, ds[..|ds| - 1], k);
    }
  }

  /**
   Round trip: from empty sessions, reassemble returns nothing for a message until the last of
   its fragments arrives, in whatever order and with whatever duplicates, and then returns
   exactly the payload.
   */
  lemma RoundTrip(ss: Sessions, messages: Messages, ds: seq<Arrival>, j: nat)
    requires Valid(ss) && Genuine(messages, ds) && |messages| <= 4 && j < |ds|
    requires forall k :: Lookup(ss, k) == None
    requires !IsAll(Delivered(ds[..j], ds[j].key), Total(messages, ds[j].key))
    ensures var k := ds[j].key;
            Returned(ss, messages, ds, j) ==
              if IsAll(Delivered(ds[..j + 1], k), Total(messages, k)) then Some(messages[k]) else None
  {
    var k := ds[j].key;
    PendingIsDelivered(messages, ds[..j], k);
    assert Delivered(ds[..j + 1], k) == Pending(messages, ds[..j], k) + {ds[j].index} by {
      assert ds[..j + 1][..j] == ds[..j];
    }
    InterleavedReassembly(ss, messages, ds, j);
  }
}
