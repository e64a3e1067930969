/**
 The four reassembly sessions as values, and the map they stand for: from a message key
 (source MAC, fragment id) to the fragments stored for it.
 */
module Reassembly {
  import opened MeshTypes
  import opened Bits
  import opened FragmentCodec

  const MAX_SESSIONS: nat := 4
  const REASSEMBLY_TIMEOUT_MS: int := 2000

  datatype Session = Session(
    srcMac: Mac,
    fragId: uint16,
    totalFrags: uint8,
    receivedMask: uint8,
    buffer: seq<Bytes>,       // 8 buffers of 224 bytes
    fragLengths: seq<nat>,
    startedAt: uint32,
    active: bool)

  type Sessions = seq<Session>

  datatype Key = Key(src: Mac, fragId: uint16)

  const ZERO_BUFFER: Bytes := seq(FRAG_MAX_PAYLOAD, i => 0)

  /** A session just after memset and initialisation. */
  function NewSession(src: Mac, fragId: uint16, total: uint8, now: uint32): Session
  {
    Session(src, fragId, total, 0, seq(8, i => ZERO_BUFFER), seq(8, i => 0), now, true)
  }

  function KeyOf(s: Session): Key
  {
    Key(s.srcMac, s.fragId)
  }

  ghost predicate BuffersFit(s: Session)
  {
    && |s.buffer| == 8 && |s.fragLengths| == 8
    && (forall i :: 0 <= i < 8 ==> |s.buffer[i]| == FRAG_MAX_PAYLOAD && s.fragLengths[i] <= FRAG_MAX_PAYLOAD)
  }

  ghost predicate Unique(ss: Sessions)
  {
    forall i, j :: 0 <= i < j < |ss| && ss[i].active && ss[j].active ==> KeyOf(ss[i]) != KeyOf(ss[j])
  }

  ghost predicate Valid(ss: Sessions)
  {
    && |ss| == MAX_SESSIONS && Unique(ss)
    && (forall i :: 0 <= i < |ss| && ss[i].active ==> BuffersFit(ss[i]))
  }

  /* ----- Searches ----- */

  function IsFor(key: Key): Session -> bool
  {
    (s: Session) => s.active && KeyOf(s) == key
  }

  function IsInactive(): Session -> bool
  {
    (s: Session) => !s.active
  }

  function Started(): Session -> uint32
  {
    (s: Session) => s.startedAt
  }

  function FindSession(ss: Sessions, key: Key): nat
  {
    FirstIndex(ss, IsFor(key))
  }

  function FindInactive(ss: Sessions): nat
  {
    FirstIndex(ss, IsInactive())
  }

  /* ----- The map ----- */

  /** The fragments received so far, by index. */
  type Parts = map<nat, Bytes>

  datatype Entry = Entry(parts: Parts, startedAt: uint32)

  function PartsOf(s: Session): Parts
    requires BuffersFit(s)
  {
    map i: nat | 0 <= i < 8 && Bit(s.receivedMask, i) :: s.buffer[i][..s.fragLengths[i]]
  }

  function Lookup(ss: Sessions, key: Key): Option<Entry>
    requires Valid(ss)
  {
    var i := FindSession(ss, key);
    if i < |ss| then
      assert IsFor(key)(ss[i]);
      Some(Entry(PartsOf(ss[i]), ss[i].startedAt))
    else None
  }

  lemma FindSlot(ss: Sessions, key: Key)
    requires Valid(ss)
    ensures var i := FindSession(ss, key);
            && (i < |ss| ==> ss[i].active && KeyOf(ss[i]) == key)
            && (i == |ss| ==> forall j :: 0 <= j < |ss| && ss[j].active ==> KeyOf(ss[j]) != key)
  {
  }

  lemma SlotOf(ss: Sessions, i: nat)
    requires Valid(ss) && i < |ss| && ss[i].active
    ensures FindSession(ss, KeyOf(ss[i])) == i
  {
  }

  /** Overwriting slot i changes the map only at the slot's old and new key. */
  lemma LookupUpdate(ss: Sessions, i: nat, s: Session, key: Key)
    requires Valid(ss) && i < |ss|
    requires s.active ==>
               BuffersFit(s) && forall j :: 0 <= j < |ss| && j != i && ss[j].active ==> KeyOf(ss[j]) != KeyOf(s)
    ensures Valid(ss[i := s])
    ensures Lookup(ss[i := s], key) ==
            if s.active && KeyOf(s) == key then Some(Entry(PartsOf(s), s.startedAt))
            else if ss[i].active && KeyOf(ss[i]) == key then None
            else Lookup(ss, key)
  {
    var u := ss[i := s];
    FindSlot(ss, key);
    FindSlot(u, key);
    var k := FindSession(u, key);
    if k < |u| && k != i { SlotOf(ss, k); }
    var j := FindSession(ss, key);
    if s.active && KeyOf(s) == key {
      SlotOf(u, i);
    } else if j < |ss| && j != i {
      assert u[j] == ss[j];
      SlotOf(u, j);
    }
  }

  /* ----- reassemble ----- */

  /** Session slot for the key: the existing one, a free one, or the oldest one, evicted. */
  function SlotFor(ss: Sessions, key: Key): (i: nat)
    requires |ss| == MAX_SESSIONS
    ensures i < |ss|
  {
    if FindSession(ss, key) < |ss| then FindSession(ss, key)
    else if FindInactive(ss) < |ss| then FindInactive(ss)
    else OldestScan(ss, Started(), |ss|).0
  }

  /** The sessions once the key's session is open. */
  function Opened(ss: Sessions, key: Key, total: uint8, now: uint32): Sessions
    requires |ss| == MAX_SESSIONS
  {
    if FindSession(ss, key) < |ss| then ss
    else ss[SlotFor(ss, key) := NewSession(key.src, key.fragId, total, now)]
  }

  /** memcpy into the start of a buffer leaves its tail. */
  function Overwrite(buf: Bytes, data: Bytes): Bytes
    requires |data| <= |buf|
  {
    data + buf[|data|..]
  }

  function StoreFragment(s: Session, f: Fragment): Session
    requires BuffersFit(s) && f.index < 8 && |f.data| <= FRAG_MAX_PAYLOAD
  {
    s.(buffer := s.buffer[f.index := Overwrite(s.buffer[f.index], f.data)],
       fragLengths := s.fragLengths[f.index := |f.data|],
       receivedMask := BitOr(s.receivedMask, Pow2(f.index)) % 0x100)
  }

  function ExpectedMask(total: nat): uint8
  {
    (Pow2(total) - 1) % 0x100
  }

  /** The stored data of the first n buffers, in order. */
  function Gathered(s: Session, n: nat): Bytes
    requires BuffersFit(s) && n <= 8
  {
    if n == 0 then [] else Gathered(s, n - 1) + s.buffer[n - 1][..s.fragLengths[n - 1]]
  }

  lemma {:induction false} GatheredLength(s: Session, n: nat)
    requires BuffersFit(s) && n <= 8
    ensures |Gathered(s, n)| <= FRAG_MAX_PAYLOAD * n
  {
    if n > 0 { GatheredLength(s, n - 1); }
  }

  datatype Outcome = Outcome(sessions: Sessions, message: Option<Bytes>)

  /** The session at slot i takes the fragment; when that completes it, the message is handed over. */
  function Take(ss: Sessions, i: nat, f: Fragment): Outcome
    requires i < |ss| && BuffersFit(ss[i]) && f.index < f.total <= 8 && |f.data| <= FRAG_MAX_PAYLOAD
  {
    var s := StoreFragment(ss[i], f);
    assert BuffersFit(s);
    if s.receivedMask != ExpectedMask(f.total) then Outcome(ss[i := s], None)
    else Outcome(ss[i := s.(active := false)], Some(Gathered(s, f.total)))
  }

  lemma OpenedValid(ss: Sessions, key: Key, total: uint8, now: uint32, q: Key)
    requires Valid(ss)
    ensures var o := Opened(ss, key, total, now);
            var i := SlotFor(ss, key);
            && Valid(o) && o[i].active && KeyOf(o[i]) == key
            && (q != key ==> Lookup(o, q) == if FindSession(ss, key) == |ss| && ss[i].active && KeyOf(ss[i]) == q
                                             then None else Lookup(ss, q))
            && Lookup(o, key) == if Lookup(ss, key).Some? then Lookup(ss, key) else Some(Entry(map[], now))
  {
    var i := SlotFor(ss, key);
    FindSlot(ss, key);
    if FindSession(ss, key) == |ss| {
      var s := NewSession(key.src, key.fragId, total, now);
      LookupUpdate(ss, i, s, q);
      LookupUpdate(ss, i, s, key);
      forall k: nat | k < 8
        ensures !Bit(0, k)
      {
        ZeroBits(k);
      }
      assert PartsOf(s) == map[];
    }
  }

  function Reassemble(ss: Sessions, src: Mac, payload: Bytes, now: uint32): Outcome
    requires Valid(ss)
  {
    match Parse(payload)
    case None => Outcome(ss, None)
    case Some(f) =>
      var key := Key(src, f.fragId);
      OpenedValid(ss, key, f.total, now, key);
      Take(Opened(ss, key, f.total, now), SlotFor(ss, key), f)
  }

  /** Storing a fragment is one map update, whatever was in the buffers before. */
  lemma StoreIsMapUpdate(s: Session, f: Fragment)
    requires BuffersFit(s) && f.index < 8 && |f.data| <= FRAG_MAX_PAYLOAD
    ensures BuffersFit(StoreFragment(s, f))
    ensures PartsOf(StoreFragment(s, f)) == PartsOf(s)[f.index := f.data]
    ensures StoreFragment(s, f).receivedMask == BitOr(s.receivedMask, Pow2(f.index))
  {
    var u := StoreFragment(s, f);
    MaskAdds(s.receivedMask, f.index);
    assert u.buffer[f.index][..u.fragLengths[f.index]] == f.data;
  }

  /** Setting bit i of an 8-bit mask. */
  lemma MaskAdds(mask: uint8, i: nat)
    requires i < 8
    ensures BitOr(mask, Pow2(i)) < 0x100
    ensures forall k: nat :: k < 8 ==> (Bit(BitOr(mask, Pow2(i)), k) <==> k == i || Bit(mask, k))
  {
    Pow2Below(i);
    assert Pow2(8) == 0x100;
    BitOrBound(mask, Pow2(i), 8);
    forall k: nat | k < 8
      ensures Bit(BitOr(mask, Pow2(i)), k) <==> k == i || Bit(mask, k)
    {
      BitOrBits(mask, Pow2(i), k);
      ShiftedOneBits(i, k);
    }
  }

  lemma Pow2Below(k: nat)
    requires k < 8
    ensures Pow2(k) < 0x100 && Pow2(k + 1) <= 0x100
  {
    assert Pow2(1) == 2 && Pow2(2) == 4 && Pow2(3) == 8 && Pow2(4) == 16;
    assert Pow2(5) == 32 && Pow2(6) == 64 && Pow2(7) == 128 && Pow2(8) == 256;
  }

  /** The stored indices are exactly 0 to n - 1. */
  ghost predicate HasExactly(parts: Parts, n: nat)
  {
    forall k: nat :: k in parts <==> k < n
  }

  /** The mask comparison tests exactly whether the stored indices are 0 to total - 1. */
  lemma MaskComplete(s: Session, total: nat)
    requires BuffersFit(s) && 1 <= total <= 8
    ensures s.receivedMask == ExpectedMask(total) <==> HasExactly(PartsOf(s), total)
  {
    Pow2Below(total - 1);
    assert Pow2(8) == 0x100;
    assert ExpectedMask(total) == Pow2(total) - 1;
    forall k: nat | k < 8
      ensures Bit(Pow2(total) - 1, k) <==> k < total
      ensures k in PartsOf(s) <==> Bit(s.receivedMask, k)
    {
      LowMaskBits(total, k);
    }
    if HasExactly(PartsOf(s), total) {
      MaskExtensional(s.receivedMask, Pow2(total) - 1, 8);
    }
  }

  /** The parts 0 to n - 1, joined in index order. */
  function Assembled(parts: Parts, n: nat): Bytes
    requires forall i :: 0 <= i < n ==> i in parts
  {
    if n == 0 then [] else Assembled(parts, n - 1) + parts[n - 1]
  }

  lemma {:induction false} GatheredIsAssembled(s: Session, n: nat)
    requires BuffersFit(s) && n <= 8
    requires forall i :: 0 <= i < n ==> i in PartsOf(s)
    ensures Gathered(s, n) == Assembled(PartsOf(s), n)
  {
    if n > 0 { GatheredIsAssembled(s, n - 1); }
  }

  /* ----- Refinement of the map, for arbitrary fragments ----- */

  /** What one more fragment does to the parts of its message. */
  datatype Progress = Waiting(parts: Parts) | Complete(message: Bytes)

  ghost function Accumulate(parts: Parts, f: Fragment): Progress
  {
    var p := parts[f.index := f.data];
    if HasExactly(p, f.total) then Complete(Assembled(p, f.total)) else Waiting(p)
  }

  function PartsAt(e: Option<Entry>): Parts
  {
    if e.Some? then e.value.parts else map[]
  }

  lemma TakeRefinesMap(ss: Sessions, i: nat, f: Fragment, q: Key)
    requires Valid(ss) && i < |ss| && ss[i].active && f.index < f.total <= 8 && |f.data| <= FRAG_MAX_PAYLOAD
    ensures var o := Take(ss, i, f);
            var key := KeyOf(ss[i]);
            && Valid(o.sessions)
            && (q != key ==> Lookup(o.sessions, q) == Lookup(ss, q))
            && match Accumulate(PartsOf(ss[i]), f)
               case Waiting(p) => o.message == None && Lookup(o.sessions, key) == Some(Entry(p, ss[i].startedAt))
               case Complete(m) => o.message == Some(m) && Lookup(o.sessions, key) == None && |m| <= 1792
  {
    var s := StoreFragment(ss[i], f);
    StoreIsMapUpdate(ss[i], f);
    MaskComplete(s, f.total);
    var u := if s.receivedMask != ExpectedMask(f.total) then s else s.(active := false);
    LookupUpdate(ss, i, u, q);
    LookupUpdate(ss, i, u, KeyOf(ss[i]));
    if HasExactly(PartsOf(s), f.total) {
      GatheredIsAssembled(s, f.total);
      GatheredLength(s, f.total);
    }
  }

  /** The session that is given up for a new key, if any: an oldest one, and only when all four are in use. */
  ghost predicate GivesUp(ss: Sessions, key: Key, q: Key)
    requires Valid(ss)
  {
    && Lookup(ss, key).None? && FindInactive(ss) == |ss| && q != key
    && OldestScan(ss, Started(), |ss|).0 < |ss| && KeyOf(ss[OldestScan(ss, Started(), |ss|).0]) == q
  }

  lemma GivenUpIsOldest(ss: Sessions, key: Key, q: Key)
    requires Valid(ss) && GivesUp(ss, key, q)
    ensures Lookup(ss, q).Some?
    ensures forall k :: Lookup(ss, k).Some? ==> Lookup(ss, q).value.startedAt <= Lookup(ss, k).value.startedAt
  {
    var c := OldestScan(ss, Started(), |ss|).0;
    OldestIsMinimal(ss, Started(), |ss|);
    assert !IsInactive()(ss[c]);
    SlotOf(ss, c);
    forall k | Lookup(ss, k).Some?
      ensures Lookup(ss, q).value.startedAt <= Lookup(ss, k).value.startedAt
    {
      var j := FindSession(ss, k);
      assert ss[c].startedAt <= ss[j].startedAt;
    }
  }

  /**
   For every fragment, consistent with earlier ones or not: a malformed one changes nothing;
   any other updates the parts of its own message, which is returned, assembled from the
   latest data per index, exactly when the stored indices are 0 to total - 1 of the arriving
   fragment; and another message is affected only when its session is given up.
   */
  lemma ReassembleRefinesMap(ss: Sessions, src: Mac, payload: Bytes, now: uint32, q: Key)
    requires Valid(ss)
    ensures var o := Reassemble(ss, src, payload, now);
            && Valid(o.sessions)
            && match Parse(payload)
               case None => o == Outcome(ss, None)
               case Some(f) =>
                 var key := Key(src, f.fragId);
                 && (q != key ==> Lookup(o.sessions, q) == if GivesUp(ss, key, q) then None else Lookup(ss, q))
                 && match Accumulate(PartsAt(Lookup(ss, key)), f)
                    case Waiting(p) =>
                      && o.message == None
                      && Lookup(o.sessions, key) ==
                         Some(Entry(p, if Lookup(ss, key).Some? then Lookup(ss, key).value.startedAt else now))
                    case Complete(m) => o.message == Some(m) && Lookup(o.sessions, key) == None && |m| <= 1792
  {
    match Parse(payload)
    case None =>
    case Some(f) =>
      var key := Key(src, f.fragId);
      var i := SlotFor(ss, key);
      var o := Opened(ss, key, f.total, now);
      OpenedValid(ss, key, f.total, now, q);
      SlotOf(o, i);
      TakeRefinesMap(o, i, f, q);
      if FindInactive(ss) < |ss| {
        assert IsInactive()(ss[FindInactive(ss)]);
      } else {
        assert !IsInactive()(ss[i]);
      }
  }

  /* ----- update ----- */

  function TimedOut(s: Session, now: uint32): bool
  {
    s.active && (now - s.startedAt) % 0x1_0000_0000 > REASSEMBLY_TIMEOUT_MS
  }

  function DropStale(ss: Sessions, now: uint32): (r: Sessions)
    ensures |r| == |ss|
    ensures forall i :: 0 <= i < |ss| ==> r[i] == if TimedOut(ss[i], now) then ss[i].(active := false) else ss[i]
  {
    seq(|ss|, i requires 0 <= i < |ss| => if TimedOut(ss[i], now) then ss[i].(active := false) else ss[i])
  }

  /** The sweep forgets exactly the messages begun more than 2 s ago. */
  lemma DropStaleRefinesMap(ss: Sessions, now: uint32, q: Key)
    requires Valid(ss)
    ensures Valid(DropStale(ss, now))
    ensures Lookup(DropStale(ss, now), q) ==
            match Lookup(ss, q)
            case None => None
            case Some(e) => if (now - e.startedAt) % 0x1_0000_0000 > 2000 then None else Some(e)
  {
  }
}
