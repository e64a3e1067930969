/**
 The seen-frame cache as a log: a ring of 32 slots against the full history of marks.
 */
module SeenFrames {
  import opened MeshTypes

  const SEEN_CACHE_SIZE: nat := 32
  const SEEN_FRAME_TTL_MS: int := 10000

  datatype SeenFrameEntry = SeenFrameEntry(srcMac: Mac, sequence: uint16, timestamp: uint32, valid: bool)
  datatype Mark = Mark(mac: Mac, sequence: uint16, time: uint32)

  /** The most recent of the first n marks that was written to ring slot s (negative: none yet). */
  function MarkOf(n: nat, s: nat): int
    requires s < SEEN_CACHE_SIZE
  {
    if s < n % 32 then n - n % 32 + s else n - n % 32 + s - 32
  }

  lemma MarkOfRange(n: nat, s: nat, j: int)
    requires s < SEEN_CACHE_SIZE
    ensures n - 32 <= MarkOf(n, s) < n
    ensures n - 32 <= j < n && j % 32 == s ==> MarkOf(n, s) == j
  {
  }

  ghost predicate SlotMatches(e: SeenFrameEntry, s: nat, log: seq<Mark>, clock: uint32)
    requires s < SEEN_CACHE_SIZE
  {
    MarkOfRange(|log|, s, 0);
    var j := MarkOf(|log|, s);
    if j < 0 then !e.valid
    else
      && e.srcMac == log[j].mac && e.sequence == log[j].sequence && e.timestamp == log[j].time
      && (e.valid || clock - log[j].time >= SEEN_FRAME_TTL_MS)
  }

  /** The ring holds the last 32 marks, except that marks of age 10 s or more may be invalid. */
  ghost predicate Represents(cache: seq<SeenFrameEntry>, idx: nat, log: seq<Mark>, clock: uint32)
  {
    && |cache| == SEEN_CACHE_SIZE
    && idx == |log| % 32
    && (forall j :: 0 <= j < |log| ==> log[j].time <= clock)
    && (forall s :: 0 <= s < SEEN_CACHE_SIZE ==> SlotMatches(cache[s], s, log, clock))
  }

  predicate IsFresh(m: Mark, mac: Mac, sequence: uint16, now: uint32)
  {
    m.mac == mac && m.sequence == sequence && now - m.time < SEEN_FRAME_TTL_MS
  }

  /** The answer isFrameSeen owes: a fresh equal mark among the last 32. */
  predicate SeenRecently(log: seq<Mark>, mac: Mac, sequence: uint16, now: uint32)
  {
    exists j :: 0 <= j < |log| && |log| - 32 <= j && IsFresh(log[j], mac, sequence, now)
  }

  predicate SlotHit(e: SeenFrameEntry, mac: Mac, sequence: uint16, now: uint32)
  {
    e.valid && e.srcMac == mac && e.sequence == sequence && now - e.timestamp < SEEN_FRAME_TTL_MS
  }

  lemma LaterClock(cache: seq<SeenFrameEntry>, idx: nat, log: seq<Mark>, clock: uint32, now: uint32)
    requires Represents(cache, idx, log, clock) && clock <= now
    ensures Represents(cache, idx, log, now)
  {
  }

  /** Scanning the ring is looking into the log. */
  lemma RingIsLog(cache: seq<SeenFrameEntry>, idx: nat, log: seq<Mark>, now: uint32, mac: Mac, sequence: uint16)
    requires Represents(cache, idx, log, now)
    ensures SeenRecently(log, mac, sequence, now) <==>
            exists s :: 0 <= s < SEEN_CACHE_SIZE && SlotHit(cache[s], mac, sequence, now)
  {
    if SeenRecently(log, mac, sequence, now) {
      var j :| 0 <= j < |log| && |log| - 32 <= j && IsFresh(log[j], mac, sequence, now);
      var s := j % 32;
      MarkOfRange(|log|, s, j);
      assert SlotMatches(cache[s], s, log, now);
      assert SlotHit(cache[s], mac, sequence, now);
    }
    if s :| 0 <= s < SEEN_CACHE_SIZE && SlotHit(cache[s], mac, sequence, now) {
      assert SlotMatches(cache[s], s, log, now);
      MarkOfRange(|log|, s, 0);
      assert IsFresh(log[MarkOf(|log|, s)], mac, sequence, now);
    }
  }

  /** Invalidating a slot of age 10 s or more, as the lookup and the sweep do, keeps the ring faithful. */
  lemma Invalidate(cache: seq<SeenFrameEntry>, idx: nat, log: seq<Mark>, now: uint32, s: nat)
    requires Represents(cache, idx, log, now)
    requires s < SEEN_CACHE_SIZE && (cache[s].valid ==> now - cache[s].timestamp >= SEEN_FRAME_TTL_MS)
    ensures Represents(cache[s := cache[s].(valid := false)], idx, log, now)
  {
  }

  lemma AddMark(cache: seq<SeenFrameEntry>, idx: nat, log: seq<Mark>, now: uint32, mac: Mac, sequence: uint16)
    requires Represents(cache, idx, log, now)
    ensures Represents(cache[idx := SeenFrameEntry(mac, sequence, now, true)], (idx + 1) % 32,
                       log + [Mark(mac, sequence, now)], now)
  {
  }

  /* ----- The broadcast filter over whole runs ----- */

  /** Two marks of one frame are 10 s apart or have at least 32 other marks between them. */
  ghost predicate NoEarlyRepeat(log: seq<Mark>)
  {
    forall i, j :: 0 <= i < j < |log| && log[i].mac == log[j].mac && log[i].sequence == log[j].sequence ==>
      log[j].time - log[i].time >= 10000 || j - i - 1 >= 32
  }

  function Filter(log: seq<Mark>, f: Mark): seq<Mark>
  {
    if SeenRecently(log, f.mac, f.sequence, f.time) then log else log + [f]
  }

  /** The frames that pass, in order of arrival. */
  function Passed(frames: seq<Mark>): seq<Mark>
  {
    if |frames| == 0 then [] else Filter(Passed(frames[..|frames| - 1]), frames[|frames| - 1])
  }

  lemma FilterKeepsNoEarlyRepeat(log: seq<Mark>, f: Mark)
    requires NoEarlyRepeat(log)
    ensures NoEarlyRepeat(Filter(log, f))
  {
  }

  /** Frame k of the stream either passes or repeats one that passed less than 10 s before. */
  ghost predicate DroppedOnlyAsRepeat(frames: seq<Mark>, k: nat)
    requires k < |frames|
  {
    var before := Passed(frames[..k]);
    || Filter(before, frames[k]) == before + [frames[k]]
    || exists m :: m in before && m.mac == frames[k].mac && m.sequence == frames[k].sequence
                   && frames[k].time - m.time < 10000
  }

  /**
   For every stream of broadcasts, the ones that pass the filter never repeat a
   (source, sequence) pair early, and a frame is dropped only as a repeat.
   */
  lemma {:induction false} BroadcastsPassOnce(frames: seq<Mark>)
    ensures NoEarlyRepeat(Passed(frames))
    ensures forall k :: 0 <= k < |frames| ==> DroppedOnlyAsRepeat(frames, k)
  {
    if |frames| > 0 {
      var n := |frames| - 1;
      BroadcastsPassOnce(frames[..n]);
      FilterKeepsNoEarlyRepeat(Passed(frames[..n]), frames[n]);
    }
    forall k | 0 <= k < |frames|
      ensures DroppedOnlyAsRepeat(frames, k)
    {
      var log, f := Passed(frames[..k]), frames[k];
      if SeenRecently(log, f.mac, f.sequence, f.time) {
        var j :| 0 <= j < |log| && |log| - 32 <= j && IsFresh(log[j], f.mac, f.sequence, f.time);
        assert log[j] in log;
      }
    }
  }
}
