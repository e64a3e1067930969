/** Machine integers, MAC addresses and the first-match search that every slot table of the mesh uses. */
module MeshTypes {

  const UINT32_MAX: int := 0xFFFF_FFFF
  const KEY_SIZE: nat := 16

  type uint8 = x: int | 0 <= x < 0x100
  type uint16 = x: int | 0 <= x < 0x1_0000
  type uint32 = x: int | 0 <= x < 0x1_0000_0000
  type Bytes = seq<uint8>

  datatype Option<+T> = None | Some(value: T)

  /** Six bytes; equality of values is `memcmp(...) == 0` in the source. */
  datatype Mac = Mac(b0: uint8, b1: uint8, b2: uint8, b3: uint8, b4: uint8, b5: uint8) {
    function Octets(): (r: Bytes)
    {
      [b0, b1, b2, b3, b4, b5]
    }
  }

  /** `memcmp(a, b, 6) < 0`. */
  predicate MacLess(a: Mac, b: Mac)
  {
    BytesLess(a.Octets(), b.Octets())
  }

  predicate BytesLess(a: Bytes, b: Bytes)
    requires |a| == |b|
  {
    |a| > 0 && (a[0] < b[0] || (a[0] == b[0] && BytesLess(a[1..], b[1..])))
  }

  lemma {:induction false} BytesLessTotal(a: Bytes, b: Bytes)
    requires |a| == |b|
    ensures BytesLess(a, b) || BytesLess(b, a) || a == b
    ensures !(BytesLess(a, b) && BytesLess(b, a))
  {
    if |a| > 0 {
      BytesLessTotal(a[1..], b[1..]);
      assert a == [a[0]] + a[1..] && b == [b[0]] + b[1..];
    }
  }

  /** 256^n */
  function Weight(n: nat): (r: nat)
    ensures r > 0
  {
    if n == 0 then 1 else 0x100 * Weight(n - 1)
  }

  /** The bytes as one big-endian number. */
  function BigEndian(a: Bytes): nat
  {
    if |a| == 0 then 0 else a[0] * Weight(|a| - 1) + BigEndian(a[1..])
  }

  lemma {:induction false} BigEndianBound(a: Bytes)
    ensures BigEndian(a) < Weight(|a|)
  {
    if |a| > 0 {
      BigEndianBound(a[1..]);
      Scaled(a[0], 0x100, Weight(|a| - 1));
    }
  }

  lemma Scaled(a: nat, b: nat, w: nat)
    requires a < b
    ensures a * w + w <= b * w
  {
    assert (a + 1) * w <= b * w;
  }

  /** Comparing the bytes in turn is comparing the numbers. */
  lemma {:induction false} BytesLessIsNumeric(a: Bytes, b: Bytes)
    requires |a| == |b|
    ensures BytesLess(a, b) <==> BigEndian(a) < BigEndian(b)
  {
    if |a| > 0 {
      BytesLessIsNumeric(a[1..], b[1..]);
      BigEndianBound(a[1..]);
      BigEndianBound(b[1..]);
      if a[0] < b[0] {
        Scaled(a[0], b[0], Weight(|a| - 1));
      } else if b[0] < a[0] {
        Scaled(b[0], a[0], Weight(|a| - 1));
      }
    }
  }

  /** Index of the first element satisfying p, or |s| when there is none. */
  function FirstIndex<T>(s: seq<T>, p: T -> bool): (r: nat)
    ensures r <= |s|
    ensures forall j :: 0 <= j < r ==> !p(s[j])
    ensures r < |s| ==> p(s[r])
  {
    if |s| == 0 then 0
    else if p(s[0]) then 0
    else 1 + FirstIndex(s[1..], p)
  }

  lemma FirstIndexUnique<T>(s: seq<T>, p: T -> bool, r: nat)
    requires r <= |s|
    requires forall j :: 0 <= j < r ==> !p(s[j])
    requires r < |s| ==> p(s[r])
    ensures FirstIndex(s, p) == r
  {
  }

  /** Slot and time found by a scan for the smallest time among the first n slots, as the source does it. */
  function OldestScan<T>(s: seq<T>, time: T -> uint32, n: nat): (r: (nat, nat))
    requires n <= |s|
    ensures r.0 < n || r.0 == 0
    ensures r.1 <= UINT32_MAX
  {
    if n == 0 then (0, UINT32_MAX)
    else
      var r := OldestScan(s, time, n - 1);
      if time(s[n - 1]) < r.1 then (n - 1, time(s[n - 1])) else r
  }

  lemma {:induction false} OldestIsMinimal<T>(s: seq<T>, time: T -> uint32, n: nat)
    requires n <= |s|
    ensures var (c, t) := OldestScan(s, time, n);
            && (t == UINT32_MAX ==> c == 0)
            && (n > 0 ==> c < n && time(s[c]) == t)
            && (forall j :: 0 <= j < n ==> t <= time(s[j]))
  {
    if n > 0 { OldestIsMinimal(s, time, n - 1); }
  }

  /** Number of elements satisfying p. */
  function Count<T>(s: seq<T>, p: T -> bool): (r: nat)
    ensures r <= |s|
  {
    if |s| == 0 then 0 else Count(s[..|s| - 1], p) + (if p(s[|s| - 1]) then 1 else 0)
  }

  lemma {:induction false} CountUpdate<T>(s: seq<T>, p: T -> bool, i: nat, e: T)
    requires i < |s|
    ensures Count(s[i := e], p) == Count(s, p) - (if p(s[i]) then 1 else 0) + (if p(e) then 1 else 0)
  {
    var n := |s| - 1;
    if i == n {
      assert s[i := e][..n] == s[..n];
    } else {
      assert s[i := e][..n] == s[..n][i := e];
      CountUpdate(s[..n], p, i, e);
    }
  }

  lemma {:induction false} CountExtremes<T>(s: seq<T>, p: T -> bool)
    ensures Count(s, p) == |s| <==> forall i :: 0 <= i < |s| ==> p(s[i])
    ensures Count(s, p) == 0 <==> forall i :: 0 <= i < |s| ==> !p(s[i])
  {
    if |s| > 0 {
      var n := |s| - 1;
      CountExtremes(s[..n], p);
      assert forall i :: 0 <= i < n ==> s[..n][i] == s[i];
    }
  }
}
