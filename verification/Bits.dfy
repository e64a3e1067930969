/** Bitwise OR and XOR of non-negative integers: the source builds masks and scores, and confirms nonces, with them. */
module Bits {

  function Pow2(k: nat): (r: nat)
    ensures r > 0
  {
    if k == 0 then 1 else 2 * Pow2(k - 1)
  }

  predicate Bit(m: nat, k: nat)
  {
    if k == 0 then m % 2 == 1 else Bit(m / 2, k - 1)
  }

  /** a | b */
  function BitOr(a: nat, b: nat): nat
    decreases a + b
  {
    if a == 0 && b == 0 then 0
    else 2 * BitOr(a / 2, b / 2) + (if a % 2 == 1 || b % 2 == 1 then 1 else 0)
  }

  lemma BitOrHalves(a: nat, b: nat)
    ensures BitOr(a, b) / 2 == BitOr(a / 2, b / 2)
    ensures BitOr(a, b) % 2 == 1 <==> a % 2 == 1 || b % 2 == 1
  {
  }

  lemma {:induction false} BitOrBits(a: nat, b: nat, k: nat)
    ensures Bit(BitOr(a, b), k) <==> Bit(a, k) || Bit(b, k)
    decreases k
  {
    if a == 0 && b == 0 {
      ZeroBits(k);
    } else if k > 0 {
      BitOrHalves(a, b);
      BitOrBits(a / 2, b / 2, k - 1);
    } else {
      BitOrHalves(a, b);
    }
  }

  lemma {:induction false} ZeroBits(k: nat)
    ensures !Bit(0, k)
  {
    if k > 0 { ZeroBits(k - 1); }
  }

  /** 1 << k has exactly bit k. */
  lemma {:induction false} ShiftedOneBits(k: nat, j: nat)
    ensures Bit(Pow2(k), j) <==> j == k
    decreases k
  {
    if k == 0 {
      if j > 0 { ZeroBits(j - 1); }
    } else if j > 0 {
      ShiftedOneBits(k - 1, j - 1);
    }
  }

  /** (1 << n) - 1 has exactly the bits below n. */
  lemma {:induction false} LowMaskBits(n: nat, j: nat)
    ensures Bit(Pow2(n) - 1, j) <==> j < n
    decreases n
  {
    if n == 0 {
      ZeroBits(j);
    } else {
      assert (Pow2(n) - 1) / 2 == Pow2(n - 1) - 1;
      if j > 0 { LowMaskBits(n - 1, j - 1); }
    }
  }

  /** Two masks below 2^n are equal exactly when their low n bits agree. */
  lemma {:induction false} MaskExtensional(a: nat, b: nat, n: nat)
    requires a < Pow2(n) && b < Pow2(n)
    requires forall k :: 0 <= k < n ==> (Bit(a, k) <==> Bit(b, k))
    ensures a == b
    decreases n
  {
    if n > 0 {
      assert Bit(a, 0) <==> Bit(b, 0);
      forall k | 0 <= k < n - 1
        ensures Bit(a / 2, k) <==> Bit(b / 2, k)
      {
        assert Bit(a, k + 1) <==> Bit(b, k + 1);
      }
      MaskExtensional(a / 2, b / 2, n - 1);
    }
  }

  lemma {:induction false} BitOrBound(a: nat, b: nat, n: nat)
    requires a < Pow2(n) && b < Pow2(n)
    ensures BitOr(a, b) < Pow2(n)
    decreases n
  {
    if n > 0 {
      BitOrBound(a / 2, b / 2, n - 1);
    }
  }

  /** (h << k) | x is h * 2^k + x when x fits below bit k: the OR loses nothing. */
  lemma {:induction false} BitOrDisjoint(h: nat, k: nat, x: nat)
    requires x < Pow2(k)
    ensures BitOr(h * Pow2(k), x) == h * Pow2(k) + x
    decreases k
  {
    if k == 0 {
      BitOrZero(h);
    } else {
      var half := h * Pow2(k - 1);
      assert h * Pow2(k) == 2 * half;
      BitOrDisjoint(h, k - 1, x / 2);
      assert (2 * half) / 2 == half;
    }
  }

  lemma {:induction false} BitOrZero(a: nat)
    ensures BitOr(a, 0) == a
  {
    if a > 0 { BitOrZero(a / 2); }
  }

  /** a ^ b */
  function BitXor(a: nat, b: nat): nat
    decreases a + b
  {
    if a == 0 && b == 0 then 0
    else 2 * BitXor(a / 2, b / 2) + (if a % 2 != b % 2 then 1 else 0)
  }

  lemma {:induction false} BitXorBound(a: nat, b: nat, n: nat)
    requires a < Pow2(n) && b < Pow2(n)
    ensures BitXor(a, b) < Pow2(n)
    decreases n
  {
    if n > 0 { BitXorBound(a / 2, b / 2, n - 1); }
  }

  lemma BitXorHalves(a: nat, b: nat)
    ensures BitXor(a, b) / 2 == BitXor(a / 2, b / 2)
    ensures BitXor(a, b) % 2 == 1 <==> a % 2 != b % 2
  {
  }

  lemma {:induction false} BitXorBits(a: nat, b: nat, k: nat)
    ensures Bit(BitXor(a, b), k) <==> (Bit(a, k) != Bit(b, k))
    decreases k
  {
    BitXorHalves(a, b);
    if k > 0 { BitXorBits(a / 2, b / 2, k - 1); }
  }
}
