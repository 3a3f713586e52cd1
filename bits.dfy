/** The word-level bit operations the transform relies on: `1 << k`,
    `n.trailing_zeros()`, `(!s).trailing_zeros()` (the trailing one bits of
    `s`) and `n.next_power_of_two()`, stated on unbounded naturals. */
module Bits {

  /** `1 << k`. */
  function Pow2(k: nat): (r: nat)
    ensures r >= 1
  {
    if k == 0 then 1 else 2 * Pow2(k - 1)
  }

  /** `(!s).trailing_zeros()`: the number of trailing one bits of `s`. */
  function TrailingOnes(s: nat): nat
  {
    if s % 2 == 1 then 1 + TrailingOnes(s / 2) else 0
  }

  /** `n.trailing_zeros()` for a nonzero `n`. */
  function TrailingZeros(n: nat): nat
    requires n > 0
  {
    if n % 2 == 1 then 0 else 1 + TrailingZeros(n / 2)
  }

  /** The exponent of `next_power_of_two`: the least k with 2^k >= n. */
  function CeilLog2(n: nat): nat
  {
    if n <= 1 then 0 else 1 + CeilLog2((n + 1) / 2)
  }

  /** `n.next_power_of_two()`: the least power of two that is at least `n`
      (so 1 for 0 and 1). */
  function NextPowerOfTwo(n: nat): (t: nat)
    ensures t == Pow2(CeilLog2(n)) && t >= n
  {
    CeilLog2Bound(n);
    Pow2(CeilLog2(n))
  }

  lemma {:induction false} Pow2Add(a: nat, b: nat)
    ensures Pow2(a + b) == Pow2(a) * Pow2(b)
  {
    if a > 0 {
      Pow2Add(a - 1, b);
    }
  }

  /** One more doubling. */
  lemma Pow2Double(a: nat, b: nat)
    requires b == a + 1
    ensures Pow2(b) == Pow2(a) + Pow2(a)
  {
  }

  lemma {:induction false} Pow2Monotone(a: nat, b: nat)
    requires a <= b
    ensures Pow2(a) <= Pow2(b)
  {
    if a < b {
      Pow2Monotone(a, b - 1);
    }
  }

  lemma {:induction false} CeilLog2Bound(n: nat)
    ensures Pow2(CeilLog2(n)) >= n
  {
    if n > 1 {
      CeilLog2Bound((n + 1) / 2);
    }
  }

  /** `next_power_of_two` is least: every power of two at least `n` is at
      least the result. */
  lemma {:induction false} NextPowerOfTwoLeast(n: nat, k: nat)
    requires Pow2(k) >= n
    ensures CeilLog2(n) <= k && NextPowerOfTwo(n) <= Pow2(k)
  {
    if n > 1 {
      assert k > 0;
      NextPowerOfTwoLeast((n + 1) / 2, k - 1);
      Pow2Monotone(CeilLog2(n), k);
    }
  }

  /** `trailing_zeros` recovers the exponent of a power of two. */
  lemma {:induction false} TrailingZerosOfPow2(k: nat)
    ensures TrailingZeros(Pow2(k)) == k
  {
    if k > 0 {
      TrailingZerosOfPow2(k - 1);
      assert Pow2(k) / 2 == Pow2(k - 1);
    }
  }

  /** Below 2^L there are at most L trailing ones, and the only value
      with exactly L of them is 2^L - 1. */
  lemma {:induction false} TrailingOnesBound(s: nat, L: nat)
    requires s < Pow2(L)
    ensures TrailingOnes(s) <= L
    ensures s + 1 < Pow2(L) ==> TrailingOnes(s) < L
  {
    if s % 2 == 1 {
      assert L > 0;
      TrailingOnesBound(s / 2, L - 1);
    }
  }

  /** 2^L - 1 has exactly L trailing ones. */
  lemma {:induction false} TrailingOnesOfMask(L: nat)
    ensures TrailingOnes(Pow2(L) - 1) == L
  {
    if L > 0 {
      TrailingOnesOfMask(L - 1);
      assert (Pow2(L) - 1) / 2 == Pow2(L - 1) - 1;
    }
  }

  /** A power of two: 1, 2, 4, ... */
  predicate IsPowerOfTwo(n: nat)
  {
    n == 1 || (n > 1 && n % 2 == 0 && IsPowerOfTwo(n / 2))
  }

  /** For a power of two, `trailing_zeros` is its exponent. */
  lemma {:induction false} PowerOfTwoExponent(n: nat)
    requires IsPowerOfTwo(n)
    ensures n > 0 && Pow2(TrailingZeros(n)) == n
  {
    if n > 1 {
      PowerOfTwoExponent(n / 2);
    }
  }

  lemma {:induction false} Pow2IsPowerOfTwo(k: nat)
    ensures IsPowerOfTwo(Pow2(k))
  {
    if k > 0 {
      Pow2IsPowerOfTwo(k - 1);
      assert Pow2(k) / 2 == Pow2(k - 1);
    }
  }
}
