/** Arithmetic modulo the NTT-friendly prime 998244353 = 119 * 2^23 + 1.

    A `ModInt` is the residue stored in the source's single private field
    `val`; the invariant `val < MOD` is carried by the type, so every place
    that builds a residue directly (without reducing) must prove it. Machine
    words are `usize`, assumed 64 bits wide. */
module Modint {

  const MOD: nat := 998244353
  const USIZE_LIMIT: nat := 0x1_0000_0000_0000_0000

  /** A 64-bit unsigned machine word. */
  type Usize = n: nat | n < USIZE_LIMIT

  /** A reduced residue modulo MOD. */
  type ModInt = v: nat | v < MOD

  /** `ModInt::new`: reduce an arbitrary word. */
  function New(n: Usize): (r: ModInt)
    ensures n < MOD ==> r == n
  {
    n % MOD
  }

  /** `ModInt::val`: the canonical integer value of a residue. */
  function Val(a: ModInt): (v: Usize)
    ensures v < MOD && New(v) == a
  {
    a
  }

  /** `+`: the sum of two residues, reduced. */
  function Add(a: ModInt, b: ModInt): (r: ModInt)
    ensures r == if a + b < MOD then a + b else a + b - MOD
  {
    New(a + b)
  }

  /** `-`: conditional `MOD + a - b`, which never goes negative. */
  function Sub(a: ModInt, b: ModInt): (r: ModInt)
    ensures Add(r, b) == a
  {
    if a >= b then a - b else MOD + a - b
  }

  /** r is congruent to the integer product a * b modulo MOD. */
  predicate IsProduct(a: ModInt, b: ModInt, r: ModInt)
  {
    (a * b - r) % MOD == 0
  }

  /** `*`: the full product fits a 64-bit word because both factors are
      below MOD, so reducing it with `%` loses nothing. */
  function Mul(a: ModInt, b: ModInt): (r: ModInt)
    ensures IsProduct(a, b, r)
  {
    ProductFitsWord(a, b);
    NewCongruent(a * b);
    New(a * b)
  }

  /** Negation, as `0 - a`. */
  function Neg(a: ModInt): (r: ModInt)
    ensures Add(a, r) == 0
  {
    Sub(0, a)
  }

  /** a^n, as the n-fold product: the reference definition that `Pow`
      computes by squaring. */
  function PowSpec(a: ModInt, n: nat): ModInt
  {
    if n == 0 then 1 else Mul(a, PowSpec(a, n - 1))
  }

  /** The inverse by Fermat's little theorem, a^(MOD-2). */
  function InvSpec(a: ModInt): ModInt
  {
    PowSpec(a, MOD - 2)
  }

  lemma ProductFitsWord(a: ModInt, b: ModInt)
    ensures a * b < USIZE_LIMIT
  {
    MulLeq(a, MOD, b, MOD);
  }

  lemma MulLeq(x: nat, x': nat, y: nat, y': nat)
    requires x <= x' && y <= y'
    ensures x * y <= x' * y'
  {
    assert x * y <= x * y' by { assert x * (y' - y) >= 0; }
    assert x * y' <= x' * y' by { assert (x' - x) * y' >= 0; }
  }

  /** `pow`: square-and-multiply; `res * x^k` stays equal to a^n. */
  method Pow(a: ModInt, n: Usize) returns (r: ModInt)
    ensures r == PowSpec(a, n)
  {
    var res := New(1);
    var x := a;
    var k := n;
    while k > 0
      invariant Mul(res, PowSpec(x, k)) == PowSpec(a, n)
      decreases k
    {
      PowSquare(x, k / 2);
      if k % 2 == 1 {
        calc {
          Mul(res, PowSpec(x, k));
          Mul(res, Mul(x, PowSpec(x, k - 1)));
          { MulAssoc(res, x, PowSpec(x, k - 1)); }
          Mul(Mul(res, x), PowSpec(Mul(x, x), k / 2));
        }
        res := MulAssign(res, x);
      }
      x := Mul(x, x);
      k := k / 2;
    }
    r := res;
  }

  /** `inv`: a^(MOD-2); zero has no inverse and yields zero. */
  method Inv(a: ModInt) returns (r: ModInt)
    ensures r == InvSpec(a)
    ensures a == 0 ==> r == 0
  {
    r := Pow(a, MOD - 2);
  }

  /** `/`: multiplication by the inverse of the divisor. */
  method Div(a: ModInt, b: ModInt) returns (r: ModInt)
    ensures r == Mul(a, InvSpec(b))
    ensures b == 0 ==> r == 0
  {
    var i := Inv(b);
    r := Mul(a, i);
  }

  /** `+=`: the new value of the left operand. */
  method AddAssign(lhs: ModInt, other: ModInt) returns (updated: ModInt)
    ensures updated == Add(lhs, other)
    ensures Sub(updated, other) == lhs
  {
    updated := Add(lhs, other);
  }

  /** `-=`: the new value of the left operand. */
  method SubAssign(lhs: ModInt, other: ModInt) returns (updated: ModInt)
    ensures updated == Sub(lhs, other)
    ensures Add(updated, other) == lhs
  {
    updated := Sub(lhs, other);
  }

  /** `*=`: the new value of the left operand. */
  method MulAssign(lhs: ModInt, other: ModInt) returns (updated: ModInt)
    ensures updated == Mul(lhs, other)
  {
    updated := Mul(lhs, other);
  }

  /** `/=`: the new value of the left operand. */
  method DivAssign(lhs: ModInt, other: ModInt) returns (updated: ModInt)
    ensures updated == Mul(lhs, InvSpec(other))
    ensures other == 0 ==> updated == 0
  {
    updated := Div(lhs, other);
  }

  // ---------------------------------------------------------------------
  // Congruence facts on integers

  lemma ModMultiple(k: int, z: int)
    ensures (MOD * k + z) % MOD == z % MOD
  {
  }

  lemma MulModLeft(x: int, y: int)
    ensures ((x % MOD) * y) % MOD == (x * y) % MOD
  {
    var q, r := x / MOD, x % MOD;
    assert x == MOD * q + r;
    assert x * y == MOD * (q * y) + r * y by {
      assert (MOD * q + r) * y == MOD * (q * y) + r * y;
    }
    ModMultiple(q * y, r * y);
  }

  lemma MulModRight(x: int, y: int)
    ensures (x * (y % MOD)) % MOD == (x * y) % MOD
  {
    MulModLeft(y, x);
    assert x * (y % MOD) == (y % MOD) * x;
    assert x * y == y * x;
  }

  // ---------------------------------------------------------------------
  // Ring laws

  lemma MulComm(a: ModInt, b: ModInt)
    ensures Mul(a, b) == Mul(b, a)
  {
    assert a * b == b * a;
  }

  lemma MulAssoc(a: ModInt, b: ModInt, c: ModInt)
    ensures Mul(Mul(a, b), c) == Mul(a, Mul(b, c))
  {
    MulModLeft(a * b, c);
    MulModRight(a, b * c);
    assert (a * b) * c == a * (b * c);
  }

  lemma MulOne(a: ModInt)
    ensures Mul(a, 1) == a && Mul(1, a) == a
  {
  }

  /** Doubling below the modulus is exact. */
  lemma MulTwo(a: ModInt)
    requires a + a < MOD
    ensures Mul(a, 2) == a + a
  {
  }

  lemma MulZero(a: ModInt)
    ensures Mul(a, 0) == 0 && Mul(0, a) == 0
  {
  }

  lemma AddComm(a: ModInt, b: ModInt)
    ensures Add(a, b) == Add(b, a)
  {
  }

  lemma AddAssoc(a: ModInt, b: ModInt, c: ModInt)
    ensures Add(Add(a, b), c) == Add(a, Add(b, c))
  {
  }

  lemma AddZero(a: ModInt)
    ensures Add(a, 0) == a && Add(0, a) == a
  {
  }

  /** `new` keeps the congruence class of its argument. */
  lemma NewCongruent(n: Usize)
    ensures (n - New(n)) % MOD == 0
  {
  }

  /** The conditional `MOD + a - b` is the integer difference reduced. */
  lemma SubAsMod(a: ModInt, b: ModInt)
    ensures Sub(a, b) == (a - b) % MOD
  {
  }

  /** The product residue is congruent to the integer product. */
  lemma MulAddDistrib(a: ModInt, b: ModInt, c: ModInt)
    ensures Mul(a, Add(b, c)) == Add(Mul(a, b), Mul(a, c))
  {
    var x, y := a * b, a * c;
    calc {
      Mul(a, Add(b, c));
      (a * ((b + c) % MOD)) % MOD;
      { MulModRight(a, b + c); }
      (a * (b + c)) % MOD;
      { assert a * (b + c) == x + y; }
      (x + y) % MOD;
      { AddMod(x, y); }
      (x % MOD + y % MOD) % MOD;
      Add(Mul(a, b), Mul(a, c));
    }
  }

  lemma AddMod(x: int, y: int)
    ensures (x % MOD + y % MOD) % MOD == (x + y) % MOD
  {
    assert x + y == MOD * (x / MOD + y / MOD) + (x % MOD + y % MOD);
    ModMultiple(x / MOD + y / MOD, x % MOD + y % MOD);
  }

  lemma MulSubDistrib(a: ModInt, b: ModInt, c: ModInt)
    ensures Mul(a, Sub(b, c)) == Sub(Mul(a, b), Mul(a, c))
  {
    // a*(b-c) + a*c == a*b, so the difference is the unique solution.
    var d := Sub(b, c);
    assert Add(d, c) == b;
    MulAddDistrib(a, d, c);
    SubUnique(Mul(a, b), Mul(a, c), Mul(a, d));
  }

  /** Sub(x, y) is the only residue d with Add(d, y) == x. */
  lemma SubUnique(x: ModInt, y: ModInt, d: ModInt)
    requires Add(d, y) == x
    ensures Sub(x, y) == d
  {
  }

  lemma SubAsAddNeg(a: ModInt, b: ModInt)
    ensures Sub(a, b) == Add(a, Neg(b))
  {
  }

  lemma SubSelf(a: ModInt)
    ensures Sub(a, a) == 0
  {
  }

  // ---------------------------------------------------------------------
  // Powers

  lemma {:induction false} PowAdd(a: ModInt, m: nat, n: nat)
    ensures PowSpec(a, m + n) == Mul(PowSpec(a, m), PowSpec(a, n))
    decreases m
  {
    if m == 0 {
      MulOne(PowSpec(a, n));
    } else {
      PowAdd(a, m - 1, n);
      MulAssoc(a, PowSpec(a, m - 1), PowSpec(a, n));
    }
  }

  lemma {:induction false} PowOfProduct(a: ModInt, b: ModInt, n: nat)
    ensures PowSpec(Mul(a, b), n) == Mul(PowSpec(a, n), PowSpec(b, n))
  {
    if n > 0 {
      PowOfProduct(a, b, n - 1);
      var pa, pb := PowSpec(a, n - 1), PowSpec(b, n - 1);
      calc {
        PowSpec(Mul(a, b), n);
        Mul(Mul(a, b), Mul(pa, pb));
        { MulAssoc(a, b, Mul(pa, pb)); }
        Mul(a, Mul(b, Mul(pa, pb)));
        { MulAssoc(b, pa, pb); MulComm(b, pa); MulAssoc(pa, b, pb); }
        Mul(a, Mul(pa, Mul(b, pb)));
        { MulAssoc(a, pa, Mul(b, pb)); }
        Mul(PowSpec(a, n), PowSpec(b, n));
      }
    }
  }

  lemma {:induction false} PowOfPow(a: ModInt, m: nat, n: nat)
    ensures PowSpec(a, m * n) == PowSpec(PowSpec(a, m), n)
  {
    if n > 0 {
      var j := n - 1;
      PowOfPow(a, m, j);
      PowOfPowStep(a, m, n, j);
    }
  }

  /** PowOfPow from exponent j to n == j + 1. */
  lemma {:induction false} PowOfPowStep(a: ModInt, m: nat, n: nat, j: nat)
    requires n == j + 1 && PowSpec(a, m * j) == PowSpec(PowSpec(a, m), j)
    ensures PowSpec(a, m * n) == PowSpec(PowSpec(a, m), n)
  {
    MulSucc(m, j, n);
    PowStep(a, PowSpec(a, m), m, m * j, m * n, n, j);
  }

  /** PowOfPowStep with the exponents as plain numbers: e == m + k. */
  lemma {:induction false} PowStep(a: ModInt, b: ModInt, m: nat, k: nat, e: nat, n: nat, j: nat)
    requires e == m + k && n == j + 1 && b == PowSpec(a, m) && PowSpec(a, k) == PowSpec(b, j)
    ensures PowSpec(a, e) == PowSpec(b, n)
  {
    PowAdd(a, m, k);
    MulComm(PowSpec(a, m), PowSpec(a, k));
  }

  lemma MulSucc(m: nat, j: nat, n: nat)
    requires n == j + 1
    ensures m * n == m + m * j
  {
  }

  lemma PowSquare(a: ModInt, k: nat)
    ensures PowSpec(Mul(a, a), k) == PowSpec(a, 2 * k)
  {
    PowOfProduct(a, a, k);
    PowAdd(a, k, k);
  }

  lemma {:induction false} PowOne(n: nat)
    ensures PowSpec(1, n) == 1
  {
    if n > 0 {
      PowOne(n - 1);
    }
  }

  lemma AddSwapMiddle(a: ModInt, b: ModInt, c: ModInt, d: ModInt)
    ensures Add(Add(a, b), Add(c, d)) == Add(Add(a, c), Add(b, d))
  {
    AddAssoc(a, b, Add(c, d));
    AddAssoc(b, c, d);
    AddComm(b, c);
    AddAssoc(c, b, d);
    AddAssoc(a, c, Add(b, d));
  }

  lemma MulSwapMiddle(a: ModInt, b: ModInt, c: ModInt, d: ModInt)
    ensures Mul(Mul(a, b), Mul(c, d)) == Mul(Mul(a, c), Mul(b, d))
  {
    calc {
      Mul(Mul(a, b), Mul(c, d));
      { MulAssoc(a, b, Mul(c, d)); }
      Mul(a, Mul(b, Mul(c, d)));
      { MulAssoc(b, c, d); MulComm(b, c); MulAssoc(c, b, d); }
      Mul(a, Mul(c, Mul(b, d)));
      { MulAssoc(a, c, Mul(b, d)); }
      Mul(Mul(a, c), Mul(b, d));
    }
  }

  /** Multiplying by MOD - 1 negates. */
  lemma MulMinusOne(a: ModInt)
    ensures Mul(MOD - 1, a) == Neg(a)
  {
    var x: int := a;
    assert (MOD - 1) * x == MOD * x + (-x);
    ModMultiple(x, -x);
  }

  /** The product of two negations is the product. */
  lemma MulNegNeg(a: ModInt, b: ModInt)
    ensures Mul(Neg(a), Neg(b)) == Mul(a, b)
  {
    MulMinusOne(a);
    MulMinusOne(b);
    MulSwapMiddle(MOD - 1, a, MOD - 1, b);
    assert Mul(MOD - 1, MOD - 1) == 1;
    MulOne(Mul(a, b));
  }

  lemma MulAddDistribRight(a: ModInt, b: ModInt, c: ModInt)
    ensures Mul(Add(a, b), c) == Add(Mul(a, c), Mul(b, c))
  {
    MulComm(Add(a, b), c);
    MulAddDistrib(c, a, b);
    MulComm(a, c);
    MulComm(b, c);
  }

  /** Subtracting a product is adding the product with the negated factor. */
  lemma SubMulNeg(a: ModInt, b: ModInt, c: ModInt)
    ensures Sub(a, Mul(b, c)) == Add(a, Mul(b, Neg(c)))
  {
    MulMinusOne(c);
    MulMinusOne(Mul(b, c));
    calc {
      Mul(b, Neg(c));
      Mul(b, Mul(MOD - 1, c));
      { MulAssoc(b, MOD - 1, c); MulComm(b, MOD - 1); MulAssoc(MOD - 1, b, c); }
      Mul(MOD - 1, Mul(b, c));
    }
    SubAsAddNeg(a, Mul(b, c));
  }

  /** The sum of the two butterfly outputs l + x and l - x is 2l. */
  lemma ButterflySum(l: ModInt, x: ModInt)
    ensures Add(Add(l, x), Sub(l, x)) == Mul(2, l)
  {
  }

  /** The difference of the two butterfly outputs l + x and l - x is 2x. */
  lemma ButterflyDifference(l: ModInt, x: ModInt)
    ensures Sub(Add(l, x), Sub(l, x)) == Mul(2, x)
  {
  }

  /** A factor with an inverse can be cancelled. */
  lemma MulCancel(x: ModInt, y: ModInt, p: ModInt, q: ModInt)
    requires Mul(p, q) == 1 && Mul(x, p) == Mul(y, p)
    ensures x == y
  {
    calc {
      x;
      { MulOne(x); }
      Mul(x, Mul(p, q));
      { MulAssoc(x, p, q); }
      Mul(Mul(y, p), q);
      { MulAssoc(y, p, q); MulOne(y); }
      y;
    }
  }
}
