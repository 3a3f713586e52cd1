/** Coefficient sequences read as polynomials over the residues: Horner
    evaluation, zero padding (`resize`), the element-wise butterfly
    combinations and the schoolbook product that `conv` must compute. */
module Poly {
  import opened Modint

  /** x[0] + e * x[1] + e^2 * x[2] + ..., by Horner's rule. */
  function Eval(x: seq<ModInt>, e: ModInt): ModInt
  {
    if |x| == 0 then 0 else Add(x[0], Mul(e, Eval(x[1..], e)))
  }

  /** n zero residues. */
  function Zeros(n: nat): (z: seq<ModInt>)
    ensures |z| == n && forall k :: 0 <= k < n ==> z[k] == 0
  {
    seq(n, k => 0)
  }

  /** `x.resize(n, 0)`: cut to n entries, or extend with zeros. */
  function Resize(x: seq<ModInt>, n: nat): (r: seq<ModInt>)
    ensures |r| == n
    ensures forall k :: 0 <= k < n ==> r[k] == if k < |x| then x[k] else 0
  {
    seq(n, k requires 0 <= k < n => if k < |x| then x[k] else 0)
  }

  /** u[i] + v[i] * c for each i: the left output of a forward butterfly
      with twiddle c. */
  function Butterfly(u: seq<ModInt>, v: seq<ModInt>, c: ModInt): (r: seq<ModInt>)
    requires |u| == |v|
    ensures |r| == |u|
  {
    seq(|u|, i requires 0 <= i < |u| => Add(u[i], Mul(v[i], c)))
  }

  /** u[i] - v[i] * c for each i: the right output of a forward butterfly. */
  function ButterflyMinus(u: seq<ModInt>, v: seq<ModInt>, c: ModInt): (r: seq<ModInt>)
    requires |u| == |v|
    ensures |r| == |u|
  {
    seq(|u|, i requires 0 <= i < |u| => Sub(u[i], Mul(v[i], c)))
  }

  /** u[i] + v[i] for each i: the left output of an inverse butterfly. */
  function Sums(u: seq<ModInt>, v: seq<ModInt>): (r: seq<ModInt>)
    requires |u| == |v|
    ensures |r| == |u|
  {
    seq(|u|, i requires 0 <= i < |u| => Add(u[i], v[i]))
  }

  /** u[i] * v[i] for each i: the entrywise product of two transforms. */
  function Products(u: seq<ModInt>, v: seq<ModInt>): (r: seq<ModInt>)
    requires |u| == |v|
    ensures |r| == |u|
  {
    seq(|u|, i requires 0 <= i < |u| => Mul(u[i], v[i]))
  }

  /** (u[i] - v[i]) * c for each i: the right output of an inverse
      butterfly with twiddle c. */
  function ScaledDifferences(u: seq<ModInt>, v: seq<ModInt>, c: ModInt): (r: seq<ModInt>)
    requires |u| == |v|
    ensures |r| == |u|
  {
    seq(|u|, i requires 0 <= i < |u| => Mul(Sub(u[i], v[i]), c))
  }

  /** Every entry multiplied by c. */
  function Scale(c: ModInt, y: seq<ModInt>): (r: seq<ModInt>)
    ensures |r| == |y| && forall k :: 0 <= k < |y| ==> r[k] == Mul(c, y[k])
  {
    seq(|y|, k requires 0 <= k < |y| => Mul(c, y[k]))
  }

  /** Coefficient j of b, zero outside its range. */
  function Coef(b: seq<ModInt>, j: int): ModInt
  {
    if 0 <= j < |b| then b[j] else 0
  }

  /** The sum of a[i] * b[k - i] over all i: coefficient k of the product
      of the polynomials a and b. */
  function CoefSum(a: seq<ModInt>, b: seq<ModInt>, k: int): ModInt
  {
    if |a| == 0 then 0 else Add(Mul(a[0], Coef(b, k)), CoefSum(a[1..], b, k - 1))
  }

  /** The first n coefficients of the product of a and b. */
  function ProductPrefix(a: seq<ModInt>, b: seq<ModInt>, n: nat): (c: seq<ModInt>)
    ensures |c| == n && forall k :: 0 <= k < n ==> c[k] == CoefSum(a, b, k)
  {
    seq(n, k => CoefSum(a, b, k))
  }

  // ---------------------------------------------------------------------
  // Evaluation lemmas

  /** Splitting a coefficient sequence: the second part is shifted by e^|u|. */
  lemma {:induction false} EvalAppend(u: seq<ModInt>, v: seq<ModInt>, e: ModInt)
    ensures Eval(u + v, e) == Add(Eval(u, e), Mul(PowSpec(e, |u|), Eval(v, e)))
  {
    if |u| == 0 {
      assert u + v == v;
      MulOne(Eval(v, e));
      AddZero(Eval(v, e));
    } else {
      assert (u + v)[1..] == u[1..] + v;
      EvalAppend(u[1..], v, e);
      var u', ev := Eval(u[1..], e), Eval(v, e);
      var q := PowSpec(e, |u| - 1);
      calc {
        Eval(u + v, e);
        Add(u[0], Mul(e, Add(u', Mul(q, ev))));
        { MulAddDistrib(e, u', Mul(q, ev)); }
        Add(u[0], Add(Mul(e, u'), Mul(e, Mul(q, ev))));
        { AddAssoc(u[0], Mul(e, u'), Mul(e, Mul(q, ev))); }
        Add(Add(u[0], Mul(e, u')), Mul(e, Mul(q, ev)));
        { MulAssoc(e, q, ev); }
        Add(Eval(u, e), Mul(PowSpec(e, |u|), ev));
      }
    }
  }

  lemma {:induction false} EvalZeros(n: nat, e: ModInt)
    ensures Eval(Zeros(n), e) == 0
  {
    if n > 0 {
      assert Zeros(n)[1..] == Zeros(n - 1);
      EvalZeros(n - 1, e);
      MulZero(e);
    }
  }

  /** Zero padding does not change the value of a polynomial. */
  lemma EvalResize(x: seq<ModInt>, n: nat, e: ModInt)
    requires n >= |x|
    ensures Eval(Resize(x, n), e) == Eval(x, e)
  {
    assert Resize(x, n) == x + Zeros(n - |x|);
    EvalAppend(x, Zeros(n - |x|), e);
    EvalZeros(n - |x|, e);
    MulZero(PowSpec(e, |x|));
    AddZero(Eval(x, e));
  }

  /** A single coefficient evaluates to itself. */
  lemma EvalSingle(c: ModInt, e: ModInt)
    ensures Eval([c], e) == c
  {
    assert [c][1..] == [];
    MulZero(e);
    AddZero(c);
  }

  /** Horner step of a butterfly: the combination of two evaluated heads. */
  lemma HornerCombine(u0: ModInt, v0: ModInt, c: ModInt, e: ModInt, u: ModInt, v: ModInt)
    ensures Add(Add(u0, Mul(v0, c)), Mul(e, Add(u, Mul(c, v))))
         == Add(Add(u0, Mul(e, u)), Mul(c, Add(v0, Mul(e, v))))
  {
    MulAddDistrib(e, u, Mul(c, v));
    MulAddDistrib(c, v0, Mul(e, v));
    MulComm(v0, c);
    MulAssoc(e, c, v);
    MulComm(e, c);
    MulAssoc(c, e, v);
    AddSwapMiddle(u0, Mul(v0, c), Mul(e, u), Mul(e, Mul(c, v)));
  }

  /** Evaluation is linear: the left butterfly output evaluates to
      Eval(u) + c * Eval(v). */
  lemma {:induction false} EvalButterfly(u: seq<ModInt>, v: seq<ModInt>, c: ModInt, e: ModInt)
    requires |u| == |v|
    ensures Eval(Butterfly(u, v, c), e) == Add(Eval(u, e), Mul(c, Eval(v, e)))
  {
    if |u| == 0 {
      MulZero(c);
    } else {
      assert Butterfly(u, v, c)[1..] == Butterfly(u[1..], v[1..], c);
      EvalButterfly(u[1..], v[1..], c, e);
      HornerCombine(u[0], v[0], c, e, Eval(u[1..], e), Eval(v[1..], e));
    }
  }

  /** The right butterfly output is the left one with the twiddle negated. */
  lemma EvalButterflyMinus(u: seq<ModInt>, v: seq<ModInt>, c: ModInt, e: ModInt)
    requires |u| == |v|
    ensures Eval(ButterflyMinus(u, v, c), e) == Add(Eval(u, e), Mul(Neg(c), Eval(v, e)))
  {
    forall i | 0 <= i < |u|
      ensures ButterflyMinus(u, v, c)[i] == Butterfly(u, v, Neg(c))[i]
    {
      SubMulNeg(u[i], v[i], c);
    }
    assert ButterflyMinus(u, v, c) == Butterfly(u, v, Neg(c));
    EvalButterfly(u, v, Neg(c), e);
  }

  // ---------------------------------------------------------------------
  // Scaling, and the inverse butterflies undoing the forward ones

  /** Scaling distributes over concatenation. */
  lemma ScaleAppend(c: ModInt, u: seq<ModInt>, v: seq<ModInt>)
    ensures Scale(c, u + v) == Scale(c, u) + Scale(c, v)
  {
    assert forall k :: 0 <= k < |u + v| ==> Scale(c, u + v)[k] == (Scale(c, u) + Scale(c, v))[k];
  }

  /** Scaling commutes with cutting. */
  lemma ScaleSlices(c: ModInt, y: seq<ModInt>, n: nat)
    requires n <= |y|
    ensures Scale(c, y)[..n] == Scale(c, y[..n]) && Scale(c, y)[n..] == Scale(c, y[n..])
  {
  }

  /** Scaling twice is scaling by the product. */
  lemma ScaleScale(c: ModInt, d: ModInt, y: seq<ModInt>)
    ensures Scale(c, Scale(d, y)) == Scale(Mul(c, d), y)
  {
    forall k | 0 <= k < |y|
      ensures Scale(c, Scale(d, y))[k] == Scale(Mul(c, d), y)[k]
    {
      MulAssoc(c, d, y[k]);
    }
  }

  /** Adding the two forward outputs gives twice the left input. */
  lemma ButterflySums(u: seq<ModInt>, v: seq<ModInt>, w: ModInt)
    requires |u| == |v|
    ensures Sums(Butterfly(u, v, w), ButterflyMinus(u, v, w)) == Scale(2, u)
  {
    forall i | 0 <= i < |u|
      ensures Sums(Butterfly(u, v, w), ButterflyMinus(u, v, w))[i] == Scale(2, u)[i]
    {
      ButterflySum(u[i], Mul(v[i], w));
    }
  }

  /** Subtracting them and multiplying by the inverse twiddle gives twice
      the right input. */
  lemma ButterflyDifferences(u: seq<ModInt>, v: seq<ModInt>, w: ModInt, iw: ModInt)
    requires |u| == |v| && Mul(w, iw) == 1
    ensures ScaledDifferences(Butterfly(u, v, w), ButterflyMinus(u, v, w), iw) == Scale(2, v)
  {
    forall i | 0 <= i < |u|
      ensures ScaledDifferences(Butterfly(u, v, w), ButterflyMinus(u, v, w), iw)[i] == Scale(2, v)[i]
    {
      ButterflyDifference(u[i], Mul(v[i], w));
      TwiddleCancel(v[i], w, iw);
    }
  }

  lemma TwiddleCancel(a: ModInt, w: ModInt, iw: ModInt)
    requires Mul(w, iw) == 1
    ensures Mul(Mul(2, Mul(a, w)), iw) == Mul(2, a)
  {
    MulAssoc(2, Mul(a, w), iw);
    MulAssoc(a, w, iw);
    MulOne(a);
  }

  /** The inverse butterflies commute with scaling. */
  lemma SumsScale(c: ModInt, u: seq<ModInt>, v: seq<ModInt>)
    requires |u| == |v|
    ensures Sums(Scale(c, u), Scale(c, v)) == Scale(c, Sums(u, v))
  {
    forall i | 0 <= i < |u|
      ensures Sums(Scale(c, u), Scale(c, v))[i] == Scale(c, Sums(u, v))[i]
    {
      MulAddDistrib(c, u[i], v[i]);
    }
  }

  lemma ScaledDifferencesScale(c: ModInt, u: seq<ModInt>, v: seq<ModInt>, iw: ModInt)
    requires |u| == |v|
    ensures ScaledDifferences(Scale(c, u), Scale(c, v), iw) == Scale(c, ScaledDifferences(u, v, iw))
  {
    forall i | 0 <= i < |u|
      ensures ScaledDifferences(Scale(c, u), Scale(c, v), iw)[i] == Scale(c, ScaledDifferences(u, v, iw))[i]
    {
      MulSubDistrib(c, u[i], v[i]);
      MulAssoc(c, Sub(u[i], v[i]), iw);
    }
  }

  // ---------------------------------------------------------------------
  // The schoolbook product

  /** No coefficient below degree zero. */
  lemma {:induction false} CoefSumNegative(a: seq<ModInt>, b: seq<ModInt>, k: int)
    requires k < 0
    ensures CoefSum(a, b, k) == 0
  {
    if |a| > 0 {
      CoefSumNegative(a[1..], b, k - 1);
      MulZero(a[0]);
    }
  }

  /** The product of the values is the value of the product: evaluating the
      schoolbook coefficients (at least |a| + |b| - 1 of them) at any point
      gives Eval(a) * Eval(b). */
  lemma {:induction false} EvalProduct(a: seq<ModInt>, b: seq<ModInt>, n: nat, e: ModInt)
    requires n + 1 >= |a| + |b|
    ensures Eval(ProductPrefix(a, b, n), e) == Mul(Eval(a, e), Eval(b, e))
  {
    var c := ProductPrefix(a, b, n);
    if |a| == 0 {
      assert c == Zeros(n);
      EvalZeros(n, e);
      MulZero(Eval(b, e));
    } else if n == 0 {
      assert |b| == 0;
      MulZero(Eval(a, e));
    } else {
      var a' := a[1..];
      var rest := ProductPrefix(a', b, n - 1);
      var shifted := [0] + rest;
      var padded := Resize(b, n);
      forall k | 0 <= k < n
        ensures c[k] == Butterfly(shifted, padded, a[0])[k]
      {
        MulComm(a[0], Coef(b, k));
        if k == 0 {
          CoefSumNegative(a', b, -1);
          AddComm(Mul(a[0], Coef(b, k)), 0);
        } else {
          AddComm(Mul(a[0], Coef(b, k)), CoefSum(a', b, k - 1));
        }
      }
      assert c == Butterfly(shifted, padded, a[0]);
      EvalButterfly(shifted, padded, a[0], e);
      assert shifted[1..] == rest;
      EvalProduct(a', b, n - 1, e);
      EvalResize(b, n, e);
      var ea', eb := Eval(a', e), Eval(b, e);
      calc {
        Eval(c, e);
        Add(Eval(shifted, e), Mul(a[0], eb));
        { AddZero(Mul(e, Mul(ea', eb))); }
        Add(Mul(e, Mul(ea', eb)), Mul(a[0], eb));
        { MulAssoc(e, ea', eb); }
        Add(Mul(Mul(e, ea'), eb), Mul(a[0], eb));
        { AddComm(Mul(Mul(e, ea'), eb), Mul(a[0], eb)); MulAddDistribRight(a[0], Mul(e, ea'), eb); }
        Mul(Eval(a, e), eb);
      }
    }
  }
}
