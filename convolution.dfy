/** `conv` and the two transforms it runs in place.

    The source writes the transforms as closures over a mutable vector; here
    they are methods over an array. Each pass, each block of a pass and each
    twiddle update is a method of its own, proved against the pass functions
    of the Transform module: after the blocks before `base`, the array holds
    the pass's output below `base` and its input from `base` on. */
module Convolution {
  import opened Modint
  import opened Bits
  import opened Twiddle
  import opened Poly
  import opened Transform

  // ---------------------------------------------------------------------
  // The passes

  /** The forward butterflies of the block of 2p entries at `base`, the
      inner `zip` loop of `ntt`: entry i becomes l + r * rot and entry
      i + p becomes l - r * rot. The entries of the block end up as in f,
      the whole pass, and nothing else changes. */
  method NttBlock(a: array<ModInt>, ghost y: seq<ModInt>, ghost f: seq<ModInt>, base: nat, p: nat, rot: ModInt)
    requires p >= 1 && Aligned(|y|, p + p) && Aligned(base, p + p) && base + p + p <= a.Length == |y|
    requires f == FwdPass(y, p, FWD_TWIDDLE) && rot == FWD_TWIDDLE(Blocks(base, p + p))
    requires forall k {:trigger a[k]} :: 0 <= k < a.Length ==> a[k] == (if k < base then f[k] else y[k])
    modifies a
    ensures forall k {:trigger a[k]} :: 0 <= k < a.Length ==> a[k] == (if k < base + p + p then f[k] else y[k])
  {
    hide Add, Sub, Mul;
    var i := 0;
    while i < p
      invariant 0 <= i <= p
      invariant forall k {:trigger a[k]} :: 0 <= k < a.Length ==>
        a[k] == (if k < base + i || base + p <= k < base + p + i then f[k] else y[k])
    {
      FwdPassPair(y, p, FWD_TWIDDLE, base, i);
      var l := a[base + i];
      var r := Mul(a[base + p + i], rot);
      a[base + i] := Add(l, r);
      a[base + p + i] := Sub(l, r);
      i := i + 1;
    }
  }

  /** The inverse butterflies of the block of 2p entries at `base`, the
      inner loop of `intt`: entry i becomes l + r and entry i + p becomes
      (l - r) * irot. */
  method InttBlock(a: array<ModInt>, ghost y: seq<ModInt>, ghost f: seq<ModInt>, base: nat, p: nat, irot: ModInt)
    requires p >= 1 && Aligned(|y|, p + p) && Aligned(base, p + p) && base + p + p <= a.Length == |y|
    requires f == InvPass(y, p, INV_TWIDDLE) && irot == INV_TWIDDLE(Blocks(base, p + p))
    requires forall k {:trigger a[k]} :: 0 <= k < a.Length ==> a[k] == (if k < base then f[k] else y[k])
    modifies a
    ensures forall k {:trigger a[k]} :: 0 <= k < a.Length ==> a[k] == (if k < base + p + p then f[k] else y[k])
  {
    hide Add, Sub, Mul;
    var i := 0;
    while i < p
      invariant 0 <= i <= p
      invariant forall k {:trigger a[k]} :: 0 <= k < a.Length ==>
        a[k] == (if k < base + i || base + p <= k < base + p + i then f[k] else y[k])
    {
      InvPassPair(y, p, INV_TWIDDLE, base, i);
      var l := a[base + i];
      var r := a[base + p + i];
      a[base + i] := Add(l, r);
      a[base + p + i] := Mul(Sub(l, r), irot);
      i := i + 1;
    }
  }

  /** One forward pass with half-blocks of p, the loop over the `chunks`
      of `ntt`: block s is transformed with `rot` == Rho(s), and `rot` then
      advances by FFT_RATE[trailing ones of s]. */
  method NttPass(a: array<ModInt>, p: nat)
    requires p >= 1 && Aligned(a.Length, p + p) && a.Length <= MAX_LEN
    modifies a
    ensures a[..] == FwdPass(old(a[..]), p, FWD_TWIDDLE)
  {
    ghost var y := a[..];
    ghost var f := FwdPass(y, p, FWD_TWIDDLE);
    var rot: ModInt := 1;
    var s := 0;
    var base := 0;
    while base < a.Length
      invariant base <= a.Length && Aligned(base, p + p) && Aligned(a.Length - base, p + p)
      invariant s == Blocks(base, p + p) && rot == Rho(s)
      invariant forall k {:trigger a[k]} :: 0 <= k < a.Length ==> a[k] == (if k < base then f[k] else y[k])
      decreases a.Length - base
    {
      NextBlock(s, base, p, a.Length);
      NttBlock(a, y, f, base, p, rot);
      rot := NextRot(rot, s);
      s := s + 1;
      base := base + p + p;
    }
    assert a[..] == f;
  }

  /** One inverse pass with half-blocks of p: block s is transformed with
      `irot` == IRho(s), and `irot` then advances by FFT_IRATE[trailing
      ones of s]. */
  method InttPass(a: array<ModInt>, p: nat)
    requires p >= 1 && Aligned(a.Length, p + p) && a.Length <= MAX_LEN
    modifies a
    ensures a[..] == InvPass(old(a[..]), p, INV_TWIDDLE)
  {
    ghost var y := a[..];
    ghost var f := InvPass(y, p, INV_TWIDDLE);
    var irot: ModInt := 1;
    var s := 0;
    var base := 0;
    while base < a.Length
      invariant base <= a.Length && Aligned(base, p + p) && Aligned(a.Length - base, p + p)
      invariant s == Blocks(base, p + p) && irot == IRho(s)
      invariant forall k {:trigger a[k]} :: 0 <= k < a.Length ==> a[k] == (if k < base then f[k] else y[k])
      decreases a.Length - base
    {
      NextBlock(s, base, p, a.Length);
      InttBlock(a, y, f, base, p, irot);
      irot := NextIRot(irot, s);
      s := s + 1;
      base := base + p + p;
    }
    assert a[..] == f;
  }

  /** The update after block s of a forward pass: the running twiddle is
      multiplied by the rate entry indexed by the number of trailing ones
      of s, which gives the twiddle of block s + 1. */
  method NextRot(rot: ModInt, s: nat) returns (next: ModInt)
    requires rot == Rho(s) && TrailingOnes(s) < TABLE_LEN
    ensures next == Rho(s + 1)
  {
    var t := TrailingOnes(s);
    TablesReduced();
    next := MulAssign(rot, FFT_RATE[t]);
    RhoNext(s, s + 1, t);
  }

  /** The update after block s of an inverse pass: the running inverse
      twiddle is multiplied by the inverse-rate entry indexed by the number
      of trailing ones of s. */
  method NextIRot(irot: ModInt, s: nat) returns (next: ModInt)
    requires irot == IRho(s) && TrailingOnes(s) < TABLE_LEN
    ensures next == IRho(s + 1)
  {
    var t := TrailingOnes(s);
    TablesReduced();
    next := MulAssign(irot, FFT_IRATE[t]);
    IRhoNext(s, s + 1, t);
  }

  /** A transform of 2^23 entries, the next size up, would read past the
      rate tables: its last pass has 2^22 blocks, and the update after the
      last of them (s == 2^22 - 1) indexes the table by TrailingOnes(s),
      which is 22, the length of either table. */
  lemma NextSizeReadsPastTable(h: nat, s: nat)
    requires h == TABLE_LEN + 1 && s == Pow2(h - 1) - 1
    ensures TrailingOnes(s) == |FFT_RATE| == |FFT_IRATE|
  {
    hide *;
    TrailingOnesOfMask(h - 1);
    TablesReduced();
  }

  /** After block s of a pass over at most MAX_LEN entries,
      `(!s).trailing_zeros()` indexes the rate tables within bounds, and the
      next block starts a whole block later. */
  lemma NextBlock(s: nat, base: nat, p: nat, n: nat)
    requires p >= 1 && base < n <= MAX_LEN && Aligned(base, p + p) && Aligned(n - base, p + p)
    requires s == Blocks(base, p + p)
    ensures TrailingOnes(s) < TABLE_LEN
    ensures base + p + p <= n && Aligned(base + p + p, p + p) && Aligned(n - (base + p + p), p + p)
    ensures s + 1 == Blocks(base + p + p, p + p)
  {
    BlocksAppendOne(base, p + p);
    assert s + 1 <= MAX_BLOCKS;
    Pow2Values();
    TrailingOnesBound(s, TABLE_LEN);
  }

  // ---------------------------------------------------------------------
  // The transforms

  /** The `ntt` closure on a vector of length 2^h: for len in 0 .. h, the
      pass with half-blocks of 2^(h - len - 1). */
  method Ntt(a: array<ModInt>, ghost h: nat)
    requires a.Length == Pow2(h) && h <= TABLE_LEN
    modifies a
    ensures a[..] == NttSpec(old(a[..]), h)
  {
    ghost var x := a[..];
    TrailingZerosOfPow2(h);
    Pow2Bounded(h);
    var n := TrailingZeros(a.Length);
    var len := 0;
    while len < n
      invariant len <= n == h
      invariant a[..] == FwdUpTo(x, h, len, FWD_TWIDDLE)
    {
      var p := Pow2(n - len - 1);
      PassSize(h, n - len - 1, p);
      ghost var before := a[..];
      NttPass(a, p);
      var next := len + 1;
      NttLevel(x, h, len, next, p, before, a[..]);
      len := next;
    }
    assert len == h;
  }

  /** The `intt` closure on a vector of length 2^h: for len in h down to
      1, the inverse pass with half-blocks of 2^(h - len). */
  method Intt(a: array<ModInt>, ghost h: nat)
    requires a.Length == Pow2(h) && h <= TABLE_LEN
    modifies a
    ensures a[..] == InttSpec(old(a[..]), h)
  {
    ghost var y := a[..];
    TrailingZerosOfPow2(h);
    Pow2Bounded(h);
    var n := TrailingZeros(a.Length);
    var len := n;
    while len >= 1
      invariant len <= n == h
      invariant a[..] == InvDownTo(y, h, len, INV_TWIDDLE)
    {
      var p := Pow2(n - len);
      PassSize(h, n - len, p);
      ghost var before := a[..];
      InttPass(a, p);
      var next := len - 1;
      InttLevel(y, h, len, next, p, before, a[..]);
      len := next;
    }
    assert len == 0;
  }

  /** A pass of a length-2^h transform whose half-blocks have p == 2^e
      entries, e < h: the blocks of 2p tile the vector. */
  lemma PassSize(h: nat, e: nat, p: nat)
    requires e < h && p == Pow2(e)
    ensures p >= 1 && Aligned(Pow2(h), p + p)
  {
    Pow2Double(e, e + 1);
    AlignedPow2(h, e + 1);
  }

  /** The array after pass len + 1 of `ntt`. */
  lemma NttLevel(x: seq<ModInt>, h: nat, len: nat, next: nat, p: nat, before: seq<ModInt>, after: seq<ModInt>)
    requires |x| == Pow2(h) && len < h && next == len + 1 && p == Pow2(h - len - 1)
    requires p >= 1 && Aligned(|before|, p + p)
    requires before == FwdUpTo(x, h, len, FWD_TWIDDLE) && after == FwdPass(before, p, FWD_TWIDDLE)
    ensures after == FwdUpTo(x, h, next, FWD_TWIDDLE)
  {
    FwdUpToUnfold(x, h, len, next, p, FWD_TWIDDLE);
  }

  /** The array after the inverse pass len of `intt`. */
  lemma InttLevel(y: seq<ModInt>, h: nat, len: nat, next: nat, p: nat, before: seq<ModInt>, after: seq<ModInt>)
    requires |y| == Pow2(h) && 1 <= len <= h && next == len - 1 && p == Pow2(h - len)
    requires p >= 1 && Aligned(|before|, p + p)
    requires before == InvDownTo(y, h, len, INV_TWIDDLE) && after == InvPass(before, p, INV_TWIDDLE)
    ensures after == InvDownTo(y, h, next, INV_TWIDDLE)
  {
    InvDownToUnfold(y, h, next, len, p, INV_TWIDDLE);
  }

  // ---------------------------------------------------------------------
  // conv

  /** The pointwise product of the two transforms: each entry of the first
      vector is multiplied in place by the matching entry of the second. */
  method MulEach(a: array<ModInt>, b: array<ModInt>)
    requires a.Length == b.Length && a != b
    modifies a
    ensures a[..] == Products(old(a[..]), b[..])
  {
    ghost var x := a[..];
    var i := 0;
    while i < a.Length
      invariant 0 <= i <= a.Length
      invariant forall k {:trigger a[k]} :: 0 <= k < a.Length ==> a[k] == (if k < i then Mul(x[k], b[k]) else x[k])
    {
      a[i] := MulAssign(a[i], b[i]);
      i := i + 1;
    }
  }

  /** The final scaling of `conv`: every entry of the cut vector is
      multiplied by the inverse of the transform length. */
  method ScaleEach(a: seq<ModInt>, c: ModInt) returns (r: seq<ModInt>)
    ensures r == Scale(c, a)
  {
    r := a;
    var i := 0;
    while i < |r|
      invariant 0 <= i <= |r| == |a|
      invariant forall k :: 0 <= k < |a| ==> r[k] == (if k < i then Mul(c, a[k]) else a[k])
    {
      var v := MulAssign(r[i], c);
      MulComm(r[i], c);
      r := r[i := v];
      i := i + 1;
    }
  }

  /** `conv`: the first |a| + |b| - 1 coefficients of the product of the
      polynomials with coefficients a and b. Both are padded with zeros to
      the power of two t >= |a| + |b| - 1, transformed, multiplied entry by
      entry and transformed back; the result is cut to |a| + |b| - 1
      entries and divided by t. The source subtracts 1 from |a| + |b| without
      a check, so both empty is excluded, and its tables serve lengths up to
      2^22. */
  method Conv(a: seq<ModInt>, b: seq<ModInt>) returns (c: seq<ModInt>)
    requires |a| + |b| >= 1 && |a| + |b| - 1 <= MAX_LEN
    ensures |c| == |a| + |b| - 1
    ensures c == ProductPrefix(a, b, |a| + |b| - 1)
  {
    var s := |a| + |b| - 1;
    var t := NextPowerOfTwo(s);
    ghost var h := CeilLog2(s);
    ConvSizes(s, t, h);
    var fa := new ModInt[t](k requires 0 <= k < t => if k < |a| then a[k] else 0);
    assert fa[..] == Resize(a, t);
    Ntt(fa, h);
    var fb := new ModInt[t](k requires 0 <= k < t => if k < |b| then b[k] else 0);
    assert fb[..] == Resize(b, t);
    Ntt(fb, h);
    MulEach(fa, fb);
    ghost var p := ProductPrefix(a, b, s);
    ConvolutionTheorem(a, b, s, t, h);
    assert fa[..] == NttSpec(Resize(p, t), h);
    Intt(fa, h);
    NttRoundTrip(Resize(p, t), h);
    var d := fa[..s];
    var tInv := Inv(t);
    c := ScaleEach(d, tInv);
    Unscale(p, Resize(p, t), d, c, t, tInv, h);
  }

  /** The sizes `conv` works with: t == 2^h is the transform length, at
      most MAX_LEN and a power of two whose exponent `trailing_zeros`
      recovers. */
  lemma ConvSizes(s: nat, t: nat, h: nat)
    requires s <= MAX_LEN && t == NextPowerOfTwo(s) && h == CeilLog2(s)
    ensures t == Pow2(h) && s <= t <= MAX_LEN && h <= TABLE_LEN
    ensures IsPowerOfTwo(t) && TrailingZeros(t) == h
  {
    Pow2Values();
    NextPowerOfTwoLeast(s, TABLE_LEN);
    Pow2IsPowerOfTwo(h);
    TrailingZerosOfPow2(h);
  }

  /** Entry by entry, the product of the transforms of the padded inputs is
      the transform of their padded product: each transform evaluates its
      input at the points Gamma(k), and a product of two polynomials
      evaluates to the product of their values. */
  lemma ConvolutionTheorem(a: seq<ModInt>, b: seq<ModInt>, s: nat, t: nat, h: nat)
    requires s + 1 == |a| + |b| && t == Pow2(h) && s <= t && h <= TABLE_LEN
    ensures Products(NttSpec(Resize(a, t), h), NttSpec(Resize(b, t), h)) == NttSpec(Resize(ProductPrefix(a, b, s), t), h)
  {
    var p := ProductPrefix(a, b, s);
    var l := Products(NttSpec(Resize(a, t), h), NttSpec(Resize(b, t), h));
    var r := NttSpec(Resize(p, t), h);
    forall k | 0 <= k < t
      ensures l[k] == r[k]
    {
      var e := Gamma(k);
      NttEvaluates(Resize(a, t), h, k);
      NttEvaluates(Resize(b, t), h, k);
      NttEvaluates(Resize(p, t), h, k);
      EvalResize(p, t, e);
      EvalProduct(a, b, s, e);
      if |a| <= t && |b| <= t {
        EvalResize(a, t, e);
        EvalResize(b, t, e);
      } else {
        // One input is empty and the other, cut to t, no longer fits:
        // both sides are zero.
        EmptyFactor(a, b, t, e);
      }
    }
  }

  /** When |a| + |b| - 1 <= t but one input is longer than t, the other is
      empty, and both the product and the product of the values of the
      padded inputs vanish. */
  lemma EmptyFactor(a: seq<ModInt>, b: seq<ModInt>, t: nat, e: ModInt)
    requires |a| + |b| <= t + 1 && (|a| > t || |b| > t)
    ensures Mul(Eval(a, e), Eval(b, e)) == 0
    ensures Mul(Eval(Resize(a, t), e), Eval(Resize(b, t), e)) == 0
  {
    if |a| > t {
      assert b == [] && Resize(b, t) == Zeros(t);
      EvalZeros(t, e);
      MulZero(Eval(a, e));
      MulZero(Eval(Resize(a, t), e));
    } else {
      assert a == [] && Resize(a, t) == Zeros(t);
      EvalZeros(t, e);
      MulZero(Eval(b, e));
      MulZero(Eval(Resize(b, t), e));
    }
  }

  /** The last two steps of `conv`: cutting t * (p padded to t) back to |p|
      entries and multiplying by the inverse of t gives p. */
  lemma Unscale(p: seq<ModInt>, q: seq<ModInt>, d: seq<ModInt>, c: seq<ModInt>, t: nat, tInv: ModInt, h: nat)
    requires t == Pow2(h) && h <= TABLE_LEN && |p| <= t && q == Resize(p, t)
    requires Pow2(h) < MOD && d == Scale(Pow2(h), q)[..|p|]
    requires tInv == InvSpec(t) && c == Scale(tInv, d)
    ensures c == p
  {
    PowerOfTwoInverse(h);
    forall k | 0 <= k < |p|
      ensures c[k] == p[k]
    {
      calc {
        c[k];
        Mul(tInv, Mul(t, p[k]));
        { MulAssoc(tInv, t, p[k]); MulComm(tInv, t); }
        Mul(1, p[k]);
        { MulOne(p[k]); }
        p[k];
      }
    }
  }
}
