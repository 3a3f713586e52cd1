/** The number-theoretic transform as functions on coefficient sequences.
    A length-2^h sequence goes through h forward passes; pass L cuts it
    into consecutive blocks of 2p = 2^(h-L) entries and applies, in block s,
    the butterfly (l, r) -> (l + r * Rho(s), l - r * Rho(s)) to entries
    i and i + p of the block. The inverse passes run from the last to the
    first with (l, r) -> (l + r, (l - r) * IRho(s)).

    Main results: slot s of the forward transform holds the input polynomial
    evaluated at Gamma(s) (NttEvaluates), and the inverse transform of the
    forward transform is the input times 2^h (NttRoundTrip). */
module Transform {
  import opened Modint
  import opened Bits
  import opened Twiddle
  import opened Poly

  // ---------------------------------------------------------------------
  // Cutting a sequence into blocks

  /** A length n is a whole number of blocks of m. */
  predicate Aligned(n: nat, m: nat)
    requires m >= 1
    decreases n
  {
    n == 0 || (n >= m && Aligned(n - m, m))
  }

  /** The number of whole blocks of m in a length n: the index that
      `chunks_mut(m).enumerate()` gives the block starting at n. */
  function Blocks(n: nat, m: nat): (b: nat)
    requires m >= 1
    ensures b <= n && (m >= 2 ==> b + b <= n)
    decreases n
  {
    if n < m then 0 else 1 + Blocks(n - m, m)
  }

  /** Whole blocks put side by side are whole blocks, and they count up. */
  lemma {:induction false} AlignedAdd(a: nat, b: nat, m: nat)
    requires m >= 1 && Aligned(a, m) && Aligned(b, m)
    ensures Aligned(a + b, m) && Blocks(a + b, m) == Blocks(a, m) + Blocks(b, m)
    decreases a
  {
    if a > 0 {
      AlignedAdd(a - m, b, m);
    }
  }

  /** A power of two is a whole number of blocks of any smaller power of two. */
  lemma {:induction false} AlignedPow2(h: nat, k: nat)
    requires k <= h
    ensures Aligned(Pow2(h), Pow2(k))
    decreases h - k
  {
    if h == k {
      assert Aligned(Pow2(h) - Pow2(k), Pow2(k));
    } else {
      AlignedPow2(h - 1, k);
      AlignedAdd(Pow2(h - 1), Pow2(h - 1), Pow2(k));
    }
  }

  /** Halving the block size doubles the number of blocks. */
  lemma {:induction false} BlocksDouble(n: nat, p: nat)
    requires p >= 1 && Aligned(n, p + p)
    ensures Aligned(n, p) && Blocks(n, p) == Blocks(n, p + p) + Blocks(n, p + p)
    decreases n
  {
    if n > 0 {
      BlocksDouble(n - (p + p), p);
      assert Aligned(n - p, p);
    }
  }

  /** A whole number of blocks and one more block. */
  lemma AlignedNext(n: nat, m: nat)
    requires m >= 1 && Aligned(n, m)
    ensures Aligned(n + m, m)
  {
    assert n + m - m == n;
  }

  /** One more block. */
  lemma {:induction false} BlocksAppendOne(n: nat, m: nat)
    requires m >= 1 && Aligned(n, m)
    ensures Aligned(n + m, m) && Blocks(n + m, m) == Blocks(n, m) + 1
  {
    assert Aligned(m, m) && Blocks(m, m) == 1 by {
      assert Aligned(m - m, m) && Blocks(m - m, m) == 0;
    }
    AlignedAdd(n, m, m);
  }

  /** Blocks of one entry are entries. */
  lemma {:induction false} BlocksOne(n: nat)
    ensures Aligned(n, 1) && Blocks(n, 1) == n
  {
    if n > 0 {
      BlocksOne(n - 1);
    }
  }

  // ---------------------------------------------------------------------
  // The passes

  /** The forward butterflies of one block of 2p entries with twiddle w:
      entry i becomes l + r * w and entry i + p becomes l - r * w, where
      l and r are the old entries i and i + p. */
  function FwdBlock(blk: seq<ModInt>, p: nat, w: ModInt): (r: seq<ModInt>)
    requires |blk| == p + p
    ensures |r| == p + p
  {
    Butterfly(blk[..p], blk[p..], w) + ButterflyMinus(blk[..p], blk[p..], w)
  }

  /** The inverse butterflies of one block with twiddle iw: entry i becomes
      l + r and entry i + p becomes (l - r) * iw. */
  function InvBlock(blk: seq<ModInt>, p: nat, iw: ModInt): (r: seq<ModInt>)
    requires |blk| == p + p
    ensures |r| == p + p
  {
    Sums(blk[..p], blk[p..]) + ScaledDifferences(blk[..p], blk[p..], iw)
  }

  /** The start of the block of m entries that holds entry k. */
  function BlockStart(k: nat, m: nat): (b: nat)
    requires m >= 1
    ensures Aligned(b, m) && b <= k < b + m
    decreases k
  {
    if k < m then
      assert Aligned(0, m);
      0
    else
      var b := BlockStart(k - m, m);
      AlignedNext(b, m);
      b + m
  }

  /** Entry k after one forward pass with half-blocks of p: in the block of
      2p entries at b, with twiddle w(s) for block number s, entry b + i
      becomes y[b + i] + y[b + p + i] * w(s) and entry b + p + i becomes
      y[b + i] - y[b + p + i] * w(s), for i < p. */
  function FwdEntry(y: seq<ModInt>, p: nat, w: nat -> ModInt, k: nat): ModInt
    requires p >= 1 && Aligned(|y|, p + p) && k < |y|
  {
    var b := BlockStart(k, p + p);
    AlignedGap(b, |y|, p + p);
    var c := w(Blocks(b, p + p));
    if k < b + p then Add(y[k], Mul(y[k + p], c)) else Sub(y[k - p], Mul(y[k], c))
  }

  /** Entry k after one inverse pass: entry b + i becomes
      y[b + i] + y[b + p + i] and entry b + p + i becomes
      (y[b + i] - y[b + p + i]) * iw(s). */
  function InvEntry(y: seq<ModInt>, p: nat, iw: nat -> ModInt, k: nat): ModInt
    requires p >= 1 && Aligned(|y|, p + p) && k < |y|
  {
    var b := BlockStart(k, p + p);
    AlignedGap(b, |y|, p + p);
    if k < b + p then Add(y[k], y[k + p]) else Mul(Sub(y[k - p], y[k]), iw(Blocks(b, p + p)))
  }

  /** One forward pass over a whole number of blocks of 2p entries: block
      s uses the twiddle w(s) (the transform uses w == Rho). */
  function FwdPass(y: seq<ModInt>, p: nat, w: nat -> ModInt): (r: seq<ModInt>)
    requires p >= 1 && Aligned(|y|, p + p)
    ensures |r| == |y|
  {
    seq(|y|, k requires 0 <= k < |y| => FwdEntry(y, p, w, k))
  }

  /** One inverse pass over blocks of 2p entries: block s uses iw(s) (the
      transform uses iw == IRho). */
  function InvPass(y: seq<ModInt>, p: nat, iw: nat -> ModInt): (r: seq<ModInt>)
    requires p >= 1 && Aligned(|y|, p + p)
    ensures |r| == |y|
  {
    seq(|y|, k requires 0 <= k < |y| => InvEntry(y, p, iw, k))
  }

  /** The first L forward passes of a length-2^h transform; pass L works on
      blocks of 2^(h-L+1) entries. */
  function FwdUpTo(x: seq<ModInt>, h: nat, L: nat, w: nat -> ModInt): (r: seq<ModInt>)
    requires |x| == Pow2(h) && L <= h
    ensures |r| == |x|
  {
    if L == 0 then x
    else
      AlignedPow2(h, h - L + 1);
      FwdPass(FwdUpTo(x, h, L - 1, w), Pow2(h - L), w)
  }

  /** The inverse passes h, h - 1, ..., j + 1, in that order. */
  function InvDownTo(y: seq<ModInt>, h: nat, j: nat, iw: nat -> ModInt): (r: seq<ModInt>)
    requires |y| == Pow2(h) && j <= h
    ensures |r| == |y|
    decreases h - j
  {
    if j == h then y
    else
      AlignedPow2(h, h - j);
      InvPass(InvDownTo(y, h, j + 1, iw), Pow2(h - (j + 1)), iw)
  }

  /** The forward transform: all h passes with the twiddles Rho. */
  function NttSpec(x: seq<ModInt>, h: nat): (r: seq<ModInt>)
    requires |x| == Pow2(h)
    ensures |r| == |x|
  {
    FwdUpTo(x, h, h, FWD_TWIDDLE)
  }

  /** The inverse transform, without the final division by 2^h. */
  function InttSpec(y: seq<ModInt>, h: nat): (r: seq<ModInt>)
    requires |y| == Pow2(h)
    ensures |r| == |y|
  {
    InvDownTo(y, h, 0, INV_TWIDDLE)
  }

  /** Entries of the block of m at an aligned position b have b as their
      block start. */
  lemma {:induction false} BlockStartWithin(b: nat, k: nat, m: nat)
    requires m >= 1 && Aligned(b, m) && b <= k < b + m
    ensures BlockStart(k, m) == b
    decreases b
  {
    if b > 0 {
      BlockStartWithin(b - m, k - m, m);
    }
  }

  /** Entries i and p + i of the block at `base` after a forward pass: the
      butterfly pair with the twiddle of that block. */
  lemma {:induction false} FwdPassPair(y: seq<ModInt>, p: nat, w: nat -> ModInt, base: nat, i: nat)
    requires p >= 1 && Aligned(|y|, p + p) && Aligned(base, p + p) && base + p + p <= |y| && i < p
    ensures FwdPass(y, p, w)[base + i] == Add(y[base + i], Mul(y[base + p + i], w(Blocks(base, p + p))))
    ensures FwdPass(y, p, w)[base + p + i] == Sub(y[base + i], Mul(y[base + p + i], w(Blocks(base, p + p))))
  {
    hide Add, Sub, Mul;
    BlockStartWithin(base, base + i, p + p);
    BlockStartWithin(base, base + p + i, p + p);
    assert base + p + i - p == base + i;
    assert FwdPass(y, p, w)[base + i] == FwdEntry(y, p, w, base + i);
    assert FwdPass(y, p, w)[base + p + i] == FwdEntry(y, p, w, base + p + i);
  }

  /** Entries i and p + i of the block at `base` after an inverse pass. */
  lemma {:induction false} InvPassPair(y: seq<ModInt>, p: nat, iw: nat -> ModInt, base: nat, i: nat)
    requires p >= 1 && Aligned(|y|, p + p) && Aligned(base, p + p) && base + p + p <= |y| && i < p
    ensures InvPass(y, p, iw)[base + i] == Add(y[base + i], y[base + p + i])
    ensures InvPass(y, p, iw)[base + p + i] == Mul(Sub(y[base + i], y[base + p + i]), iw(Blocks(base, p + p)))
  {
    hide Add, Sub, Mul;
    assert InvPass(y, p, iw)[base + i] == InvEntry(y, p, iw, base + i);
    assert InvPass(y, p, iw)[base + p + i] == InvEntry(y, p, iw, base + p + i);
    InvEntryLow(y, p, iw, base, i);
    InvEntryHigh(y, p, iw, base, i);
  }

  /** The first entry of an inverse butterfly pair. */
  lemma InvEntryLow(y: seq<ModInt>, p: nat, iw: nat -> ModInt, base: nat, i: nat)
    requires p >= 1 && Aligned(|y|, p + p) && Aligned(base, p + p) && base + p + p <= |y| && i < p
    ensures InvEntry(y, p, iw, base + i) == Add(y[base + i], y[base + p + i])
  {
    hide Add, Sub, Mul;
    BlockStartWithin(base, base + i, p + p);
  }

  /** The second entry of an inverse butterfly pair. */
  lemma InvEntryHigh(y: seq<ModInt>, p: nat, iw: nat -> ModInt, base: nat, i: nat)
    requires p >= 1 && Aligned(|y|, p + p) && Aligned(base, p + p) && base + p + p <= |y| && i < p
    ensures InvEntry(y, p, iw, base + p + i) == Mul(Sub(y[base + i], y[base + p + i]), iw(Blocks(base, p + p)))
  {
    hide Add, Sub, Mul;
    BlockStartWithin(base, base + p + i, p + p);
    assert base + p + i - p == base + i;
  }

  /** The entries of a pass over whole blocks in front of another block
      depend only on those blocks. */
  lemma {:induction false} FwdEntryAppend(front: seq<ModInt>, blk: seq<ModInt>, p: nat, w: nat -> ModInt, k: nat)
    requires p >= 1 && Aligned(|front|, p + p) && Aligned(|front + blk|, p + p) && k < |front|
    ensures FwdPass(front + blk, p, w)[k] == FwdPass(front, p, w)[k]
  {
    hide Add, Sub, Mul;
    AlignedGap(BlockStart(k, p + p), |front|, p + p);
  }

  /** Entries j and p + j of a block appended to whole blocks. */
  lemma {:induction false} FwdPassAppendPair(front: seq<ModInt>, blk: seq<ModInt>, p: nat, w: nat -> ModInt, j: nat)
    requires p >= 1 && Aligned(|front|, p + p) && Aligned(|front + blk|, p + p) && |blk| == p + p && j < p
    ensures FwdPass(front + blk, p, w)[|front| + j] == FwdBlock(blk, p, w(Blocks(|front|, p + p)))[j]
    ensures FwdPass(front + blk, p, w)[|front| + p + j] == FwdBlock(blk, p, w(Blocks(|front|, p + p)))[p + j]
  {
    hide *;
    var y := front + blk;
    FwdPassPair(y, p, w, |front|, j);
    FwdBlockPair(blk, p, w(Blocks(|front|, p + p)), j);
    assert y[|front| + j] == blk[j] && y[|front| + p + j] == blk[p + j];
  }

  /** Appending a block to a whole number of blocks appends its butterflies. */
  lemma {:induction false} FwdPassAppend(front: seq<ModInt>, blk: seq<ModInt>, p: nat, w: nat -> ModInt)
    requires p >= 1 && Aligned(|front|, p + p) && |blk| == p + p
    ensures Aligned(|front + blk|, p + p)
    ensures FwdPass(front + blk, p, w) == FwdPass(front, p, w) + FwdBlock(blk, p, w(Blocks(|front|, p + p)))
  {
    hide *;
    AlignedNext(|front|, p + p);
    var n := |front|;
    forall k | 0 <= k < n + p + p
      ensures FwdPass(front + blk, p, w)[k] == (FwdPass(front, p, w) + FwdBlock(blk, p, w(Blocks(|front|, p + p))))[k]
    {
      if k < n {
        FwdEntryAppend(front, blk, p, w, k);
      } else if k < n + p {
        FwdPassAppendPair(front, blk, p, w, k - n);
        assert n + (k - n) == k;
      } else {
        FwdPassAppendPair(front, blk, p, w, k - n - p);
        assert n + p + (k - n - p) == k && p + (k - n - p) == k - n;
      }
    }
  }

  /** A nonempty pass is the pass over all blocks but the last, then the
      last block. */
  lemma {:induction false} FwdPassLast(y: seq<ModInt>, p: nat, w: nat -> ModInt)
    requires p >= 1 && Aligned(|y|, p + p) && |y| > 0
    ensures |y| >= p + p && Aligned(|y| - (p + p), p + p)
    ensures FwdPass(y, p, w) == FwdPass(y[..|y| - (p + p)], p, w) + FwdBlock(y[|y| - (p + p)..], p, w(Blocks(|y| - (p + p), p + p)))
  {
    var n := |y| - (p + p);
    assert n + p + p == |y| && Aligned(n, p + p);
    hide *;
    assert y == y[..n] + y[n..];
    FwdPassAppend(y[..n], y[n..], p, w);
  }

  lemma {:induction false} InvEntryAppend(front: seq<ModInt>, blk: seq<ModInt>, p: nat, iw: nat -> ModInt, k: nat)
    requires p >= 1 && Aligned(|front|, p + p) && Aligned(|front + blk|, p + p) && k < |front|
    ensures InvPass(front + blk, p, iw)[k] == InvPass(front, p, iw)[k]
  {
    hide Add, Sub, Mul;
    AlignedGap(BlockStart(k, p + p), |front|, p + p);
  }

  lemma {:induction false} InvPassAppendPair(front: seq<ModInt>, blk: seq<ModInt>, p: nat, iw: nat -> ModInt, j: nat)
    requires p >= 1 && Aligned(|front|, p + p) && Aligned(|front + blk|, p + p) && |blk| == p + p && j < p
    ensures InvPass(front + blk, p, iw)[|front| + j] == InvBlock(blk, p, iw(Blocks(|front|, p + p)))[j]
    ensures InvPass(front + blk, p, iw)[|front| + p + j] == InvBlock(blk, p, iw(Blocks(|front|, p + p)))[p + j]
  {
    hide *;
    var y := front + blk;
    InvPassPair(y, p, iw, |front|, j);
    InvBlockPair(blk, p, iw(Blocks(|front|, p + p)), j);
    assert y[|front| + j] == blk[j] && y[|front| + p + j] == blk[p + j];
  }

  /** Appending a block appends its inverse butterflies. */
  lemma {:induction false} InvPassAppend(front: seq<ModInt>, blk: seq<ModInt>, p: nat, iw: nat -> ModInt)
    requires p >= 1 && Aligned(|front|, p + p) && |blk| == p + p
    ensures Aligned(|front + blk|, p + p)
    ensures InvPass(front + blk, p, iw) == InvPass(front, p, iw) + InvBlock(blk, p, iw(Blocks(|front|, p + p)))
  {
    hide *;
    AlignedNext(|front|, p + p);
    var n := |front|;
    forall k | 0 <= k < n + p + p
      ensures InvPass(front + blk, p, iw)[k] == (InvPass(front, p, iw) + InvBlock(blk, p, iw(Blocks(|front|, p + p))))[k]
    {
      if k < n {
        InvEntryAppend(front, blk, p, iw, k);
      } else if k < n + p {
        InvPassAppendPair(front, blk, p, iw, k - n);
        assert n + (k - n) == k;
      } else {
        InvPassAppendPair(front, blk, p, iw, k - n - p);
        assert n + p + (k - n - p) == k && p + (k - n - p) == k - n;
      }
    }
  }

  lemma {:induction false} InvPassLast(y: seq<ModInt>, p: nat, iw: nat -> ModInt)
    requires p >= 1 && Aligned(|y|, p + p) && |y| > 0
    ensures |y| >= p + p && Aligned(|y| - (p + p), p + p)
    ensures InvPass(y, p, iw) == InvPass(y[..|y| - (p + p)], p, iw) + InvBlock(y[|y| - (p + p)..], p, iw(Blocks(|y| - (p + p), p + p)))
  {
    var n := |y| - (p + p);
    assert n + p + p == |y| && Aligned(n, p + p);
    hide *;
    assert y == y[..n] + y[n..];
    InvPassAppend(y[..n], y[n..], p, iw);
  }

  /** Two whole numbers of blocks differ by at least a block. */
  lemma {:induction false} AlignedGap(a: nat, b: nat, m: nat)
    requires m >= 1 && Aligned(a, m) && Aligned(b, m) && a < b
    ensures a + m <= b
    decreases a
  {
    if a > 0 {
      AlignedGap(a - m, b - m, m);
    }
  }

  /** Entries i and p + i of a forward block: the butterfly pair. */
  lemma {:induction false} FwdBlockPair(blk: seq<ModInt>, p: nat, c: ModInt, i: nat)
    requires |blk| == p + p && i < p
    ensures FwdBlock(blk, p, c)[i] == Add(blk[i], Mul(blk[p + i], c))
    ensures FwdBlock(blk, p, c)[p + i] == Sub(blk[i], Mul(blk[p + i], c))
  {
    assert FwdBlock(blk, p, c)[p + i] == ButterflyMinus(blk[..p], blk[p..], c)[i];
  }

  /** Entries i and p + i of an inverse block. */
  lemma {:induction false} InvBlockPair(blk: seq<ModInt>, p: nat, c: ModInt, i: nat)
    requires |blk| == p + p && i < p
    ensures InvBlock(blk, p, c)[i] == Add(blk[i], blk[p + i])
    ensures InvBlock(blk, p, c)[p + i] == Mul(Sub(blk[i], blk[p + i]), c)
  {
    assert InvBlock(blk, p, c)[p + i] == ScaledDifferences(blk[..p], blk[p..], c)[i];
  }

  // ---------------------------------------------------------------------
  // What the twiddles must satisfy

  /** The twiddle w(s) of block s squares to the point g(s) of that block,
      and the points of its two children are w(s) and -w(s). */
  ghost predicate SquareRoots(w: nat -> ModInt, g: nat -> ModInt)
  {
    forall s: nat {:trigger w(s)} :: s < MAX_BLOCKS ==>
      Mul(w(s), w(s)) == g(s) && g(s + s) == w(s) && g(s + s + 1) == Neg(w(s))
  }

  /** The inverse twiddle of each block undoes the forward one. */
  ghost predicate Inverses(w: nat -> ModInt, iw: nat -> ModInt)
  {
    forall s: nat {:trigger w(s)} :: s < MAX_LEN ==> Undoes(w(s), iw(s))
  }

  ghost predicate Undoes(a: ModInt, b: ModInt)
  {
    Mul(a, b) == 1
  }

  /** The transform's twiddles are square roots of the points Gamma. */
  lemma {:induction false} TwiddlesSquare()
    ensures SquareRoots(FWD_TWIDDLE, Gamma)
  {
    forall s: nat | s < MAX_BLOCKS
      ensures Mul(Rho(s), Rho(s)) == Gamma(s) && Gamma(s + s) == Rho(s) && Gamma(s + s + 1) == Neg(Rho(s))
    {
      RhoSquared(s);
      GammaChildren(s);
    }
  }

  /** The inverse transform's twiddles undo the forward ones. */
  lemma {:induction false} TwiddlesInverse()
    ensures Inverses(FWD_TWIDDLE, INV_TWIDDLE)
  {
    forall s: nat | s < MAX_LEN
      ensures Undoes(Rho(s), IRho(s))
    {
      RhoInverse(s);
    }
  }

  // ---------------------------------------------------------------------
  // The forward transform evaluates

  /** Block blk, read as a polynomial, agrees with x at every point e with
      e^m == c. */
  ghost predicate Agrees(blk: seq<ModInt>, m: nat, c: ModInt, x: seq<ModInt>)
  {
    forall e: ModInt :: PowSpec(e, m) == c ==> SameAt(blk, x, e)
  }

  /** blk and x, read as polynomials, take the same value at e. */
  ghost predicate SameAt(blk: seq<ModInt>, x: seq<ModInt>, e: ModInt)
  {
    Eval(blk, e) == Eval(x, e)
  }

  /** Every block of m entries of z agrees with x at the points whose m-th
      power is g of the block's number. */
  ghost predicate EvalsAt(z: seq<ModInt>, m: nat, x: seq<ModInt>, g: nat -> ModInt)
    requires m >= 1 && Aligned(|z|, m)
    decreases |z|
  {
    |z| == 0 ||
    (var n := |z| - m;
     EvalsAt(z[..n], m, x, g) && Agrees(z[n..], m, g(Blocks(n, m)), x))
  }

  /** EvalsAt grows block by block. */
  lemma {:induction false} EvalsAtAppend(z: seq<ModInt>, blk: seq<ModInt>, m: nat, x: seq<ModInt>, g: nat -> ModInt)
    requires m >= 1 && Aligned(|z|, m) && |blk| == m
    requires EvalsAt(z, m, x, g) && Agrees(blk, m, g(Blocks(|z|, m)), x)
    ensures Aligned(|z + blk|, m) && EvalsAt(z + blk, m, x, g)
  {
    var y := z + blk;
    assert y[..|z|] == z && y[|z|..] == blk;
  }

  /** The left child of a block with twiddle w agrees with the block at the
      points whose p-th power is w; those points square to w * w. */
  lemma {:induction false} LeftChild(blk: seq<ModInt>, p: nat, w: ModInt, e: ModInt)
    requires |blk| == p + p && PowSpec(e, p) == w
    ensures PowSpec(e, p + p) == Mul(w, w)
    ensures Eval(Butterfly(blk[..p], blk[p..], w), e) == Eval(blk, e)
  {
    assert blk == blk[..p] + blk[p..];
    EvalAppend(blk[..p], blk[p..], e);
    EvalButterfly(blk[..p], blk[p..], w, e);
    PowAdd(e, p, p);
  }

  /** The right child agrees with the block at the points whose p-th power
      is -w; those too square to w * w. */
  lemma {:induction false} RightChild(blk: seq<ModInt>, p: nat, w: ModInt, e: ModInt)
    requires |blk| == p + p && PowSpec(e, p) == Neg(w)
    ensures PowSpec(e, p + p) == Mul(w, w)
    ensures Eval(ButterflyMinus(blk[..p], blk[p..], w), e) == Eval(blk, e)
  {
    assert blk == blk[..p] + blk[p..];
    EvalAppend(blk[..p], blk[p..], e);
    EvalButterflyMinus(blk[..p], blk[p..], w, e);
    PowAdd(e, p, p);
    MulNegNeg(w, w);
  }

  /** A block of 2p entries that agrees with x at the square roots of
      w * w splits, under the butterflies with twiddle w, into a left child
      that agrees with x at the points whose p-th power is w and a right
      child that agrees at those whose p-th power is -w. */
  lemma {:induction false} BlockEval(blk: seq<ModInt>, p: nat, w: ModInt, x: seq<ModInt>)
    requires |blk| == p + p && Agrees(blk, p + p, Mul(w, w), x)
    ensures Agrees(Butterfly(blk[..p], blk[p..], w), p, w, x)
    ensures Agrees(ButterflyMinus(blk[..p], blk[p..], w), p, Neg(w), x)
  {
    forall e: ModInt | PowSpec(e, p) == w
      ensures Eval(Butterfly(blk[..p], blk[p..], w), e) == Eval(x, e)
    {
      LeftChild(blk, p, w, e);
    }
    forall e: ModInt | PowSpec(e, p) == Neg(w)
      ensures Eval(ButterflyMinus(blk[..p], blk[p..], w), e) == Eval(x, e)
    {
      RightChild(blk, p, w, e);
    }
  }

  /** The children of block s under the butterflies with twiddle w(s)
      agree with x at the points whose p-th power is g(2s) and g(2s + 1). */
  ghost predicate ChildrenAgree(blk: seq<ModInt>, p: nat, s: nat, x: seq<ModInt>, w: nat -> ModInt, g: nat -> ModInt)
    requires |blk| == p + p
  {
    Agrees(Butterfly(blk[..p], blk[p..], w(s)), p, g(s + s), x) &&
    Agrees(ButterflyMinus(blk[..p], blk[p..], w(s)), p, g(s + s + 1), x)
  }

  /** Block s, which agrees with x at the points whose (2p)-th power is
      g(s), splits into children that agree with x at their own points. */
  lemma {:induction false} ChildrenEval(blk: seq<ModInt>, p: nat, s: nat, x: seq<ModInt>, w: nat -> ModInt, g: nat -> ModInt)
    requires |blk| == p + p && s < MAX_BLOCKS && SquareRoots(w, g)
    requires Agrees(blk, p + p, g(s), x)
    ensures ChildrenAgree(blk, p, s, x, w, g)
  {
    assert Mul(w(s), w(s)) == g(s) && g(s + s) == w(s) && g(s + s + 1) == Neg(w(s));
    BlockEval(blk, p, w(s), x);
  }

  lemma {:induction false} AppendAssoc(a: seq<ModInt>, b: seq<ModInt>, c: seq<ModInt>)
    ensures a + (b + c) == (a + b) + c
  {
  }

  /** The children of block s, numbered 2s and 2s + 1, appended after
      the blocks before them, extend the evaluations. */
  lemma {:induction false} EvalsAtAppendChildren(front: seq<ModInt>, blk: seq<ModInt>, p: nat, s: nat, x: seq<ModInt>, w: nat -> ModInt, g: nat -> ModInt)
    requires p >= 1 && Aligned(|front|, p) && Blocks(|front|, p) == s + s && |blk| == p + p
    requires EvalsAt(front, p, x, g) && ChildrenAgree(blk, p, s, x, w, g)
    ensures Aligned(|front + FwdBlock(blk, p, w(s))|, p) && EvalsAt(front + FwdBlock(blk, p, w(s)), p, x, g)
  {
    var left := Butterfly(blk[..p], blk[p..], w(s));
    var right := ButterflyMinus(blk[..p], blk[p..], w(s));
    assert FwdBlock(blk, p, w(s)) == left + right;
    AppendAssoc(front, left, right);
    EvalsAtAppendTwo(front, left, right, p, s, x, g);
  }

  /** Two blocks numbered 2s and 2s + 1 appended after the blocks before
      them extend the evaluations. */
  lemma {:induction false} EvalsAtAppendTwo(front: seq<ModInt>, left: seq<ModInt>, right: seq<ModInt>, p: nat, s: nat, x: seq<ModInt>, g: nat -> ModInt)
    requires p >= 1 && Aligned(|front|, p) && Blocks(|front|, p) == s + s && |left| == p && |right| == p
    requires EvalsAt(front, p, x, g) && Agrees(left, p, g(s + s), x) && Agrees(right, p, g(s + s + 1), x)
    ensures Aligned(|(front + left) + right|, p) && EvalsAt((front + left) + right, p, x, g)
  {
    EvalsAtAppend(front, left, p, x, g);
    BlocksAppendOne(|front|, p);
    EvalsAtAppend(front + left, right, p, x, g);
  }

  /** The pass step of PassEval: the last block's children extend the
      evaluations of the pass over the blocks before it. */
  lemma {:induction false} PassEvalStep(y: seq<ModInt>, p: nat, x: seq<ModInt>, w: nat -> ModInt, g: nat -> ModInt)
    requires p >= 1 && Aligned(|y|, p + p) && |y| >= p + p
    requires ChildrenAgree(y[|y| - (p + p)..], p, Blocks(|y| - (p + p), p + p), x, w, g)
    requires Aligned(|y| - (p + p), p) && EvalsAt(FwdPass(y[..|y| - (p + p)], p, w), p, x, g)
    ensures Aligned(|y|, p) && EvalsAt(FwdPass(y, p, w), p, x, g)
  {
    FwdPassLast(y, p, w);
    var n := |y| - (p + p);
    BlocksDouble(n, p);
    EvalsAtAppendChildren(FwdPass(y[..n], p, w), y[n..], p, Blocks(n, p + p), x, w, g);
  }

  /** The block step of PassEval: the last block of y, numbered s, agrees
      with x at its points, so its children do at theirs. */
  lemma {:induction false} LastChildrenEval(y: seq<ModInt>, p: nat, x: seq<ModInt>, w: nat -> ModInt, g: nat -> ModInt)
    requires p >= 1 && Aligned(|y|, p + p) && 0 < |y| <= MAX_LEN && SquareRoots(w, g)
    requires EvalsAt(y, p + p, x, g)
    ensures |y| >= p + p && Aligned(|y| - (p + p), p + p) && EvalsAt(y[..|y| - (p + p)], p + p, x, g)
    ensures ChildrenAgree(y[|y| - (p + p)..], p, Blocks(|y| - (p + p), p + p), x, w, g)
  {
    var n := |y| - (p + p);
    var s := Blocks(n, p + p);
    assert s + s < MAX_LEN;
    ChildrenEval(y[n..], p, s, x, w, g);
  }

  /** A forward pass halves the blocks and keeps every block an evaluation
      of x. */
  /** PassEval with the block size of the input named q. */
  lemma {:induction false} PassEvalAt(y: seq<ModInt>, p: nat, q: nat, x: seq<ModInt>, w: nat -> ModInt, g: nat -> ModInt)
    requires p >= 1 && q == p + p && Aligned(|y|, q) && |y| <= MAX_LEN && SquareRoots(w, g)
    requires EvalsAt(y, q, x, g)
    ensures Aligned(|y|, p) && EvalsAt(FwdPass(y, p, w), p, x, g)
  {
    PassEval(y, p, x, w, g);
  }

  lemma {:induction false} PassEval(y: seq<ModInt>, p: nat, x: seq<ModInt>, w: nat -> ModInt, g: nat -> ModInt)
    requires p >= 1 && Aligned(|y|, p + p) && |y| <= MAX_LEN && SquareRoots(w, g)
    requires EvalsAt(y, p + p, x, g)
    ensures Aligned(|y|, p) && EvalsAt(FwdPass(y, p, w), p, x, g)
    decreases |y|
  {
    if |y| > 0 {
      LastChildrenEval(y, p, x, w, g);
      PassEval(y[..|y| - (p + p)], p, x, w, g);
      PassEvalStep(y, p, x, w, g);
    }
  }

  /** After L passes, every block (of 2^(h-L) entries) agrees with the
      input polynomial at the points whose 2^(h-L)-th power is g of its
      number. */
  lemma {:induction false} ForwardEval(x: seq<ModInt>, h: nat, L: nat, w: nat -> ModInt, g: nat -> ModInt)
    requires |x| == Pow2(h) && L <= h <= TABLE_LEN && SquareRoots(w, g) && g(0) == 1
    ensures Aligned(Pow2(h), Pow2(h - L))
    ensures EvalsAt(FwdUpTo(x, h, L, w), Pow2(h - L), x, g)
  {
    if L == 0 {
      ForwardEvalBase(x, h, L, w, g);
    } else {
      var j := L - 1;
      ForwardEval(x, h, j, w, g);
      ForwardEvalStep(x, h, j, L, w, g);
    }
  }

  /** ForwardEval before the first pass: x is one block, the evaluation at 1. */
  lemma {:induction false} ForwardEvalBase(x: seq<ModInt>, h: nat, L: nat, w: nat -> ModInt, g: nat -> ModInt)
    requires |x| == Pow2(h) && L == 0 && g(0) == 1
    ensures Aligned(Pow2(h), Pow2(h - L))
    ensures EvalsAt(FwdUpTo(x, h, L, w), Pow2(h - L), x, g)
  {
    AlignedPow2(h, h - L);
    assert Agrees(x, Pow2(h), g(0), x);
    EvalsAtAppend([], x, Pow2(h), x, g);
    assert [] + x == x;
  }

  /** ForwardEval from j passes to L == j + 1. */
  lemma {:induction false} ForwardEvalStep(x: seq<ModInt>, h: nat, j: nat, L: nat, w: nat -> ModInt, g: nat -> ModInt)
    requires |x| == Pow2(h) && j < h <= TABLE_LEN && L == j + 1 && SquareRoots(w, g)
    requires Aligned(Pow2(h), Pow2(h - j)) && EvalsAt(FwdUpTo(x, h, j, w), Pow2(h - j), x, g)
    ensures Aligned(Pow2(h), Pow2(h - L))
    ensures EvalsAt(FwdUpTo(x, h, L, w), Pow2(h - L), x, g)
  {
    var p := Pow2(h - L);
    FwdUpToUnfold(x, h, j, L, p, w);
    Pow2Double(h - L, h - j);
    Pow2Bounded(h);
    PassEvalAt(FwdUpTo(x, h, j, w), p, Pow2(h - j), x, w, g);
  }

  /** With blocks of one entry, entry k is x evaluated at g(k). */
  lemma {:induction false} UnitEval(z: seq<ModInt>, x: seq<ModInt>, g: nat -> ModInt, k: nat)
    requires Aligned(|z|, 1) && EvalsAt(z, 1, x, g) && k < |z|
    ensures z[k] == Eval(x, g(k))
    decreases |z|
  {
    var n := |z| - 1;
    BlocksOne(n);
    if k == n {
      var c := g(k);
      MulOne(c);
      assert PowSpec(c, 1) == c;
      assert z[n..] == [z[k]];
      EvalSingle(z[k], c);
    } else {
      UnitEval(z[..n], x, g, k);
    }
  }

  /** Slot s of the forward transform is the input polynomial evaluated at
      Gamma(s). */
  lemma {:induction false} NttEvaluates(x: seq<ModInt>, h: nat, s: nat)
    requires |x| == Pow2(h) && h <= TABLE_LEN && s < |x|
    ensures NttSpec(x, h)[s] == Eval(x, Gamma(s))
  {
    TwiddlesSquare();
    assert Gamma(0) == 1;
    ForwardEval(x, h, h, FWD_TWIDDLE, Gamma);
    UnitEval(NttSpec(x, h), x, Gamma, s);
  }

  // ---------------------------------------------------------------------
  // The inverse transform undoes the forward one

  /** The inverse butterflies with twiddle iw undo the forward ones with
      twiddle w == 1 / iw, up to a factor of 2. */
  lemma {:induction false} BlockUndo(blk: seq<ModInt>, p: nat, w: ModInt, iw: ModInt)
    requires |blk| == p + p && Mul(w, iw) == 1
    ensures InvBlock(FwdBlock(blk, p, w), p, iw) == Scale(2, blk)
  {
    var u, v := blk[..p], blk[p..];
    var f := FwdBlock(blk, p, w);
    assert f[..p] == Butterfly(u, v, w) && f[p..] == ButterflyMinus(u, v, w);
    ButterflySums(u, v, w);
    ButterflyDifferences(u, v, w, iw);
    ScaleAppend(2, u, v);
    assert blk == u + v;
  }

  /** Inverse pass j + 1 undoes forward pass j up to a factor of 2. */
  lemma {:induction false} InvPassUndoes(y: seq<ModInt>, p: nat, w: nat -> ModInt, iw: nat -> ModInt)
    requires p >= 1 && Aligned(|y|, p + p) && |y| <= MAX_LEN && Inverses(w, iw)
    ensures InvPass(FwdPass(y, p, w), p, iw) == Scale(2, y)
    decreases |y|
  {
    if |y| > 0 {
      FwdPassLast(y, p, w);
      var n := |y| - (p + p);
      var front, blk := y[..n], y[n..];
      InvPassUndoes(front, p, w, iw);
      assert y == front + blk;
      UndoAppend(y, front, blk, p, w, iw);
    }
  }

  /** InvPassUndoes for one more block. */
  lemma {:induction false} UndoAppend(y: seq<ModInt>, front: seq<ModInt>, blk: seq<ModInt>, p: nat, w: nat -> ModInt, iw: nat -> ModInt)
    requires p >= 1 && Aligned(|front|, p + p) && |blk| == p + p && y == front + blk && |y| <= MAX_LEN && Inverses(w, iw)
    requires InvPass(FwdPass(front, p, w), p, iw) == Scale(2, front)
    ensures Aligned(|y|, p + p)
    ensures InvPass(FwdPass(y, p, w), p, iw) == Scale(2, y)
  {
    var s := Blocks(|front|, p + p);
    var f := FwdPass(front, p, w);
    var fb := FwdBlock(blk, p, w(s));
    FwdPassAppend(front, blk, p, w);
    assert |f| == |front|;
    InvPassAppend(f, fb, p, iw);
    assert s < MAX_LEN;
    assert Undoes(w(s), iw(s));
    BlockUndo(blk, p, w(s), iw(s));
    ScaleAppend(2, front, blk);
  }

  /** The inverse butterflies commute with scaling. */
  lemma {:induction false} InvBlockScale(blk: seq<ModInt>, p: nat, iw: ModInt, c: ModInt)
    requires |blk| == p + p
    ensures InvBlock(Scale(c, blk), p, iw) == Scale(c, InvBlock(blk, p, iw))
  {
    var u, v := blk[..p], blk[p..];
    ScaleSlices(c, blk, p);
    SumsScale(c, u, v);
    ScaledDifferencesScale(c, u, v, iw);
    ScaleAppend(c, Sums(u, v), ScaledDifferences(u, v, iw));
  }

  /** An inverse pass commutes with scaling. */
  lemma {:induction false} InvPassScale(y: seq<ModInt>, p: nat, iw: nat -> ModInt, c: ModInt)
    requires p >= 1 && Aligned(|y|, p + p)
    ensures InvPass(Scale(c, y), p, iw) == Scale(c, InvPass(y, p, iw))
    decreases |y|
  {
    if |y| > 0 {
      InvPassLast(y, p, iw);
      var n := |y| - (p + p);
      var front, blk := y[..n], y[n..];
      InvPassScale(front, p, iw, c);
      assert y == front + blk;
      InvScaleAppend(y, front, blk, p, iw, c);
    }
  }

  /** InvPassScale for one more block. */
  lemma {:induction false} InvScaleAppend(y: seq<ModInt>, front: seq<ModInt>, blk: seq<ModInt>, p: nat, iw: nat -> ModInt, c: ModInt)
    requires p >= 1 && Aligned(|front|, p + p) && |blk| == p + p && y == front + blk
    requires InvPass(Scale(c, front), p, iw) == Scale(c, InvPass(front, p, iw))
    ensures Aligned(|y|, p + p)
    ensures InvPass(Scale(c, y), p, iw) == Scale(c, InvPass(y, p, iw))
  {
    var s := Blocks(|front|, p + p);
    var sf, sb := Scale(c, front), Scale(c, blk);
    ScaleAppend(c, front, blk);
    assert |sf| == |front|;
    InvPassAppend(sf, sb, p, iw);
    InvPassAppend(front, blk, p, iw);
    InvBlockScale(blk, p, iw(s), c);
    ScaleAppend(c, InvPass(front, p, iw), InvBlock(blk, p, iw(s)));
  }

  /** Inverse pass with blocks of 2p undoes the forward pass with blocks of
      2p, whose input was scaled by c: the result is y scaled by d == c + c. */
  lemma {:induction false} UndoScaledPass(y: seq<ModInt>, p: nat, c: ModInt, d: ModInt, w: nat -> ModInt, iw: nat -> ModInt)
    requires p >= 1 && Aligned(|y|, p + p) && |y| <= MAX_LEN && Inverses(w, iw) && d == c + c
    ensures InvPass(Scale(c, FwdPass(y, p, w)), p, iw) == Scale(d, y)
  {
    var f := FwdPass(y, p, w);
    InvPassScale(f, p, iw, c);
    InvPassUndoes(y, p, w, iw);
    ScaleTwice(InvPass(Scale(c, f), p, iw), InvPass(f, p, iw), y, c, d);
  }

  /** a == c * b and b == 2 * y give a == d * y for d == c + c. */
  lemma {:induction false} ScaleTwice(a: seq<ModInt>, b: seq<ModInt>, y: seq<ModInt>, c: ModInt, d: ModInt)
    requires a == Scale(c, b) && b == Scale(2, y) && d == c + c
    ensures a == Scale(d, y)
  {
    ScaleScale(c, 2, y);
    MulTwo(c);
  }

  /** Running the inverse passes down to j on the finished forward
      transform gives the first j forward passes, times 2^(h-j). */
  lemma {:induction false} InvDownToFwd(x: seq<ModInt>, h: nat, j: nat, w: nat -> ModInt, iw: nat -> ModInt)
    requires |x| == Pow2(h) && j <= h <= TABLE_LEN && Inverses(w, iw)
    ensures Pow2(h - j) < MOD
    ensures InvDownTo(FwdUpTo(x, h, h, w), h, j, iw) == Scale(Pow2(h - j), FwdUpTo(x, h, j, w))
    decreases h - j
  {
    if j == h {
      InvDownToBase(x, h, w, iw);
    } else {
      var k := j + 1;
      InvDownToFwd(x, h, k, w, iw);
      InvDownToStep(x, h, j, k, w, iw);
    }
  }

  /** InvDownToFwd with no inverse pass left to run. */
  lemma {:induction false} InvDownToBase(x: seq<ModInt>, h: nat, w: nat -> ModInt, iw: nat -> ModInt)
    requires |x| == Pow2(h)
    ensures Pow2(h - h) < MOD
    ensures InvDownTo(FwdUpTo(x, h, h, w), h, h, iw) == Scale(Pow2(h - h), FwdUpTo(x, h, h, w))
  {
    assert h - h == 0;
    ScaleOne(FwdUpTo(x, h, h, w));
  }

  /** The step of InvDownToFwd from k == j + 1 to j. */
  lemma {:induction false} InvDownToStep(x: seq<ModInt>, h: nat, j: nat, k: nat, w: nat -> ModInt, iw: nat -> ModInt)
    requires |x| == Pow2(h) && j < h <= TABLE_LEN && k == j + 1 && Inverses(w, iw)
    requires Pow2(h - k) < MOD
    requires InvDownTo(FwdUpTo(x, h, h, w), h, k, iw) == Scale(Pow2(h - k), FwdUpTo(x, h, k, w))
    ensures Pow2(h - j) < MOD
    ensures InvDownTo(FwdUpTo(x, h, h, w), h, j, iw) == Scale(Pow2(h - j), FwdUpTo(x, h, j, w))
  {
    var p, c := Pow2(h - k), Pow2(h - j);
    StepSizes(h, j, k);
    var z := FwdUpTo(x, h, h, w);
    var y := FwdUpTo(x, h, j, w);
    InvDownToUnfold(z, h, j, k, p, iw);
    FwdUpToUnfold(x, h, j, k, p, w);
    UndoScaledStep(InvDownTo(z, h, j, iw), InvDownTo(z, h, k, iw), y, p, c, w, iw);
  }

  /** The block sizes of passes j and k == j + 1 of a length-2^h transform. */
  lemma {:induction false} StepSizes(h: nat, j: nat, k: nat)
    requires j < h <= TABLE_LEN && k == j + 1
    ensures Pow2(h) <= MAX_LEN && 1 <= Pow2(h - k)
    ensures Pow2(h - j) == Pow2(h - k) + Pow2(h - k) < MOD
  {
    Pow2Bounded(h);
    Pow2Bounded(h - j);
    Pow2Double(h - k, h - j);
  }

  /** The step of InvDownToStep on plain sequences: a is the inverse pass
      of b, and b is the forward pass of y scaled by p. */
  lemma {:induction false} UndoScaledStep(a: seq<ModInt>, b: seq<ModInt>, y: seq<ModInt>, p: nat, c: ModInt, w: nat -> ModInt, iw: nat -> ModInt)
    requires p >= 1 && Aligned(|y|, p + p) && |y| <= MAX_LEN && Inverses(w, iw) && c == p + p
    requires b == Scale(p, FwdPass(y, p, w)) && a == InvPass(b, p, iw)
    ensures a == Scale(c, y)
  {
    var q: ModInt := p;
    UndoScaledPass(y, p, q, c, w, iw);
  }

  /** The first of the remaining inverse passes. */
  lemma {:induction false} InvDownToUnfold(y: seq<ModInt>, h: nat, j: nat, k: nat, p: nat, iw: nat -> ModInt)
    requires |y| == Pow2(h) && j < h && k == j + 1 && p == Pow2(h - k)
    ensures p >= 1 && Aligned(|y|, p + p)
    ensures InvDownTo(y, h, j, iw) == InvPass(InvDownTo(y, h, k, iw), p, iw)
  {
    assert h - (j + 1) == h - k;
    Pow2Double(h - k, h - j);
    AlignedPow2(h, h - j);
  }

  /** The last of the first k forward passes. */
  lemma {:induction false} FwdUpToUnfold(x: seq<ModInt>, h: nat, j: nat, k: nat, p: nat, w: nat -> ModInt)
    requires |x| == Pow2(h) && j < h && k == j + 1 && p == Pow2(h - k)
    ensures p >= 1 && Aligned(|x|, p + p)
    ensures FwdUpTo(x, h, k, w) == FwdPass(FwdUpTo(x, h, j, w), p, w)
  {
    assert k - 1 == j;
    assert h - k + 1 == h - j;
    Pow2Double(h - k, h - j);
    AlignedPow2(h, h - j);
  }

  /** The inverse passes undo the forward ones, up to the factor 2^h. */
  lemma {:induction false} RoundTrip(x: seq<ModInt>, h: nat, w: nat -> ModInt, iw: nat -> ModInt)
    requires |x| == Pow2(h) && h <= TABLE_LEN && Inverses(w, iw)
    ensures Pow2(h) < MOD
    ensures InvDownTo(FwdUpTo(x, h, h, w), h, 0, iw) == Scale(Pow2(h), x)
  {
    var j := 0;
    Pow2Bounded(h);
    InvDownToFwd(x, h, j, w, iw);
    RoundTripEnd(x, h, j, w, iw);
  }

  /** RoundTrip read off InvDownToFwd at j == 0. */
  lemma {:induction false} RoundTripEnd(x: seq<ModInt>, h: nat, j: nat, w: nat -> ModInt, iw: nat -> ModInt)
    requires |x| == Pow2(h) && j == 0 && Pow2(h) < MOD && Pow2(h - j) < MOD
    requires InvDownTo(FwdUpTo(x, h, h, w), h, j, iw) == Scale(Pow2(h - j), FwdUpTo(x, h, j, w))
    ensures InvDownTo(FwdUpTo(x, h, h, w), h, 0, iw) == Scale(Pow2(h), x)
  {
    FwdUpToZero(x, h, w);
    assert h - j == h;
  }

  /** No forward pass at all. */
  lemma {:induction false} FwdUpToZero(x: seq<ModInt>, h: nat, w: nat -> ModInt)
    requires |x| == Pow2(h)
    ensures FwdUpTo(x, h, 0, w) == x
  {
  }

  lemma {:induction false} ScaleOne(y: seq<ModInt>)
    ensures Scale(1, y) == y
  {
    forall k | 0 <= k < |y|
      ensures Scale(1, y)[k] == y[k]
    {
      MulOne(y[k]);
    }
  }

  /** The inverse transform of the forward transform is the input times 2^h:
      dividing by the length recovers the input. */
  lemma {:induction false} NttRoundTrip(x: seq<ModInt>, h: nat)
    requires |x| == Pow2(h) && h <= TABLE_LEN
    ensures Pow2(h) < MOD
    ensures InttSpec(NttSpec(x, h), h) == Scale(Pow2(h), x)
  {
    TwiddlesInverse();
    RoundTrip(x, h, FWD_TWIDDLE, INV_TWIDDLE);
  }
}
