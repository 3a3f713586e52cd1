/** The twiddle factors of the transform. The running twiddle of block s
    (the value `rot` holds while block s is processed) is `Rho(s)`, and the
    inverse transform's is `IRho(s)`. Both are products of table entries;
    this module shows, from concrete products that the verifier evaluates,
    that they are arranged as the butterflies need: Rho(s) * IRho(s) == 1,
    and Rho(s)^2 == Gamma(s), which is +-Rho(s / 2). It also shows that
    every power of two below MOD is invertible, with 2^(MOD-1) == 1. */
module Twiddle {
  import opened Modint
  import opened Bits

  /** Number of entries in each rate table. */
  const TABLE_LEN: nat := 22

  /** 2^TABLE_LEN, the longest transform the tables serve, and the number
      of blocks in the last pass of such a transform. */
  const MAX_LEN: nat := 0x40_0000
  const MAX_BLOCKS: nat := 0x20_0000

  /** `FFT_RATE`: the factor that advances the forward twiddle from block s
      to block s + 1 is FFT_RATE[trailing ones of s]. */
  const FFT_RATE: seq<Usize> := [
    0x3656d65b, 0x1e5ea9e6, 0x16038782, 0x13caac90, 0x3a9a4cfa, 0x761af21, 0xe372007, 0x3a2be7d4,
    0x23fe18b2, 0x330f5b68, 0x7d37cf9, 0x3239edef, 0x2b8ea5c3, 0x382d2452, 0x300e9be2, 0x908b3f5,
    0x1e726cd9, 0x1e02c2f0, 0x2c49629c, 0x2c2b7c93, 0x35a5081, 0x33b69d8b
  ]

  /** `FFT_IRATE`: the same for the inverse transform's twiddle. */
  const FFT_IRATE: seq<Usize> := [
    0x52929a6, 0x163456b8, 0x16400573, 0x267c5b5f, 0x6b059a5, 0x294c15f1, 0x94415d9, 0x2f83389c,
    0x569c0ec, 0x3346ebba, 0x37473ab0, 0x1524e16f, 0x68442e3, 0x117ab9d0, 0x1fe52df0, 0x1263f553,
    0x7392943, 0x24433aa8, 0x1a2993eb, 0x156d2fbf, 0x311e570f, 0x6294a13
  ]

  /** The powers of two named in this module. */
  lemma Pow2Values()
    ensures Pow2(TABLE_LEN) == MAX_LEN && Pow2(TABLE_LEN - 1) == MAX_BLOCKS
    ensures Pow2(29) == 536870912
  {
    assert Pow2(1) == 2;
    assert Pow2(2) == 4;
    assert Pow2(3) == 8;
    assert Pow2(4) == 16;
    assert Pow2(5) == 32;
    assert Pow2(6) == 64;
    assert Pow2(7) == 128;
    assert Pow2(8) == 256;
    assert Pow2(9) == 512;
    assert Pow2(10) == 1024;
    assert Pow2(11) == 2048;
    assert Pow2(12) == 4096;
    assert Pow2(13) == 8192;
    assert Pow2(14) == 16384;
    assert Pow2(15) == 32768;
    assert Pow2(16) == 65536;
    assert Pow2(17) == 131072;
    assert Pow2(18) == 262144;
    assert Pow2(19) == 524288;
    assert Pow2(20) == 1048576;
    assert Pow2(21) == 2097152;
    assert Pow2(22) == 4194304;
    assert Pow2(23) == 8388608;
    assert Pow2(24) == 16777216;
    assert Pow2(25) == 33554432;
    assert Pow2(26) == 67108864;
    assert Pow2(27) == 134217728;
    assert Pow2(28) == 268435456;
    assert Pow2(29) == 536870912;
  }

  /** Every length the tables serve is at most MAX_LEN, which is below MOD. */
  lemma Pow2Bounded(h: nat)
    requires h <= TABLE_LEN
    ensures Pow2(h) <= MAX_LEN < MOD
  {
    Pow2Monotone(h, TABLE_LEN);
    Pow2Values();
  }

  /** Every table entry is a reduced residue, so the direct `ModInt { val }`
      constructions at each twiddle update keep the invariant. */
  lemma TablesReduced()
    ensures |FFT_RATE| == TABLE_LEN && |FFT_IRATE| == TABLE_LEN
    ensures forall i :: 0 <= i < TABLE_LEN ==> FFT_RATE[i] < MOD && FFT_IRATE[i] < MOD
  {
  }

  /** Entry t of FFT_RATE as a residue. No block below 2^22 reads past the
      table (TrailingOnesBound); the source would panic there, and the model
      uses 1. */
  function Rate(t: nat): (r: ModInt)
  {
    TablesReduced();
    if t < TABLE_LEN then FFT_RATE[t] else 1
  }

  /** Entry t of FFT_IRATE as a residue, 1 past the table. */
  function IRate(t: nat): (r: ModInt)
  {
    TablesReduced();
    if t < TABLE_LEN then FFT_IRATE[t] else 1
  }

  /** The forward twiddle of block s: 1 for block 0, then multiplied by
      FFT_RATE[trailing ones of s] after block s. */
  function Rho(s: nat): ModInt
  {
    if s == 0 then 1 else Mul(Rho(s - 1), Rate(TrailingOnes(s - 1)))
  }

  /** The inverse twiddle of block s, built the same way from FFT_IRATE. */
  function IRho(s: nat): ModInt
  {
    if s == 0 then 1 else Mul(IRho(s - 1), IRate(TrailingOnes(s - 1)))
  }

  /** Rho and IRho as function values, for the passes that take their
      twiddles as a parameter. */
  const FWD_TWIDDLE: nat -> ModInt := s => Rho(s)
  const INV_TWIDDLE: nat -> ModInt := s => IRho(s)

  /** The point at which block s of the finished forward transform is an
      evaluation: Rho(s / 2) for even s and its negation for odd s, so
      that Rho(s) squares to Gamma(s) (RhoSquared). */
  function Gamma(s: nat): ModInt
  {
    if s % 2 == 0 then Rho(s / 2) else Neg(Rho(s / 2))
  }

  /** FFT_IRATE[t] is the inverse of FFT_RATE[t]. */
  lemma RateInverse(t: nat)
    requires t < TABLE_LEN
    ensures Mul(FFT_RATE[t], FFT_IRATE[t]) == 1
  {
    match t
    case 0 => RateInverse0();
    case 1 => RateInverse1();
    case 2 => RateInverse2();
    case 3 => RateInverse3();
    case 4 => RateInverse4();
    case 5 => RateInverse5();
    case 6 => RateInverse6();
    case 7 => RateInverse7();
    case 8 => RateInverse8();
    case 9 => RateInverse9();
    case 10 => RateInverse10();
    case 11 => RateInverse11();
    case 12 => RateInverse12();
    case 13 => RateInverse13();
    case 14 => RateInverse14();
    case 15 => RateInverse15();
    case 16 => RateInverse16();
    case 17 => RateInverse17();
    case 18 => RateInverse18();
    case 19 => RateInverse19();
    case 20 => RateInverse20();
    case 21 => RateInverse21();
  }

  lemma RateInverse0()
    ensures Mul(FFT_RATE[0], FFT_IRATE[0]) == 1
  {
  }

  lemma RateInverse1()
    ensures Mul(FFT_RATE[1], FFT_IRATE[1]) == 1
  {
  }

  lemma RateInverse2()
    ensures Mul(FFT_RATE[2], FFT_IRATE[2]) == 1
  {
  }

  lemma RateInverse3()
    ensures Mul(FFT_RATE[3], FFT_IRATE[3]) == 1
  {
  }

  lemma RateInverse4()
    ensures Mul(FFT_RATE[4], FFT_IRATE[4]) == 1
  {
  }

  lemma RateInverse5()
    ensures Mul(FFT_RATE[5], FFT_IRATE[5]) == 1
  {
  }

  lemma RateInverse6()
    ensures Mul(FFT_RATE[6], FFT_IRATE[6]) == 1
  {
  }

  lemma RateInverse7()
    ensures Mul(FFT_RATE[7], FFT_IRATE[7]) == 1
  {
  }

  lemma RateInverse8()
    ensures Mul(FFT_RATE[8], FFT_IRATE[8]) == 1
  {
  }

  lemma RateInverse9()
    ensures Mul(FFT_RATE[9], FFT_IRATE[9]) == 1
  {
  }

  lemma RateInverse10()
    ensures Mul(FFT_RATE[10], FFT_IRATE[10]) == 1
  {
  }

  lemma RateInverse11()
    ensures Mul(FFT_RATE[11], FFT_IRATE[11]) == 1
  {
  }

  lemma RateInverse12()
    ensures Mul(FFT_RATE[12], FFT_IRATE[12]) == 1
  {
  }

  lemma RateInverse13()
    ensures Mul(FFT_RATE[13], FFT_IRATE[13]) == 1
  {
  }

  lemma RateInverse14()
    ensures Mul(FFT_RATE[14], FFT_IRATE[14]) == 1
  {
  }

  lemma RateInverse15()
    ensures Mul(FFT_RATE[15], FFT_IRATE[15]) == 1
  {
  }

  lemma RateInverse16()
    ensures Mul(FFT_RATE[16], FFT_IRATE[16]) == 1
  {
  }

  lemma RateInverse17()
    ensures Mul(FFT_RATE[17], FFT_IRATE[17]) == 1
  {
  }

  lemma RateInverse18()
    ensures Mul(FFT_RATE[18], FFT_IRATE[18]) == 1
  {
  }

  lemma RateInverse19()
    ensures Mul(FFT_RATE[19], FFT_IRATE[19]) == 1
  {
  }

  lemma RateInverse20()
    ensures Mul(FFT_RATE[20], FFT_IRATE[20]) == 1
  {
  }

  lemma RateInverse21()
    ensures Mul(FFT_RATE[21], FFT_IRATE[21]) == 1
  {
  }

  /** FFT_RATE[0] is a square root of -1. */
  lemma FirstRateSquare()
    ensures |FFT_RATE| == TABLE_LEN && Mul(FFT_RATE[0], FFT_RATE[0]) == MOD - 1
  {
  }

  /** Each rate entry after the first squares to minus the previous one:
      FFT_RATE[t]^2 == -FFT_RATE[t - 1], checked entry by entry. */
  lemma RateSquare(t: nat)
    requires 0 < t < TABLE_LEN
    ensures Mul(FFT_RATE[t], FFT_RATE[t]) == Neg(FFT_RATE[t - 1])
  {
    match t
    case 1 => RateSquare1();
    case 2 => RateSquare2();
    case 3 => RateSquare3();
    case 4 => RateSquare4();
    case 5 => RateSquare5();
    case 6 => RateSquare6();
    case 7 => RateSquare7();
    case 8 => RateSquare8();
    case 9 => RateSquare9();
    case 10 => RateSquare10();
    case 11 => RateSquare11();
    case 12 => RateSquare12();
    case 13 => RateSquare13();
    case 14 => RateSquare14();
    case 15 => RateSquare15();
    case 16 => RateSquare16();
    case 17 => RateSquare17();
    case 18 => RateSquare18();
    case 19 => RateSquare19();
    case 20 => RateSquare20();
    case 21 => RateSquare21();
  }

  lemma RateSquare1()
    ensures Mul(FFT_RATE[1], FFT_RATE[1]) == Neg(FFT_RATE[0])
  {
  }

  lemma RateSquare2()
    ensures Mul(FFT_RATE[2], FFT_RATE[2]) == Neg(FFT_RATE[1])
  {
  }

  lemma RateSquare3()
    ensures Mul(FFT_RATE[3], FFT_RATE[3]) == Neg(FFT_RATE[2])
  {
  }

  lemma RateSquare4()
    ensures Mul(FFT_RATE[4], FFT_RATE[4]) == Neg(FFT_RATE[3])
  {
  }

  lemma RateSquare5()
    ensures Mul(FFT_RATE[5], FFT_RATE[5]) == Neg(FFT_RATE[4])
  {
  }

  lemma RateSquare6()
    ensures Mul(FFT_RATE[6], FFT_RATE[6]) == Neg(FFT_RATE[5])
  {
  }

  lemma RateSquare7()
    ensures Mul(FFT_RATE[7], FFT_RATE[7]) == Neg(FFT_RATE[6])
  {
  }

  lemma RateSquare8()
    ensures Mul(FFT_RATE[8], FFT_RATE[8]) == Neg(FFT_RATE[7])
  {
  }

  lemma RateSquare9()
    ensures Mul(FFT_RATE[9], FFT_RATE[9]) == Neg(FFT_RATE[8])
  {
  }

  lemma RateSquare10()
    ensures Mul(FFT_RATE[10], FFT_RATE[10]) == Neg(FFT_RATE[9])
  {
  }

  lemma RateSquare11()
    ensures Mul(FFT_RATE[11], FFT_RATE[11]) == Neg(FFT_RATE[10])
  {
  }

  lemma RateSquare12()
    ensures Mul(FFT_RATE[12], FFT_RATE[12]) == Neg(FFT_RATE[11])
  {
  }

  lemma RateSquare13()
    ensures Mul(FFT_RATE[13], FFT_RATE[13]) == Neg(FFT_RATE[12])
  {
  }

  lemma RateSquare14()
    ensures Mul(FFT_RATE[14], FFT_RATE[14]) == Neg(FFT_RATE[13])
  {
  }

  lemma RateSquare15()
    ensures Mul(FFT_RATE[15], FFT_RATE[15]) == Neg(FFT_RATE[14])
  {
  }

  lemma RateSquare16()
    ensures Mul(FFT_RATE[16], FFT_RATE[16]) == Neg(FFT_RATE[15])
  {
  }

  lemma RateSquare17()
    ensures Mul(FFT_RATE[17], FFT_RATE[17]) == Neg(FFT_RATE[16])
  {
  }

  lemma RateSquare18()
    ensures Mul(FFT_RATE[18], FFT_RATE[18]) == Neg(FFT_RATE[17])
  {
  }

  lemma RateSquare19()
    ensures Mul(FFT_RATE[19], FFT_RATE[19]) == Neg(FFT_RATE[18])
  {
  }

  lemma RateSquare20()
    ensures Mul(FFT_RATE[20], FFT_RATE[20]) == Neg(FFT_RATE[19])
  {
  }

  lemma RateSquare21()
    ensures Mul(FFT_RATE[21], FFT_RATE[21]) == Neg(FFT_RATE[20])
  {
  }

  // ---------------------------------------------------------------------
  // Properties of the running twiddles

  /** The inverse transform's twiddle undoes the forward one, block by block. */
  lemma {:induction false} RhoInverse(s: nat)
    requires s < MAX_LEN
    ensures Mul(Rho(s), IRho(s)) == 1
  {
    if s > 0 {
      var r := s - 1;
      RhoInverse(r);
      RhoInverseStep(r, s);
    }
  }

  /** The step of RhoInverse from block r to block s == r + 1. */
  lemma RhoInverseStep(r: nat, s: nat)
    requires s == r + 1 && s < MAX_LEN && Mul(Rho(r), IRho(r)) == 1
    ensures Mul(Rho(s), IRho(s)) == 1
  {
    Pow2Values();
    var t := TrailingOnes(r);
    TrailingOnesBound(r, TABLE_LEN);
    RhoNext(r, s, t);
    IRhoNext(r, s, t);
    RateInverse(t);
    TablesReduced();
    MulSwapMiddle(Rho(r), FFT_RATE[t], IRho(r), FFT_IRATE[t]);
  }

  /** Rho(s) is a square root of Gamma(s) = +-Rho(s / 2): the twiddle of a
      block at one level squares to that of its parent block. */
  lemma {:induction false} RhoSquared(s: nat)
    requires s < MAX_BLOCKS
    ensures Mul(Rho(s), Rho(s)) == Gamma(s)
  {
    if s == 0 {
      MulOne(1);
    } else {
      var p := s - 1;
      RhoSquared(p);
      RhoSquaredStep(p, s);
    }
  }

  /** The two children of block s one level down: the points of block
      2s are the square roots Rho(s) selects, those of block 2s + 1 their
      negatives. */
  lemma GammaChildren(s: nat)
    ensures Gamma(s + s) == Rho(s) && Gamma(s + s + 1) == Neg(Rho(s))
  {
    assert (s + s) % 2 == 0 && (s + s) / 2 == s;
    assert (s + s + 1) % 2 == 1 && (s + s + 1) / 2 == s;
  }

  /** The step of RhoSquared from block p to block k == p + 1. */
  lemma RhoSquaredStep(p: nat, k: nat)
    requires k == p + 1 && k < MAX_BLOCKS
    requires Mul(Rho(p), Rho(p)) == Gamma(p)
    ensures Mul(Rho(k), Rho(k)) == Gamma(k)
  {
    Pow2Values();
    TrailingOnesBound(p, TABLE_LEN - 1);
    var t := TrailingOnes(p);
    RhoNext(p, k, t);
    TablesReduced();
    SquareOfProduct(Rho(p), FFT_RATE[t]);
    if p % 2 == 0 {
      RhoSquaredEvenStep(p);
    } else {
      RhoSquaredOddStep(p);
    }
  }

  /** From an even block the square gains the factor FFT_RATE[0]^2 == -1. */
  lemma RhoSquaredEvenStep(p: nat)
    requires p + 1 < MAX_BLOCKS && p % 2 == 0
    ensures TrailingOnes(p) == 0
    ensures Mul(Gamma(p), Mul(FFT_RATE[0], FFT_RATE[0])) == Gamma(p + 1)
  {
    var a := Rho(p / 2);
    assert (p + 1) / 2 == p / 2 && (p + 1) % 2 == 1;
    assert Gamma(p) == a;
    assert Gamma(p + 1) == Neg(a);
    FirstRateSquare();
    MulComm(a, MOD - 1);
    MulMinusOne(a);
  }

  /** From an odd block with t trailing ones the square gains the factor
      FFT_RATE[t]^2 == -FFT_RATE[t - 1], which both flips the sign and
      advances the parent block's twiddle. */
  lemma RhoSquaredOddStep(p: nat)
    requires p + 1 < MAX_BLOCKS && p % 2 == 1
    ensures 0 < TrailingOnes(p) < TABLE_LEN
    ensures Mul(Gamma(p), Mul(FFT_RATE[TrailingOnes(p)], FFT_RATE[TrailingOnes(p)])) == Gamma(p + 1)
  {
    var q := p / 2;
    var t := TrailingOnes(p);
    OddBlockTwiddles(p, q, t);
    RateSquare(t);
    TablesReduced();
    SignFlip(Gamma(p), Gamma(p + 1), Rho(q), FFT_RATE[t - 1], FFT_RATE[t]);
  }

  /** The points of odd block p and of p + 1 in terms of the parent q's
      twiddle, and the rate entry between Rho(q) and Rho(q + 1). */
  lemma OddBlockTwiddles(p: nat, q: nat, t: nat)
    requires p + 1 < MAX_BLOCKS && p % 2 == 1 && q == p / 2 && t == TrailingOnes(p)
    ensures 0 < t < TABLE_LEN
    ensures Gamma(p) == Neg(Rho(q)) && Gamma(p + 1) == Rho(q + 1)
    ensures Rho(q + 1) == Mul(Rho(q), FFT_RATE[t - 1])
  {
    Pow2Values();
    TrailingOnesBound(p, TABLE_LEN - 1);
    OddBlock(p, q);
    RhoNext(q, q + 1, t - 1);
  }

  /** The twiddle of block k == s + 1: Rho(s) times the rate entry t
      picked by the trailing ones of s. */
  lemma RhoNext(s: nat, k: nat, t: nat)
    requires k == s + 1 && t == TrailingOnes(s) && t < TABLE_LEN
    ensures Rho(k) == Mul(Rho(s), FFT_RATE[t])
  {
    assert k - 1 == s;
    TablesReduced();
  }

  /** The inverse twiddle of block k == s + 1, built like RhoNext. */
  lemma IRhoNext(s: nat, k: nat, t: nat)
    requires k == s + 1 && t == TrailingOnes(s) && t < TABLE_LEN
    ensures IRho(k) == Mul(IRho(s), FFT_IRATE[t])
  {
    assert k - 1 == s;
    TablesReduced();
  }

  /** Odd block p and its parent q: one more trailing one, and the points
      of p and p + 1 are -Rho(q) and Rho(q + 1). */
  lemma OddBlock(p: nat, q: nat)
    requires p % 2 == 1 && q == p / 2
    ensures TrailingOnes(p) == TrailingOnes(q) + 1
    ensures Gamma(p) == Neg(Rho(q)) && Gamma(p + 1) == Rho(q + 1)
  {
    assert (p + 1) / 2 == q + 1 && (p + 1) % 2 == 0;
  }

  /** -r * b^2 == r * a when b^2 == -a. */
  lemma SignFlip(g: ModInt, g1: ModInt, r: ModInt, a: ModInt, b: ModInt)
    requires g == Neg(r) && g1 == Mul(r, a) && Mul(b, b) == Neg(a)
    ensures Mul(g, Mul(b, b)) == g1
  {
    MulNegNeg(r, a);
  }

  lemma SquareOfProduct(x: ModInt, r: ModInt)
    ensures Mul(Mul(x, r), Mul(x, r)) == Mul(Mul(x, x), Mul(r, r))
  {
    MulSwapMiddle(x, r, x, r);
  }

  // ---------------------------------------------------------------------
  // Powers of two are invertible: 2^(MOD-1) == 1

  /** SQUARES[j] is (2^119)^(2^j) modulo MOD. */
  ghost const SQUARES: seq<ModInt> := [
    749268343, 854599625, 275981743, 121229115, 564515440, 500482297,
    929671676, 972782536, 319351757, 216733819, 307971575, 823085725,
    900830825, 765263132, 896052152, 842947365, 158463934, 645684063,
    624949902, 625715529, 911660635, 998244352, 1
  ]

  /** Each entry of SQUARES is the square of the previous one. */
  lemma SquaresStep(j: nat)
    requires j < 22
    ensures SQUARES[j + 1] == Mul(SQUARES[j], SQUARES[j])
  {
    match j
    case 0 => SquaresStep0();
    case 1 => SquaresStep1();
    case 2 => SquaresStep2();
    case 3 => SquaresStep3();
    case 4 => SquaresStep4();
    case 5 => SquaresStep5();
    case 6 => SquaresStep6();
    case 7 => SquaresStep7();
    case 8 => SquaresStep8();
    case 9 => SquaresStep9();
    case 10 => SquaresStep10();
    case 11 => SquaresStep11();
    case 12 => SquaresStep12();
    case 13 => SquaresStep13();
    case 14 => SquaresStep14();
    case 15 => SquaresStep15();
    case 16 => SquaresStep16();
    case 17 => SquaresStep17();
    case 18 => SquaresStep18();
    case 19 => SquaresStep19();
    case 20 => SquaresStep20();
    case 21 => SquaresStep21();
  }

  lemma SquaresStep0()
    ensures SQUARES[1] == Mul(SQUARES[0], SQUARES[0])
  {
  }

  lemma SquaresStep1()
    ensures SQUARES[2] == Mul(SQUARES[1], SQUARES[1])
  {
  }

  lemma SquaresStep2()
    ensures SQUARES[3] == Mul(SQUARES[2], SQUARES[2])
  {
  }

  lemma SquaresStep3()
    ensures SQUARES[4] == Mul(SQUARES[3], SQUARES[3])
  {
  }

  lemma SquaresStep4()
    ensures SQUARES[5] == Mul(SQUARES[4], SQUARES[4])
  {
  }

  lemma SquaresStep5()
    ensures SQUARES[6] == Mul(SQUARES[5], SQUARES[5])
  {
  }

  lemma SquaresStep6()
    ensures SQUARES[7] == Mul(SQUARES[6], SQUARES[6])
  {
  }

  lemma SquaresStep7()
    ensures SQUARES[8] == Mul(SQUARES[7], SQUARES[7])
  {
  }

  lemma SquaresStep8()
    ensures SQUARES[9] == Mul(SQUARES[8], SQUARES[8])
  {
  }

  lemma SquaresStep9()
    ensures SQUARES[10] == Mul(SQUARES[9], SQUARES[9])
  {
  }

  lemma SquaresStep10()
    ensures SQUARES[11] == Mul(SQUARES[10], SQUARES[10])
  {
  }

  lemma SquaresStep11()
    ensures SQUARES[12] == Mul(SQUARES[11], SQUARES[11])
  {
  }

  lemma SquaresStep12()
    ensures SQUARES[13] == Mul(SQUARES[12], SQUARES[12])
  {
  }

  lemma SquaresStep13()
    ensures SQUARES[14] == Mul(SQUARES[13], SQUARES[13])
  {
  }

  lemma SquaresStep14()
    ensures SQUARES[15] == Mul(SQUARES[14], SQUARES[14])
  {
  }

  lemma SquaresStep15()
    ensures SQUARES[16] == Mul(SQUARES[15], SQUARES[15])
  {
  }

  lemma SquaresStep16()
    ensures SQUARES[17] == Mul(SQUARES[16], SQUARES[16])
  {
  }

  lemma SquaresStep17()
    ensures SQUARES[18] == Mul(SQUARES[17], SQUARES[17])
  {
  }

  lemma SquaresStep18()
    ensures SQUARES[19] == Mul(SQUARES[18], SQUARES[18])
  {
  }

  lemma SquaresStep19()
    ensures SQUARES[20] == Mul(SQUARES[19], SQUARES[19])
  {
  }

  lemma SquaresStep20()
    ensures SQUARES[21] == Mul(SQUARES[20], SQUARES[20])
  {
  }

  lemma SquaresStep21()
    ensures SQUARES[22] == Mul(SQUARES[21], SQUARES[21])
  {
  }

  lemma {:induction false} PowOfTwoSmall(two: ModInt, n: nat)
    requires two == 2 && n <= 29
    ensures Pow2(n) < MOD && PowSpec(two, n) == Pow2(n)
  {
    Pow2Monotone(n, 29);
    Pow2Values();
    if n > 0 {
      PowOfTwoSmall(two, n - 1);
      assert PowSpec(two, n) == (2 * Pow2(n - 1)) % MOD;
    }
  }

  lemma {:induction false} SquaresArePowers(c: ModInt, j: nat)
    requires j <= 22 && c == SQUARES[0]
    ensures PowSpec(c, Pow2(j)) == SQUARES[j]
  {
    if j > 0 {
      var i := j - 1;
      SquaresArePowers(c, i);
      SquaresArePowersStep(c, i, j);
    }
  }

  /** The step of SquaresArePowers from i to j == i + 1. */
  lemma SquaresArePowersStep(c: ModInt, i: nat, j: nat)
    requires j == i + 1 && j <= 22 && PowSpec(c, Pow2(i)) == SQUARES[i]
    ensures PowSpec(c, Pow2(j)) == SQUARES[j]
  {
    Pow2Double(i, j);
    PowAdd(c, Pow2(i), Pow2(i));
    SquaresStep(i);
    SquareGlue(PowSpec(c, Pow2(j)), PowSpec(c, Pow2(i)), SQUARES[i], SQUARES[j]);
  }

  /** Equal factors give equal squares. */
  lemma SquareGlue(x: ModInt, y: ModInt, u: ModInt, v: ModInt)
    requires x == Mul(y, y) && y == u && v == Mul(u, u)
    ensures x == v
  {
  }

  /** 2^119 modulo MOD, by 119 == 4 * 29 + 3. */
  lemma TwoTo119(two: ModInt)
    requires two == 2
    ensures PowSpec(two, 119) == SQUARES[0]
  {
    PowOfTwoSmall(two, 29);
    PowOfTwoSmall(two, 3);
    Pow2Values();
    assert Pow2(3) == 8;
    PowAdd(two, 29, 29);
    assert Mul(536870912, 536870912) == 919222256;
    PowAdd(two, 58, 58);
    assert Mul(919222256, 919222256) == 218439087;
    PowAdd(two, 116, 3);
    assert Mul(218439087, 8) == SQUARES[0];
  }

  /** 2^(MOD-1) == 1 modulo MOD. */
  lemma TwoToTheOrder(two: ModInt)
    requires two == 2
    ensures PowSpec(two, MOD - 1) == 1
  {
    TwoTo119(two);
    var c := PowSpec(two, 119);
    SquaresArePowers(c, 22);
    Pow2Values();
    var n := Pow2(22);
    PowOfPow(two, 119, n);
    var m := 119 * n;
    PowAdd(two, m, m);
    assert m + m == MOD - 1;
  }

  lemma {:induction false} PowerOfTwoOrder(h: nat)
    requires Pow2(h) < MOD
    ensures PowSpec(Pow2(h), MOD - 1) == 1
  {
    if h == 0 {
      PowOne(MOD - 1);
    } else {
      Pow2Monotone(h - 1, h);
      PowerOfTwoOrder(h - 1);
      TwoToTheOrder(2);
      assert Pow2(h) == Mul(2, Pow2(h - 1));
      PowOfProduct(2, Pow2(h - 1), MOD - 1);
    }
  }

  /** Every power of two below MOD has 2^h * (2^h)^(MOD-2) == 1: the
      inverse of the transform size exists and is what `inv` computes. */
  lemma PowerOfTwoInverse(h: nat)
    requires Pow2(h) < MOD
    ensures Mul(Pow2(h), InvSpec(Pow2(h))) == 1
  {
    PowerOfTwoOrder(h);
    assert PowSpec(Pow2(h), MOD - 1) == Mul(Pow2(h), PowSpec(Pow2(h), MOD - 2));
  }
}
