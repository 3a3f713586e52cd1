# Modular arithmetic, NTT convolution and power series, in Dafny

This project models three files of a Rust library of algorithms for
competitive programming and proves properties about them:

- `ModInt`: residues modulo the prime 998244353 = 119 * 2^23 + 1. The
  model covers reduction, `+`, `-`, `*`, `/`, square-and-multiply `pow`,
  the Fermat inverse and the compound assignments.
- `conv`: the number-theoretic transform (NTT) convolution.
  - Both inputs are zero-padded to the next power of two `t`.
  - They are transformed in place by the `ntt` closure and multiplied
    entry by entry.
  - The product goes back through the `intt` closure, which does not
    divide by `t`.
  - The result is cut to `|a| + |b| - 1` entries and multiplied by
    `t^-1`.
  - Each pass uses a running twiddle `rot` that is multiplied by
    `FFT_RATE[(!s).trailing_zeros()]` after block `s`; `irot` and
    `FFT_IRATE` do the same for `intt`.
- `FPS`: a formal power series stored as a coefficient vector. The model
  covers `get` (zero past the end), `set`, `truncate` (cut, then pop
  trailing zeros), `is_empty`, and coefficient-wise `+`/`-` over the
  longer length, with their assigning forms.

## How the model is arranged

| file | module | contents |
|---|---|---|
| `modint.dfy` | `Modint` | residues as the subset type `ModInt`; operations, `Pow` as a loop, field laws |
| `bits.dfy` | `Bits` | `Pow2`, `trailing_zeros`, trailing ones of `s`, `next_power_of_two` |
| `twiddle.dfy` | `Twiddle` | `FFT_RATE`, `FFT_IRATE`; the running twiddles `Rho`/`IRho`; the root-of-unity facts about them |
| `poly.dfy` | `Poly` | polynomial evaluation, schoolbook product coefficients, sequence helpers |
| `transform.dfy` | `Transform` | the passes as functions (`FwdPass`, `InvPass`), the transforms `NttSpec`/`InttSpec`, the evaluation and round-trip theorems |
| `convolution.dfy` | `Convolution` | the in-place `Ntt`/`Intt` methods over an array, block by block; `Conv` |
| `fps.dfy` | `Fps` | the `FPS` class and the specification functions of its operations |

- `ntt` and `intt` work in place, so they are methods that modify an
  `array<ModInt>`. Each has its own loop nest: passes, blocks of a pass,
  then butterflies within a block. Each method is proved equal to a
  specification function of its input.
- The transform's meaning rests on one evaluation fact: after the forward
  transform, slot `s` holds the input polynomial evaluated at `Gamma(s)`.
  `Gamma(s)` is `Rho(s / 2)` for even `s` and `-Rho(s / 2)` for odd `s`;
  `Rho(s)` squares to `Gamma(s)`.
- From that fact the model derives the convolution theorem. It also
  proves that the inverse passes undo the forward ones up to the factor
  `2^h`.
- The root-of-unity facts about the two tables are not assumed. They are
  proved from concrete modular products that the verifier evaluates:
  - `FFT_RATE[t] * FFT_IRATE[t] == 1`;
  - `FFT_RATE[0]^2 == -1`, and `FFT_RATE[t]^2 == -FFT_RATE[t-1]`;
  - 2 has order dividing `MOD - 1`.
- `FPS` updates its vector in place, so it is a class with a
  `coeff: seq<ModInt>` field. The pure parts are functions on the
  sequence: the iterator pipelines of `+`/`-` and the result of the
  `truncate` loop. The lemmas are stated about those functions.

Edge cases of the code that the model follows as written:

- `conv` serves transform lengths up to 2^22, not 2^23. Consider the last
  pass of a 2^23-point transform. After its final block
  (`s = 2^22 - 1`), `rot *= FFT_RATE[(!s).trailing_zeros()]` reads index
  22 of a 22-entry table, which panics (`Convolution.NextSizeReadsPastTable`).
  `Conv` therefore requires `|a| + |b| - 1 <= 2^22`, although MOD - 1 is
  divisible by 2^23.
- `conv` with exactly one empty input returns `|other| - 1` zeros rather
  than an empty vector: `s = |a| + |b| - 1` is computed and used as is. With both
  inputs empty, `0 - 1` underflows a `usize`. That case is excluded by
  the precondition.
- `set(n, a)` does not grow the vector so that index `n` exists; see
  Findings.

## Model

| member | source | states |
|---|---|---|
| Modint.New | src/modint.rs:11-13 | `new` yields a reduced residue (the type), and a value already below MOD is kept unchanged |
| Modint.NewCongruent | src/modint.rs:11-13 | `new(n)` is congruent to `n` modulo MOD |
| Modint.Val | src/modint.rs:15-17 | `val` is below MOD, and `new(val(a)) == a` (round trip) |
| Modint.Add | src/modint.rs:44-49 | the sum is `a + b`, less MOD when it reaches MOD |
| Modint.Sub | src/modint.rs:53-66 | the conditional `MOD + a - b` never goes negative, and adding `b` back gives `a` |
| Modint.SubAsMod | src/modint.rs:53-66 | `a - b` is the integer difference reduced modulo MOD |
| Modint.SubUnique | src/modint.rs:53-66 | `a - b` is the only residue `d` with `d + b == a` |
| Modint.SubSelf | src/modint.rs:53-66 | `a - a == 0` |
| Modint.ProductFitsWord | src/modint.rs:70-75 | the product of two residues fits a 64-bit word, so `mul` never overflows before reducing |
| Modint.Mul | src/modint.rs:70-75 | the product residue is congruent to the integer product (`IsProduct`: `a * b - mul(a, b)` is a multiple of MOD) |
| Modint.MulComm | src/modint.rs:70-75 | multiplication commutes |
| Modint.MulAssoc | src/modint.rs:70-75 | multiplication is associative |
| Modint.MulAddDistrib | src/modint.rs:44-49 | multiplication distributes over `+` |
| Modint.MulSubDistrib | src/modint.rs:53-66 | multiplication distributes over `-` |
| Modint.AddComm | src/modint.rs:44-49 | addition commutes |
| Modint.AddAssoc | src/modint.rs:44-49 | addition is associative |
| Modint.Pow | src/modint.rs:27-39 | the square-and-multiply loop returns a^n, the n-fold product, for every word `n`; the loop keeps `res * x^k == a^n` |
| Modint.PowAdd | src/modint.rs:27-39 | a^(m+n) == a^m * a^n |
| Modint.PowOfPow | src/modint.rs:27-39 | a^(m*n) == (a^m)^n |
| Modint.PowSquare | src/modint.rs:31-35 | squaring the base halves the exponent: (a*a)^k == a^(2k), the step of the loop |
| Modint.Inv | src/modint.rs:21-23 | `inv` is a^(MOD-2), and the inverse of 0 is 0 |
| Modint.Div | src/modint.rs:79-84 | `a / b` is `a * b^(MOD-2)`; dividing by 0 gives 0 |
| Modint.AddAssign | src/modint.rs:88-92 | `+=` leaves `lhs + other`, from which subtracting `other` recovers `lhs` |
| Modint.SubAssign | src/modint.rs:96-100 | `-=` leaves `lhs - other`, to which adding `other` recovers `lhs` |
| Modint.MulAssign | src/modint.rs:104-108 | `*=` leaves `lhs * other` |
| Modint.DivAssign | src/modint.rs:112-116 | `/=` leaves `lhs * other^(MOD-2)`, and 0 when `other` is 0 |
| Bits.NextPowerOfTwo | src/convolution.rs:67 | `next_power_of_two(s)` is a power of two at least `s` |
| Bits.NextPowerOfTwoLeast | src/convolution.rs:67 | it is the least one: every power of two at least `s` is at least it |
| Bits.TrailingZerosOfPow2 | src/convolution.rs:17-18 | `trailing_zeros` of 2^h is h, so the closures recover the number of passes |
| Bits.PowerOfTwoExponent | src/convolution.rs:17-18 | conversely, every power of two n is 2^`trailing_zeros(n)`, so the exponent the closures read off the length gives back the length |
| Bits.TrailingOnesBound | src/convolution.rs:34-36 | below 2^L, `(!s).trailing_zeros()` is at most L, and below L unless `s` is the last block |
| Twiddle.TablesReduced | src/convolution.rs:3-13 | both tables have 22 entries, each below MOD, so `ModInt { val }` on them keeps the invariant |
| Twiddle.RateInverse | src/convolution.rs:3-13 | `FFT_RATE[t] * FFT_IRATE[t] == 1` for every entry |
| Twiddle.FirstRateSquare | src/convolution.rs:3-7 | `FFT_RATE[0]` squares to -1 |
| Twiddle.RateSquare | src/convolution.rs:3-7 | each later entry squares to minus the previous one |
| Twiddle.RhoInverse | src/convolution.rs:22-36 | the inverse twiddle of every block below 2^22 undoes the forward one |
| Twiddle.RhoSquared | src/convolution.rs:22-36 | the twiddle of block `s` squares to `Gamma(s)`, plus or minus the twiddle of its parent block `s / 2` |
| Transform.FwdPassPair | src/convolution.rs:28-33 | a forward pass maps entries `base+i`, `base+p+i` of each block to `l + r*rot`, `l - r*rot` |
| Transform.InvPassPair | src/convolution.rs:53-58 | an inverse pass maps them to `l + r`, `(l - r)*irot` |
| Transform.NttEvaluates | src/convolution.rs:16-39 | slot `s` of the forward transform is the input polynomial evaluated at `Gamma(s)` |
| Transform.InvPassUndoes | src/convolution.rs:41-64 | an inverse pass after the forward pass of the same block size gives twice the input |
| Transform.NttRoundTrip | src/convolution.rs:16-64 | `intt(ntt(x)) == 2^h * x` for every input of length 2^h, h <= 22 |
| Poly.EvalProduct | src/convolution.rs:66-79 | the schoolbook coefficients of `a * b` evaluate to `eval(a) * eval(b)` at every point |
| Convolution.NttBlock | src/convolution.rs:28-33 | the butterfly loop over one block writes that block's entries of the forward pass and changes nothing else |
| Convolution.InttBlock | src/convolution.rs:53-58 | the same for the inverse butterflies |
| Convolution.NttPass | src/convolution.rs:21-37 | one level of `ntt`, block by block with the running `rot`, leaves the forward pass of the old contents |
| Convolution.InttPass | src/convolution.rs:46-62 | one level of `intt` leaves the inverse pass of the old contents |
| Convolution.NextRot | src/convolution.rs:34-36 | the twiddle update gives the next block's twiddle |
| Convolution.NextIRot | src/convolution.rs:59-61 | the inverse twiddle update gives the next block's inverse twiddle |
| Convolution.NextSizeReadsPastTable | src/convolution.rs:34-36 | in a transform of 2^23 entries, the update after the last block of the last pass indexes the rate tables at 22, their length, so 2^22 is the largest size `conv` can run |
| Convolution.NextBlock | src/convolution.rs:23-36 | in a transform of at most 2^22 entries, every twiddle update, including the one after the last block of a pass, reads inside the table |
| Convolution.Ntt | src/convolution.rs:16-39 | the `ntt` closure leaves `NttSpec` of the old contents: all h forward passes, h = trailing zeros of the length |
| Convolution.Intt | src/convolution.rs:41-64 | the `intt` closure leaves `InttSpec` of the old contents, which undoes `NttSpec` up to the factor 2^h |
| Convolution.MulEach | src/convolution.rs:74 | the zip loop multiplies the first vector by the second, entry by entry |
| Convolution.ScaleEach | src/convolution.rs:78 | the final loop multiplies every entry by `t^-1` |
| Convolution.ConvSizes | src/convolution.rs:66-67 | t is a power of two 2^h at least `|a| + |b| - 1` and at most 2^22, with h recovered by `trailing_zeros`; that it is the least such power is `Bits.NextPowerOfTwoLeast` |
| Convolution.ConvolutionTheorem | src/convolution.rs:69-75 | the entry-wise product of the two transforms is the transform of the padded product |
| Twiddle.TwoToTheOrder | src/modint.rs:3 | 2^(MOD-1) == 1 modulo MOD, from 2^119 and 23 squarings |
| Twiddle.PowerOfTwoInverse | src/convolution.rs:77 | `t * t.inv() == 1` for every t = 2^h below MOD |
| Convolution.Unscale | src/convolution.rs:76-78 | cutting `t * product` to `s` entries and scaling by `t^-1` gives the product back |
| Convolution.Conv | src/convolution.rs:15-80 | `conv(a, b)` has `|a| + |b| - 1` entries, entry k being the schoolbook sum of `a[i] * b[k - i]` |
| Fps.FPS.constructor | src/fps.rs:10-12 | `new` stores the coefficient vector as given |
| Fps.FPS.Len | src/fps.rs:14-16 | `len` is the number of stored coefficients, trailing zeros included |
| Fps.FPS.Get | src/fps.rs:24-26 | `get(n)` is the stored coefficient below the length and zero past it |
| Fps.FPS.IsEmpty | src/fps.rs:18-20 | `is_empty` holds exactly when `get(i)` is zero for every `i`, including for the zero-length vector |
| Fps.FPS.Set | src/fps.rs:28-33 | with `n < len`, `set` changes only coefficient n, to `a`, and keeps the length |
| Fps.FPS.Truncate | src/fps.rs:36-41 | the cut and the popping loop leave `Truncated(old coeff, len)` |
| Fps.Trimmed | src/fps.rs:38-40 | popping trailing zeros leaves a prefix whose last coefficient, if any, is nonzero |
| Fps.TrimmedKeepsCoeffs | src/fps.rs:38-40 | popping trailing zeros does not change any `get` |
| Fps.AllZeroIffTrimmedEmpty | src/fps.rs:18-20 | `is_empty` holds exactly when trimming the trailing zeros leaves nothing |
| Fps.TruncatedCoeffs | src/fps.rs:36-41 | after `truncate(len)`: a prefix of at most `len` coefficients whose last one is nonzero; `get(i)` is kept below `len` and is zero from `len` on |
| Fps.TruncateIdempotent | src/fps.rs:36-41 | truncating twice to the same length equals truncating once |
| Fps.SumCoeffAt | src/fps.rs:46-49 | `f + g` has length `max(len f, len g)` and coefficient i `f.get(i) + g.get(i)` for every i, untrimmed |
| Fps.DiffCoeffAt | src/fps.rs:54-57 | `f - g` has length `max(len f, len g)` and coefficient i `f.get(i) - g.get(i)` for every i |
| Fps.SumCommutes | src/fps.rs:46-49 | `f + g == g + f` |
| Fps.SumEmpty | src/fps.rs:46-49 | adding the empty series changes nothing |
| Fps.DiffSelfZero | src/fps.rs:54-57 | `f - f` has the length of f and every coefficient zero, so it `is_empty` |
| Fps.SubUndoesAdd | src/fps.rs:46-57 | `(f + g) - g` reads as f at every coefficient |
| Fps.AddUndoesSub | src/fps.rs:46-57 | `(f - g) + g` reads as f at every coefficient |
| Fps.FPS.Add | src/fps.rs:46-49 | `+` returns a new series holding the coefficient-wise sum |
| Fps.FPS.Sub | src/fps.rs:54-57 | `-` returns a new series holding the coefficient-wise difference |
| Fps.FPS.AddAssign | src/fps.rs:60-64 | after `+=`, `self` holds `old self + other` |
| Fps.FPS.SubAssign | src/fps.rs:66-70 | after `-=`, `self` holds `old self - other` |
| Fps.Grown | src/fps.rs:29-31 | the guarded `resize` pads to `max(len, n)` and leaves every `get` unchanged |
| Fps.SetAsWritten | src/fps.rs:28-33 | as written, `set(n, a)` panics exactly when `n >= len` |
| Fps.SetPastEndPanics | src/fps.rs:28-33 | setting the coefficient just past the end panics, on the empty series too |
| Fps.SetGrown | src/fps.rs:28-33 | as intended, `set(n, a)` yields length `max(len, n + 1)`, `get(n) == a` and every other `get` unchanged |

## Left out

- Formatting: the `Display` impls of `ModInt` and `FPS` are not modelled.
- FPS algorithms: multiplication, inverse, log and exp of FPS are not part
  of the modelled files.
- Machine words: `usize` is taken as 64 bits wide (`Modint.Usize`). `usize`
  arithmetic outside `ModInt` (lengths, `1 << k`) is unbounded in the
  model, because every length involved is at most 2^22.
- Convolution.Conv: requires `1 <= |a| + |b|` and `|a| + |b| - 1 <= 2^22`.
  The source underflows in the first case and reads past `FFT_RATE` for
  longer products.
- Convolution.Ntt, Convolution.Intt: the `ghost` parameter `h` names the
  exponent of the length for the specification. The methods compute the
  number of passes themselves, with `TrailingZeros`, as the source does.
- Twiddle.Rate, Twiddle.IRate: read 1 past the end of a table, where the
  source would panic. In a transform of at most 2^22 entries no twiddle
  update reads past the table, not even the one after a pass's last block
  (`Convolution.NextBlock`), so `Ntt` and `Intt` never reach that value.
- Fps.FPS.Set: requires `n < len`, because the source panics otherwise
  (see Findings). The growing variant is modelled only as the function
  `Fps.SetGrown`.
- Fps.FPS.Add, Fps.FPS.Sub: the source consumes both operands. The model
  leaves them untouched and allocates the result.
- Modint.Inv, Modint.Div: the model proves `a * a.inv() == 1` only for
  powers of two below MOD (`Twiddle.PowerOfTwoInverse`), which is all
  `conv` uses. Fermat's little theorem for arbitrary residues is not
  proved.

## Findings

| source | as written | input that shows it | evidently intended | confidence | as-written member | corrected member |
|---|---|---|---|---|---|---|
| src/fps.rs:28-33 | `if self.len() < n { resize(n) }` then `coeff[n] = a`: the vector has length at most `max(len, n)`, so index `n` is out of range whenever `n >= len` | `set(0, a)` on the empty series, or `set(len, a)` on any series: panics | resize to `n + 1` so that index `n` exists: the `len() < n` guard only makes sense if `set` is meant to grow the vector to make room for index `n` | high, not executed | Fps.SetAsWritten (with Fps.SetPastEndPanics) | Fps.SetGrown |
