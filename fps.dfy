/** Formal power series as coefficient vectors over ModInt.

    An `FPS` owns a vector of coefficients, lowest degree first. Reading
    past the end yields zero, so a vector with trailing zeros and the same
    vector without them denote the same series; `truncate` is what drops
    them. The specification functions below work on the coefficient
    sequence; the class updates it in place the way the source does. */
module Fps {
  import opened Modint

  datatype Option<T> = None | Some(value: T)

  function Max(a: nat, b: nat): nat
  {
    if a < b then b else a
  }

  /** [x^n] of the series whose coefficients are `s`: zero past the end. */
  function CoeffAt(s: seq<ModInt>, n: nat): ModInt
  {
    if n < |s| then s[n] else 0
  }

  /** Every stored coefficient is zero. */
  predicate AllZero(s: seq<ModInt>)
  {
    forall i :: 0 <= i < |s| ==> s[i] == 0
  }

  // ---------------------------------------------------------------------
  // truncate

  /** The popping loop of `truncate`, as a function: drop zeros from the
      top until the last coefficient is nonzero or nothing is left. */
  function Trimmed(s: seq<ModInt>): (r: seq<ModInt>)
    ensures |r| <= |s| && r == s[..|r|]
    ensures r == [] || r[|r| - 1] != 0
    decreases |s|
  {
    if |s| > 0 && s[|s| - 1] == 0 then Trimmed(s[..|s| - 1]) else s
  }

  /** `truncate(len)`: keep at most `len` coefficients, then trim. */
  function Truncated(s: seq<ModInt>, len: nat): seq<ModInt>
  {
    Trimmed(if len < |s| then s[..len] else s)
  }

  /** Trimming removes only zeros, so it does not change the series. */
  lemma {:induction false} TrimmedKeepsCoeffs(s: seq<ModInt>, i: nat)
    ensures CoeffAt(Trimmed(s), i) == CoeffAt(s, i)
    decreases |s|
  {
    if |s| > 0 && s[|s| - 1] == 0 {
      TrimmedKeepsCoeffs(s[..|s| - 1], i);
    }
  }

  /** A series is zero exactly when trimming leaves no coefficient. */
  lemma {:induction false} AllZeroIffTrimmedEmpty(s: seq<ModInt>)
    ensures AllZero(s) <==> Trimmed(s) == []
    decreases |s|
  {
    if |s| > 0 && s[|s| - 1] == 0 {
      var front := s[..|s| - 1];
      AllZeroIffTrimmedEmpty(front);
      assert AllZero(s) <==> AllZero(front) by {
        if AllZero(front) {
          forall i | 0 <= i < |s| ensures s[i] == 0 {
            if i < |front| { assert s[i] == front[i]; }
          }
        }
      }
    } else if |s| > 0 {
      assert !AllZero(s) by { assert s[|s| - 1] != 0; }
    }
  }

  /** After `truncate(len)` the vector is a prefix of the old one, no longer
      than `len`, whose last coefficient (if any) is nonzero; coefficients
      below `len` are kept and those from `len` on read as zero. */
  lemma TruncatedCoeffs(s: seq<ModInt>, len: nat, i: nat)
    ensures var r := Truncated(s, len);
      |r| <= len && |r| <= |s| && r == s[..|r|] && (r == [] || r[|r| - 1] != 0)
    ensures CoeffAt(Truncated(s, len), i) == if i < len then CoeffAt(s, i) else 0
  {
    var cut := if len < |s| then s[..len] else s;
    TrimmedKeepsCoeffs(cut, i);
  }

  /** Truncating twice to the same length is the same as truncating once. */
  lemma TruncateIdempotent(s: seq<ModInt>, len: nat)
    ensures Truncated(Truncated(s, len), len) == Truncated(s, len)
  {
    TruncatedCoeffs(s, len, 0);
  }

  // ---------------------------------------------------------------------
  // + and -

  /** `+`: coefficient-wise sum over the longer of the two lengths. */
  function SumCoeffs(f: seq<ModInt>, g: seq<ModInt>): seq<ModInt>
  {
    seq(Max(|f|, |g|), i requires 0 <= i < Max(|f|, |g|) => Add(CoeffAt(f, i), CoeffAt(g, i)))
  }

  /** `-`: coefficient-wise difference over the longer of the two lengths. */
  function DiffCoeffs(f: seq<ModInt>, g: seq<ModInt>): seq<ModInt>
  {
    seq(Max(|f|, |g|), i requires 0 <= i < Max(|f|, |g|) => Sub(CoeffAt(f, i), CoeffAt(g, i)))
  }

  /** The sum is the series whose every coefficient, stored or not, is the
      sum of the operands' coefficients; nothing is trimmed. */
  lemma SumCoeffAt(f: seq<ModInt>, g: seq<ModInt>, i: nat)
    ensures |SumCoeffs(f, g)| == Max(|f|, |g|)
    ensures CoeffAt(SumCoeffs(f, g), i) == Add(CoeffAt(f, i), CoeffAt(g, i))
  {
    AddZero(0);
  }

  /** The difference, coefficient by coefficient, stored or not. */
  lemma DiffCoeffAt(f: seq<ModInt>, g: seq<ModInt>, i: nat)
    ensures |DiffCoeffs(f, g)| == Max(|f|, |g|)
    ensures CoeffAt(DiffCoeffs(f, g), i) == Sub(CoeffAt(f, i), CoeffAt(g, i))
  {
    SubSelf(0);
  }

  lemma SumCommutes(f: seq<ModInt>, g: seq<ModInt>)
    ensures SumCoeffs(f, g) == SumCoeffs(g, f)
  {
    forall i | 0 <= i < Max(|f|, |g|) ensures SumCoeffs(f, g)[i] == SumCoeffs(g, f)[i] {
      AddComm(CoeffAt(f, i), CoeffAt(g, i));
    }
  }

  /** Adding the empty series changes nothing. */
  lemma SumEmpty(f: seq<ModInt>)
    ensures SumCoeffs(f, []) == f
  {
    forall i | 0 <= i < |f| ensures SumCoeffs(f, [])[i] == f[i] {
      AddZero(f[i]);
    }
  }

  /** f - f keeps the length of f and every coefficient is zero. */
  lemma DiffSelfZero(f: seq<ModInt>)
    ensures |DiffCoeffs(f, f)| == |f| && AllZero(DiffCoeffs(f, f))
  {
    forall i | 0 <= i < |f| ensures DiffCoeffs(f, f)[i] == 0 {
      SubSelf(f[i]);
    }
  }

  /** (f + g) - g is f, coefficient by coefficient. */
  lemma SubUndoesAdd(f: seq<ModInt>, g: seq<ModInt>, i: nat)
    ensures CoeffAt(DiffCoeffs(SumCoeffs(f, g), g), i) == CoeffAt(f, i)
  {
    SumCoeffAt(f, g, i);
    DiffCoeffAt(SumCoeffs(f, g), g, i);
    SubUnique(Add(CoeffAt(f, i), CoeffAt(g, i)), CoeffAt(g, i), CoeffAt(f, i));
  }

  /** (f - g) + g is f, coefficient by coefficient. */
  lemma AddUndoesSub(f: seq<ModInt>, g: seq<ModInt>, i: nat)
    ensures CoeffAt(SumCoeffs(DiffCoeffs(f, g), g), i) == CoeffAt(f, i)
  {
    DiffCoeffAt(f, g, i);
    SumCoeffAt(DiffCoeffs(f, g), g, i);
  }

  // ---------------------------------------------------------------------
  // set

  /** `Vec::resize` guarded by `len < n`: pad with zeros up to length n.
      The series itself is unchanged. */
  function Grown(s: seq<ModInt>, n: nat): (r: seq<ModInt>)
    ensures |r| == Max(|s|, n)
    ensures forall i: nat :: CoeffAt(r, i) == CoeffAt(s, i)
  {
    if |s| < n then s + seq(n - |s|, _ => 0) else s
  }

  /** `set(n, a)` as written: grow to length n, then write index n, which
      panics (None) unless n was already below the length. */
  function SetAsWritten(s: seq<ModInt>, n: nat, a: ModInt): (r: Option<seq<ModInt>>)
    ensures r.None? <==> n >= |s|
  {
    var t := Grown(s, n);
    if n < |t| then Some(t[n := a]) else None
  }

  /** Setting the coefficient just past the end, the first case the growth
      branch would be needed for, panics on every series. */
  lemma SetPastEndPanics(s: seq<ModInt>, a: ModInt)
    ensures SetAsWritten(s, |s|, a) == None
    ensures SetAsWritten([], 0, a) == None
  {
  }

  /** `set(n, a)` as intended: grow to length n + 1, then write index n. */
  function SetGrown(s: seq<ModInt>, n: nat, a: ModInt): (r: seq<ModInt>)
    ensures |r| == Max(|s|, n + 1)
    ensures forall i: nat :: CoeffAt(r, i) == if i == n then a else CoeffAt(s, i)
  {
    Grown(s, n + 1)[n := a]
  }

  // ---------------------------------------------------------------------
  // The series object

  class FPS {
    var coeff: seq<ModInt>

    /** `new`: take ownership of the coefficient vector as given. */
    constructor (coeff: seq<ModInt>)
      ensures this.coeff == coeff
    {
      this.coeff := coeff;
    }

    /** `len`: the number of stored coefficients, trailing zeros included. */
    function Len(): (n: nat)
      reads this
      ensures n == |coeff|
    {
      |coeff|
    }

    /** `get`: [x^n], zero past the stored coefficients. */
    function Get(n: nat): (r: ModInt)
      reads this
      ensures n < |coeff| ==> r == coeff[n]
      ensures n >= |coeff| ==> r == 0
    {
      CoeffAt(coeff, n)
    }

    /** `is_empty`: every stored coefficient is zero, i.e. the series is
        the zero series. */
    predicate IsEmpty(): (b: bool)
      reads this
      ensures b <==> forall i: nat :: Get(i) == 0
    {
      assert (forall i: nat :: Get(i) == 0) ==> AllZero(coeff) by {
        if forall i: nat :: Get(i) == 0 {
          forall i | 0 <= i < |coeff| ensures coeff[i] == 0 {
            assert Get(i) == 0;
          }
        }
      }
      AllZero(coeff)
    }

    /** `set`: the growth branch is dead under the precondition, so only
        index n changes and the length stays. */
    method Set(n: nat, a: ModInt)
      requires n < |coeff|
      modifies this
      ensures coeff == SetGrown(old(coeff), n, a)
      ensures |coeff| == old(|coeff|) && coeff[n] == a
      ensures forall i :: 0 <= i < |coeff| && i != n ==> coeff[i] == old(coeff)[i]
    {
      coeff := Grown(coeff, n)[n := a];
    }

    /** `truncate`: cut to `len` coefficients, then pop trailing zeros. */
    method Truncate(len: nat)
      modifies this
      ensures coeff == Truncated(old(coeff), len)
    {
      if len < |coeff| {
        coeff := coeff[..len];
      }
      while |coeff| > 0 && coeff[|coeff| - 1] == 0
        invariant Trimmed(coeff) == Truncated(old(coeff), len)
        decreases |coeff|
      {
        coeff := coeff[..|coeff| - 1];
      }
    }

    /** `+`: a fresh series holding the coefficient-wise sum. */
    method Add(other: FPS) returns (sum: FPS)
      ensures fresh(sum) && sum.coeff == SumCoeffs(coeff, other.coeff)
    {
      sum := new FPS(SumCoeffs(coeff, other.coeff));
    }

    /** `-`: a fresh series holding the coefficient-wise difference. */
    method Sub(other: FPS) returns (diff: FPS)
      ensures fresh(diff) && diff.coeff == DiffCoeffs(coeff, other.coeff)
    {
      diff := new FPS(DiffCoeffs(coeff, other.coeff));
    }

    /** `+=`: replace the coefficients by those of `self + other`. */
    method AddAssign(other: FPS)
      modifies this
      ensures coeff == SumCoeffs(old(coeff), old(other.coeff))
    {
      var sum := Add(other);
      coeff := sum.coeff;
    }

    /** `-=`: replace the coefficients by those of `self - other`. */
    method SubAssign(other: FPS)
      modifies this
      ensures coeff == DiffCoeffs(old(coeff), old(other.coeff))
    {
      var diff := Sub(other);
      coeff := diff.coeff;
    }
  }
}
