/** The moment assembler: the normal equations of the least-squares fit of a
    polynomial with n coefficients to the samples (X[t], Y[t]). */
module Moments {
  import opened Algebra
  import opened Evaluation

  /** Sum of X[t]^p over the first m samples. */
  ghost function PowSum(X: seq<real>, p: nat, m: nat): real
    requires m <= |X|
  {
    if m == 0 then 0.0 else PowSum(X, p, m - 1) + Pow(X[m - 1], p)
  }

  /** Sum of Y[t] * X[t]^p over the first m samples. */
  ghost function RhsSum(X: seq<real>, Y: seq<real>, p: nat, m: nat): real
    requires m <= |X| && m <= |Y|
  {
    if m == 0 then 0.0 else RhsSum(X, Y, p, m - 1) + Y[m - 1] * Pow(X[m - 1], p)
  }

  /** The n x n moment matrix: cell (j, k) holds the power sum of degree j + k,
      so every anti-diagonal carries one power sum. */
  ghost function MomentMatrix(X: seq<real>, n: nat): (M: seq<seq<real>>)
    ensures Square(M, n)
  {
    seq(n, j requires 0 <= j < n => seq(n, k requires 0 <= k < n => PowSum(X, j + k, |X|)))
  }

  /** The right-hand side: entry k holds the Y-weighted power sum of degree k. */
  ghost function MomentRhs(X: seq<real>, Y: seq<real>, n: nat): (b: seq<real>)
    requires |X| <= |Y|
    ensures |b| == n
  {
    seq(n, k requires 0 <= k < n => RhsSum(X, Y, k, |X|))
  }

  /** Column p of the Vandermonde matrix of X: X[t]^p for every sample t. */
  ghost function Column(X: seq<real>, p: nat): (v: seq<real>)
    ensures |v| == |X| && forall t :: 0 <= t < |X| ==> v[t] == Pow(X[t], p)
  {
    seq(|X|, t requires 0 <= t < |X| => Pow(X[t], p))
  }

  /** The moment matrix is symmetric. */
  lemma MomentSymmetric(X: seq<real>, n: nat, j: nat, k: nat)
    requires j < n && k < n
    ensures MomentMatrix(X, n)[j][k] == MomentMatrix(X, n)[k][j]
  {
  }

  /** A moment matrix with a trivial kernel has no zero row, because it is
      symmetric. */
  lemma MomentNoZeroRow(X: seq<real>, n: nat)
    requires Nonsingular(MomentMatrix(X, n))
    ensures NoZeroRow(MomentMatrix(X, n))
  {
    var M := MomentMatrix(X, n);
    forall r, k | 0 <= r < n && 0 <= k < n
      ensures M[r][k] == M[k][r]
    {
      MomentSymmetric(X, n, r, k);
    }
    SymmetricNoZeroRow(M);
  }

  /** A power sum of degree j + k is the inner product of Vandermonde columns
      j and k. */
  lemma {:induction false} PowSumIsGram(X: seq<real>, j: nat, k: nat, m: nat)
    requires m <= |X|
    ensures PowSum(X, j + k, m) == Dot(Column(X, j), Column(X, k), 0, m)
  {
    if m > 0 {
      var u, v, x := Column(X, j), Column(X, k), X[m - 1];
      calc {
        PowSum(X, j + k, m);
        PowSum(X, j + k, m - 1) + Pow(x, j + k);
        { PowSumIsGram(X, j, k, m - 1); PowAdd(x, j, k); }
        Dot(u, v, 0, m - 1) + Pow(x, j) * Pow(x, k);
        Dot(u, v, 0, m);
      }
    }
  }

  /** A weighted power sum of degree k is the inner product of Vandermonde
      column k with Y. */
  lemma {:induction false} RhsSumIsProjection(X: seq<real>, Y: seq<real>, k: nat, m: nat)
    requires m <= |X| && m <= |Y|
    ensures RhsSum(X, Y, k, m) == Dot(Column(X, k), Y, 0, m)
  {
    if m > 0 {
      RhsSumIsProjection(X, Y, k, m - 1);
    }
  }

  /** The assembled system is the system of normal equations V^T V c = V^T Y,
      V being the Vandermonde matrix of X with n columns. */
  lemma NormalEquations(X: seq<real>, Y: seq<real>, n: nat)
    requires |X| <= |Y|
    ensures forall j, k :: 0 <= j < n && 0 <= k < n ==>
      MomentMatrix(X, n)[j][k] == Dot(Column(X, j), Column(X, k), 0, |X|)
    ensures forall k :: 0 <= k < n ==> MomentRhs(X, Y, n)[k] == Dot(Column(X, k), Y, 0, |X|)
  {
    forall j, k | 0 <= j < n && 0 <= k < n
      ensures MomentMatrix(X, n)[j][k] == Dot(Column(X, j), Column(X, k), 0, |X|)
    {
      PowSumIsGram(X, j, k, |X|);
    }
    forall k | 0 <= k < n
      ensures MomentRhs(X, Y, n)[k] == Dot(Column(X, k), Y, 0, |X|)
    {
      RhsSumIsProjection(X, Y, k, |X|);
    }
  }

  // ---------------------------------------------------------------------
  // Samples of an exact polynomial

  /** Row j of the moment matrix over the first m samples. */
  ghost function MomentRow(X: seq<real>, j: nat, n: nat, m: nat): (u: seq<real>)
    requires m <= |X|
    ensures |u| == n && forall k :: 0 <= k < n ==> u[k] == PowSum(X, j + k, m)
  {
    seq(n, k requires 0 <= k < n => PowSum(X, j + k, m))
  }

  /** The powers x^(j+k) for k < n: what one sample at x adds to row j. */
  ghost function PowRow(x: real, j: nat, n: nat): (u: seq<real>)
    ensures |u| == n && forall k :: 0 <= k < n ==> u[k] == Pow(x, j + k)
  {
    seq(n, k requires 0 <= k < n => Pow(x, j + k))
  }

  /** Sum of X[t]^j * PolyEval(c, X[t]) over the first m samples. */
  ghost function EvalSum(X: seq<real>, c: seq<real>, j: nat, m: nat): real
    requires m <= |X|
  {
    if m == 0 then 0.0 else EvalSum(X, c, j, m - 1) + Pow(X[m - 1], j) * PolyEval(c, X[m - 1])
  }

  /** With j = 0 the tail from lo of PowRow(x, 0, |c|) . c is the tail from
      lo of the polynomial's value at x. */
  lemma {:induction false} PowRowBase(x: real, c: seq<real>, lo: nat)
    requires lo <= |c|
    ensures Dot(PowRow(x, 0, |c|), c, lo, |c|) == DirectSumFrom(c, lo, x)
    decreases |c| - lo
  {
    if lo < |c| {
      var u := PowRow(x, 0, |c|);
      PowRowBase(x, c, lo + 1);
      DotFirst(u, c, lo, |c|);
      assert u[lo] * c[lo] == c[lo] * Pow(x, lo);
    }
  }

  /** Scaling a row by s scales its partial sums by s. */
  lemma {:induction false} DotScale(w: seq<real>, u: seq<real>, s: real, c: seq<real>, hi: nat)
    requires hi <= |w| && hi <= |u| && hi <= |c|
    requires forall k :: 0 <= k < hi ==> w[k] == s * u[k]
    ensures Dot(w, c, 0, hi) == s * Dot(u, c, 0, hi)
  {
    if hi > 0 {
      DotScale(w, u, s, c, hi - 1);
      Spread(s, Dot(u, c, 0, hi - 1), u[hi - 1], c[hi - 1]);
    }
  }

  lemma Spread(s: real, d: real, a: real, b: real)
    ensures s * d + s * a * b == s * (d + a * b)
  {
  }

  /** PowRow(x, j, |c|) . c is x^j times the polynomial's value at x. */
  lemma {:induction false} PowRowDot(x: real, j: nat, c: seq<real>)
    ensures Dot(PowRow(x, j, |c|), c, 0, |c|) == Pow(x, j) * PolyEval(c, x)
  {
    var n := |c|;
    if j == 0 {
      PowRowBase(x, c, 0);
    } else {
      var w, u := PowRow(x, j, n), PowRow(x, j - 1, n);
      forall k | 0 <= k < n
        ensures w[k] == x * u[k]
      {
        assert w[k] == Pow(x, (j - 1 + k) + 1);
      }
      DotScale(w, u, x, c, n);
      PowRowDot(x, j - 1, c);
      Rescale(x, Pow(x, j - 1), PolyEval(c, x));
    }
  }

  lemma Rescale(x: real, a: real, e: real)
    ensures x * (a * e) == a * x * e
  {
  }

  /** Row j of the moment matrix times c is the sum of X[t]^j times the
      polynomial's value at X[t]. */
  lemma {:induction false} MomentRowDot(X: seq<real>, c: seq<real>, j: nat, m: nat)
    requires m <= |X|
    ensures Dot(MomentRow(X, j, |c|, m), c, 0, |c|) == EvalSum(X, c, j, m)
  {
    var n := |c|;
    if m == 0 {
      DotZero(MomentRow(X, j, n, 0), c, 0, n);
    } else {
      var x := X[m - 1];
      MomentRowDot(X, c, j, m - 1);
      DotCombine(MomentRow(X, j, n, m), MomentRow(X, j, n, m - 1), PowRow(x, j, n), -1.0, c, 0, n);
      PowRowDot(x, j, c);
    }
  }

  /** On samples of the polynomial c, the weighted sums of the right-hand
      side are the sums EvalSum. */
  lemma {:induction false} ExactRhs(X: seq<real>, Y: seq<real>, c: seq<real>, j: nat, m: nat)
    requires Interpolates(c, X, Y) && m <= |X|
    ensures EvalSum(X, c, j, m) == RhsSum(X, Y, j, m)
  {
    if m > 0 {
      ExactRhs(X, Y, c, j, m - 1);
      assert PolyEval(c, X[m - 1]) == Y[m - 1];
    }
  }

  /** The coefficients of a polynomial that passes through every sample
      solve the normal equations with as many coefficients. */
  lemma ExactDataSolves(X: seq<real>, Y: seq<real>, c: seq<real>)
    requires Interpolates(c, X, Y)
    ensures MatVec(MomentMatrix(X, |c|), c) == MomentRhs(X, Y, |c|)
  {
    var n, M := |c|, MomentMatrix(X, |c|);
    forall j | 0 <= j < n
      ensures MatVec(M, c)[j] == MomentRhs(X, Y, n)[j]
    {
      assert M[j] == MomentRow(X, j, n, |X|);
      MomentRowDot(X, c, j, |X|);
      ExactRhs(X, Y, c, j, |X|);
    }
  }

  // ---------------------------------------------------------------------
  // The order of the samples

  /** The samples with entries t and t + 1 exchanged. */
  ghost function Exchange(X: seq<real>, t: nat): (r: seq<real>)
    requires t + 1 < |X|
    ensures |r| == |X|
  {
    X[t := X[t + 1]][t + 1 := X[t]]
  }

  /** Exchanging two neighbouring samples leaves every power sum over a
      prefix that contains both, or neither, unchanged. */
  lemma {:induction false} PowSumExchange(X: seq<real>, p: nat, t: nat, m: nat)
    requires t + 1 < |X| && m <= |X| && m != t + 1
    ensures PowSum(Exchange(X, t), p, m) == PowSum(X, p, m)
  {
    var X' := Exchange(X, t);
    if m == t + 2 {
      PowSumExchange(X, p, t, t);
      assert PowSum(X', p, m) == PowSum(X', p, t) + Pow(X'[t], p) + Pow(X'[t + 1], p);
    } else if m > 0 {
      assert X'[m - 1] == X[m - 1];
      PowSumExchange(X, p, t, m - 1);
    }
  }

  /** The same for the Y-weighted sums, with X and Y exchanged alike. */
  lemma {:induction false} RhsSumExchange(X: seq<real>, Y: seq<real>, p: nat, t: nat, m: nat)
    requires t + 1 < |X| && |X| <= |Y| && m <= |X| && m != t + 1
    ensures RhsSum(Exchange(X, t), Exchange(Y, t), p, m) == RhsSum(X, Y, p, m)
  {
    var X', Y' := Exchange(X, t), Exchange(Y, t);
    if m == t + 2 {
      var a, b := Y[t] * Pow(X[t], p), Y[t + 1] * Pow(X[t + 1], p);
      assert X'[t] == X[t + 1] && Y'[t] == Y[t + 1] && X'[t + 1] == X[t] && Y'[t + 1] == Y[t];
      calc {
        RhsSum(X', Y', p, m);
        RhsSum(X', Y', p, t + 1) + a;
        RhsSum(X', Y', p, t) + b + a;
        { RhsSumExchange(X, Y, p, t, t); }
        RhsSum(X, Y, p, t) + a + b;
        RhsSum(X, Y, p, t + 1) + b;
      }
    } else if m > 0 {
      assert X'[m - 1] == X[m - 1] && Y'[m - 1] == Y[m - 1];
      RhsSumExchange(X, Y, p, t, m - 1);
    }
  }

  /** Exchanging two neighbouring samples leaves the normal equations
      unchanged; every reordering of the samples is a sequence of such
      exchanges. */
  lemma ExchangeInvariant(X: seq<real>, Y: seq<real>, t: nat, n: nat)
    requires t + 1 < |X| && |X| <= |Y|
    ensures MomentMatrix(Exchange(X, t), n) == MomentMatrix(X, n)
    ensures MomentRhs(Exchange(X, t), Exchange(Y, t), n) == MomentRhs(X, Y, n)
  {
    var M, M' := MomentMatrix(X, n), MomentMatrix(Exchange(X, t), n);
    forall j | 0 <= j < n
      ensures M'[j] == M[j]
    {
      forall k | 0 <= k < n
        ensures M'[j][k] == M[j][k]
      {
        PowSumExchange(X, j + k, t, |X|);
      }
    }
    forall k | 0 <= k < n
      ensures MomentRhs(Exchange(X, t), Exchange(Y, t), n)[k] == MomentRhs(X, Y, n)[k]
    {
      RhsSumExchange(X, Y, k, t, |X|);
    }
  }

  /** Two solutions of the normal equations, one for the samples and one
      for the samples with a neighbouring pair exchanged, are equal when
      the moment matrix has a trivial kernel. */
  lemma ExchangedFitsAgree(X: seq<real>, Y: seq<real>, t: nat, c1: seq<real>, c2: seq<real>)
    requires t + 1 < |X| && |X| <= |Y| && |c1| == |c2|
    requires Nonsingular(MomentMatrix(X, |c1|))
    requires MatVec(MomentMatrix(X, |c1|), c1) == MomentRhs(X, Y, |c1|)
    requires MatVec(MomentMatrix(Exchange(X, t), |c2|), c2) == MomentRhs(Exchange(X, t), Exchange(Y, t), |c2|)
    ensures c1 == c2
  {
    ExchangeInvariant(X, Y, t, |c1|);
    SolutionUnique(MomentMatrix(X, |c1|), c1, c2);
  }
}
