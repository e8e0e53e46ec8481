/** The evaluator and the error reporter: the value of a polynomial given by its
    coefficients (index i is the coefficient of x^i), Horner's nesting of that
    value, and the squared residuals of a fit. */
module Evaluation {
  import opened Algebra

  /** The direct sum of c[j] * x^j over lo <= j < |c|. */
  ghost function DirectSumFrom(c: seq<real>, lo: nat, x: real): real
    requires lo <= |c|
    decreases |c| - lo
  {
    if lo == |c| then 0.0 else c[lo] * Pow(x, lo) + DirectSumFrom(c, lo + 1, x)
  }

  /** The value of the polynomial with coefficients c at x: the sum of
      c[i] * x^i over all coefficients. */
  ghost function PolyEval(c: seq<real>, x: real): real
  {
    DirectSumFrom(c, 0, x)
  }

  /** Horner's nesting of the coefficients from index lo upward:
      ((c[n-1] * x + c[n-2]) * x + ...) * x + c[lo]. */
  ghost function HornerFrom(c: seq<real>, lo: nat, x: real): real
    requires lo <= |c|
    decreases |c| - lo
  {
    if lo == |c| then 0.0 else HornerFrom(c, lo + 1, x) * x + c[lo]
  }

  /** Horner's nesting from lo, scaled by x^lo, is the tail lo.. of the direct sum. */
  lemma {:induction false} HornerShift(c: seq<real>, lo: nat, x: real)
    requires lo <= |c|
    ensures HornerFrom(c, lo, x) * Pow(x, lo) == DirectSumFrom(c, lo, x)
    decreases |c| - lo
  {
    if lo < |c| {
      HornerShift(c, lo + 1, x);
      PowStep(x, lo);
      var h, p, q, d := HornerFrom(c, lo + 1, x), Pow(x, lo), Pow(x, lo + 1), DirectSumFrom(c, lo + 1, x);
      Regroup(h, x, c[lo], p, q, d);
    }
  }

  lemma Regroup(h: real, x: real, a: real, p: real, q: real, d: real)
    requires q == p * x && h * q == d
    ensures (h * x + a) * p == a * p + d
  {
  }

  /** Horner's scheme computes the direct sum. */
  lemma HornerIsDirectSum(c: seq<real>, x: real)
    ensures HornerFrom(c, 0, x) == PolyEval(c, x)
  {
    HornerShift(c, 0, x);
  }

  /** The polynomial with coefficients c passes through every sample
      (X[t], Y[t]). */
  ghost predicate Interpolates(c: seq<real>, X: seq<real>, Y: seq<real>)
  {
    |X| <= |Y| && forall t :: 0 <= t < |X| ==> PolyEval(c, X[t]) == Y[t]
  }

  /** Sum of the squared residuals (PolyEval(c, X[t]) - Y[t])^2 over the first
      m samples. */
  ghost function SqErr(c: seq<real>, X: seq<real>, Y: seq<real>, m: nat): real
    requires m <= |X| && m <= |Y|
  {
    if m == 0 then 0.0
    else
      var e := PolyEval(c, X[m - 1]) - Y[m - 1];
      SqErr(c, X, Y, m - 1) + e * e
  }

  lemma Cancel(e: real)
    requires e != 0.0
    ensures (e * e) / e == e
  {
  }

  /** Only zero squares to zero. */
  lemma SquareZero(e: real)
    requires e * e == 0.0
    ensures e == 0.0
  {
    if e != 0.0 {
      Cancel(e);
    }
  }

  /** Adding a square to a non-negative sum keeps it non-negative, and the
      result is zero only when both parts are. */
  lemma AddSquare(before: real, e: real)
    requires 0.0 <= before
    ensures 0.0 <= before + e * e
    ensures before + e * e == 0.0 <==> before == 0.0 && e == 0.0
  {
    assert 0.0 <= e * e;
    if before + e * e == 0.0 {
      assert e * e == 0.0;
      SquareZero(e);
    }
  }

  /** The squared error is never negative, and it is zero exactly when the
      polynomial passes through every sample. */
  lemma {:induction false} SqErrZeroIffExact(c: seq<real>, X: seq<real>, Y: seq<real>, m: nat)
    requires m <= |X| && m <= |Y|
    ensures 0.0 <= SqErr(c, X, Y, m)
    ensures SqErr(c, X, Y, m) == 0.0 <==> forall t :: 0 <= t < m ==> PolyEval(c, X[t]) == Y[t]
  {
    if m > 0 {
      SqErrZeroIffExact(c, X, Y, m - 1);
      var e := PolyEval(c, X[m - 1]) - Y[m - 1];
      AddSquare(SqErr(c, X, Y, m - 1), e);
      assert (forall t :: 0 <= t < m ==> PolyEval(c, X[t]) == Y[t])
        <==> (forall t :: 0 <= t < m - 1 ==> PolyEval(c, X[t]) == Y[t]) && e == 0.0;
    }
  }
}
