/** The worked example of the repository's unit test: a quadratic fitted to
    four samples, its values at the sample points and its mean squared error.
    With exact arithmetic the expected figures hold exactly, not only up to
    the test's tolerance. */
module ReferenceData {
  import opened Algebra
  import opened Moments
  import opened Evaluation
  import opened Elimination
  import opened PolyFit

  const SampleX: seq<real> := [0.0, 1.0, 2.0, 3.0]
  const SampleY: seq<real> := [2.1, 0.7, -0.1, 1.3]
  const Expected: seq<real> := [2.18, -2.42, 0.7]
  const SampleMatrix: seq<seq<real>> := [[4.0, 6.0, 14.0], [6.0, 14.0, 36.0], [14.0, 36.0, 98.0]]
  const SampleRhs: seq<real> := [4.0, 4.4, 12.0]

  /** The power sums of degree 0 to 4 over the sample abscissae. */
  lemma SampleDirectSumFroms()
    ensures PowSum(SampleX, 0, 4) == 4.0 && PowSum(SampleX, 1, 4) == 6.0
    ensures PowSum(SampleX, 2, 4) == 14.0 && PowSum(SampleX, 3, 4) == 36.0
    ensures PowSum(SampleX, 4, 4) == 98.0
  {
    var X := SampleX;
    assert X[0] == 0.0 && X[1] == 1.0 && X[2] == 2.0 && X[3] == 3.0;
    assert Pow(2.0, 4) == 16.0 && Pow(3.0, 4) == 81.0;
    assert Pow(0.0, 1) == 0.0 && Pow(1.0, 4) == 1.0;
  }

  /** The normal equations of a quadratic fit to the samples. */
  lemma SampleSystem()
    ensures MomentMatrix(SampleX, 3) == SampleMatrix
    ensures MomentRhs(SampleX, SampleY, 3) == SampleRhs
  {
    SampleDirectSumFroms();
    var M := MomentMatrix(SampleX, 3);
    assert M[0] == [4.0, 6.0, 14.0];
    assert M[1] == [6.0, 14.0, 36.0];
    assert M[2] == [14.0, 36.0, 98.0];
    var X, Y := SampleX, SampleY;
    assert X[0] == 0.0 && X[1] == 1.0 && X[2] == 2.0 && X[3] == 3.0;
    assert Y[0] == 2.1 && Y[1] == 0.7 && Y[2] == -0.1 && Y[3] == 1.3;
    assert RhsSum(X, Y, 0, 4) == 4.0;
    assert RhsSum(X, Y, 1, 4) == 4.4;
    assert Pow(2.0, 2) == 4.0 && Pow(3.0, 2) == 9.0;
    assert RhsSum(X, Y, 2, 4) == 12.0;
  }

  /** Row i of the sample matrix applied to c. */
  lemma SampleRow(c: seq<real>, i: nat)
    requires |c| == 3 && i < 3
    ensures MatVec(SampleMatrix, c)[i] ==
      SampleMatrix[i][0] * c[0] + SampleMatrix[i][1] * c[1] + SampleMatrix[i][2] * c[2]
  {
    var u := SampleMatrix[i];
    assert Dot(u, c, 0, 3) == Dot(u, c, 0, 2) + u[2] * c[2];
    assert Dot(u, c, 0, 2) == Dot(u, c, 0, 1) + u[1] * c[1];
    assert Dot(u, c, 0, 1) == u[0] * c[0];
  }

  /** The sample system has no zero row and a trivial kernel (its
      determinant is 80), so the solver's preconditions hold. */
  lemma SampleNonsingular()
    ensures NoZeroRow(SampleMatrix) && Nonsingular(SampleMatrix)
  {
    var M := SampleMatrix;
    forall r | 0 <= r < 3
      ensures NonZeroIn(M[r])
    {
      assert M[r][0] != 0.0;
    }
    forall c | |c| == 3 && MatVec(M, c) == Zeros(3)
      ensures c == Zeros(3)
    {
      SampleRow(c, 0);
      SampleRow(c, 1);
      SampleRow(c, 2);
      assert 4.0 * c[0] + 6.0 * c[1] + 14.0 * c[2] == 0.0;
      assert 6.0 * c[0] + 14.0 * c[1] + 36.0 * c[2] == 0.0;
      assert 14.0 * c[0] + 36.0 * c[1] + 98.0 * c[2] == 0.0;
      assert c[0] == 0.0 && c[1] == 0.0 && c[2] == 0.0;
    }
  }

  /** The expected coefficients solve the sample system, and nothing else
      does. */
  lemma ExpectedSolves(c: seq<real>)
    requires |c| == 3
    ensures MatVec(SampleMatrix, c) == SampleRhs <==> c == Expected
  {
    SampleRow(Expected, 0);
    SampleRow(Expected, 1);
    SampleRow(Expected, 2);
    assert MatVec(SampleMatrix, Expected) == SampleRhs;
    if MatVec(SampleMatrix, c) == SampleRhs {
      SampleNonsingular();
      SolutionUnique(SampleMatrix, c, Expected);
    }
  }

  /** The quadratic with the expected coefficients at the four abscissae. */
  lemma ExpectedValues()
    ensures PolyEval(Expected, 0.0) == 2.18 && PolyEval(Expected, 1.0) == 0.46
    ensures PolyEval(Expected, 2.0) == 0.14 && PolyEval(Expected, 3.0) == 1.22
  {
    var c := Expected;
    assert Pow(2.0, 2) == 4.0 && Pow(3.0, 2) == 9.0;
    assert DirectSumFrom(c, 2, 2.0) == 2.8 && DirectSumFrom(c, 2, 3.0) == 6.3;
  }

  /** Its residuals are 0.08, -0.24, 0.24 and -0.08, whose squares add up to
      0.128. */
  lemma ExpectedSqErr()
    ensures SqErr(Expected, SampleX, SampleY, 4) == 0.128
  {
    ExpectedValues();
    var X := SampleX;
    assert X[0] == 0.0 && X[1] == 1.0 && X[2] == 2.0 && X[3] == 3.0;
  }

  /** The figures the unit test expects follow from the coefficients, the
      values at the sample points and the squared error of the fit. */
  lemma ExpectedFigures(c: seq<real>, values: seq<real>, mse: real)
    requires c == Expected && |values| == |SampleX|
    requires forall t :: 0 <= t < |SampleX| ==> values[t] == PolyEval(c, SampleX[t])
    requires mse == SqErr(c, SampleX, SampleY, |SampleX|) / (|SampleX| - |c|) as real
    ensures values == [2.18, 0.46, 0.14, 1.22] && mse == 0.128
  {
    ExpectedValues();
    ExpectedSqErr();
    var X := SampleX;
    assert X[0] == 0.0 && X[1] == 1.0 && X[2] == 2.0 && X[3] == 3.0;
  }

  /** The fit of the unit test: a polynomial with three coefficients fitted
      to the samples holds the expected coefficients. */
  method FitSample() returns (p: Polynomial)
    ensures p.Valid() && p.n == 3 && p.C[..] == Expected
  {
    p := new Polynomial(3);
    SampleSystem();
    SampleNonsingular();
    p.Fit(SampleX, SampleY);
    ExpectedSolves(p.C[..]);
  }

  /** The unit test: the fitted polynomial has the expected coefficients,
      the expected values at the sample points, and a mean squared error of
      0.128 over the one degree of freedom left. */
  method UnitTest() returns (c: seq<real>, values: seq<real>, mse: real)
    ensures c == Expected
    ensures values == [2.18, 0.46, 0.14, 1.22]
    ensures mse == 0.128
  {
    var p := FitSample();
    c := p.Coefficients();
    values := [];
    var i := 0;
    while i < |SampleX|
      invariant i <= |SampleX| && |values| == i && p.C[..] == c
      invariant forall t :: 0 <= t < i ==> values[t] == PolyEval(c, SampleX[t])
    {
      var v := p.Value(SampleX[i]);
      values := values + [v];
      i := i + 1;
    }
    mse := p.Mse(SampleX, SampleY);
    ExpectedFigures(c, values, mse);
  }
}
