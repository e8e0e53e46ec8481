/** The fitting engine: a polynomial with a fixed number n of coefficients
    that owns its working storage (the n x n matrix A, the right-hand side B,
    the coefficients C, the scale factors S and the permutation vector P),
    fits itself to a data set by least squares, and reports its value at a
    point and its mean squared error over a data set. */
module PolyFit {
  import opened Algebra
  import opened Moments
  import opened Evaluation
  import opened Elimination

  class Polynomial {
    /** The number of coefficients: the order of the polynomial plus one. */
    const n: nat
    /** The matrix of the linear system, updated in place by the solver. */
    const A: array2<real>
    /** The right-hand side, updated in place by the solver. */
    const B: array<real>
    /** The coefficients; C[i] belongs to x^i. */
    const C: array<real>
    /** One scale factor per row of A. */
    const S: array<real>
    /** The permutation vector: P[i] is the row of A used as equation i. */
    const P: array<nat>

    /** Every buffer has the size fixed at construction, and the three real
        vectors are distinct buffers. */
    ghost predicate Valid()
    {
      A.Length0 == n && A.Length1 == n && B.Length == n && C.Length == n &&
      S.Length == n && P.Length == n && B != C && B != S && C != S
    }

    /** The matrix A as a sequence of rows. */
    ghost function Rows(): (M: seq<seq<real>>)
      requires Valid()
      reads A
      ensures Square(M, n)
      ensures forall r, c :: 0 <= r < n && 0 <= c < n ==> M[r][c] == A[r, c]
    {
      seq(n, r requires 0 <= r < n reads A => seq(n, c requires 0 <= c < n reads A => A[r, c]))
    }

    /** The solver's working storage as a value. */
    ghost function Cur(): State
      requires Valid()
      reads A, B, P
    {
      State(Rows(), B[..], P[..])
    }

    /** Allocates every buffer with `length` entries, all zero. The source
        only reserves room for the rows of A and leaves them empty, so that
        writing A[j][k] later is outside the vectors; the model gives A its
        n x n entries from the start. */
    constructor (length: nat)
      ensures n == length && Valid()
      ensures fresh(A) && fresh(B) && fresh(C) && fresh(S) && fresh(P)
      ensures Rows() == seq(length, _ => Zeros(length))
      ensures B[..] == Zeros(length) && C[..] == Zeros(length) && S[..] == Zeros(length)
      ensures P[..] == seq(length, _ => 0)
    {
      n := length;
      A := new real[length, length]((_, _) => 0.0);
      B := new real[length](_ => 0.0);
      C := new real[length](_ => 0.0);
      S := new real[length](_ => 0.0);
      P := new nat[length](_ => 0);
      new;
      assert Rows() == seq(length, _ => Zeros(length)) by {
        forall r | 0 <= r < length
          ensures Rows()[r] == Zeros(length)
        {
        }
      }
    }

    /** The number of coefficients. */
    function Size(): (r: nat)
      requires Valid()
      ensures r == n
    {
      C.Length
    }

    /** Read access to the coefficient of x^i. */
    function Coefficient(i: nat): (r: real)
      requires Valid() && i < n
      reads C
      ensures r == C[..][i]
    {
      C[i]
    }

    /** Write access to the coefficient of x^i: only that coefficient changes. */
    method SetCoefficient(i: nat, v: real)
      requires Valid() && i < n
      modifies C
      ensures C[..] == old(C[..])[i := v]
    {
      C[i] := v;
    }

    /** The coefficient vector as a whole. */
    function Coefficients(): (r: seq<real>)
      requires Valid()
      reads C
      ensures |r| == n && forall i :: 0 <= i < n ==> r[i] == Coefficient(i)
    {
      C[..]
    }

    /** x to the e-th power by e repeated multiplications. */
    static method IPow(x: real, e: nat) returns (r: real)
      ensures r == Pow(x, e)
    {
      r := 1.0;
      var i := 0;
      while i < e
        invariant i <= e && r == Pow(x, i)
      {
        r := r * x;
        i := i + 1;
      }
    }

    /** The least-squares fit of the polynomial to the samples (X[t], Y[t]):
        assembles the normal equations in A and B, then solves them into C.
        When some polynomial with n coefficients passes through every
        sample, the fit recovers it. */
    method Fit(X: seq<real>, Y: seq<real>)
      requires Valid() && 1 <= n && |X| <= |Y|
      requires Nonsingular(MomentMatrix(X, n))
      modifies A, B, C, S, P
      ensures MatVec(MomentMatrix(X, n), C[..]) == MomentRhs(X, Y, n)
      ensures Triangulated(MomentMatrix(X, n), MomentRhs(X, Y, n), S[..], Cur())
      ensures forall c :: |c| == n && Interpolates(c, X, Y) ==> C[..] == c
    {
      Assemble(X, Y);
      MomentNoZeroRow(X, n);
      Solve();
      forall c | |c| == n && Interpolates(c, X, Y)
        ensures C[..] == c
      {
        ExactDataSolves(X, Y, c);
        SolutionUnique(MomentMatrix(X, n), C[..], c);
      }
    }

    /** The assembly loop of the fit: for every degree i < 2n - 1 the power
        sum of degree i goes to every cell (j, i - j) of A, and for i < n the
        right-hand side B[i] is reset and accumulates the Y-weighted sum. */
    method Assemble(X: seq<real>, Y: seq<real>)
      requires Valid() && 1 <= n && |X| <= |Y|
      modifies A, B
      ensures Rows() == MomentMatrix(X, n)
      ensures B[..] == MomentRhs(X, Y, n)
    {
      var i := 0;
      while i < 2 * n - 1
        invariant i <= 2 * n - 1
        invariant forall j, k :: 0 <= j < n && 0 <= k < n && j + k < i ==> A[j, k] == PowSum(X, j + k, |X|)
        invariant forall k :: 0 <= k < n && k < i ==> B[k] == RhsSum(X, Y, k, |X|)
      {
        var s := Accumulate(X, Y, i);
        FillDiagonal(i, s);
        i := i + 1;
      }
      assert Rows() == MomentMatrix(X, n) by {
        forall r | 0 <= r < n
          ensures Rows()[r] == MomentMatrix(X, n)[r]
        {
        }
      }
    }

    /** The sample loop for degree i: returns the power sum of degree i and,
        for i < n, resets B[i] and accumulates the Y-weighted sum of degree i
        into it; entries B[k] for k < i and the matrix A are kept. */
    method Accumulate(X: seq<real>, Y: seq<real>, i: nat) returns (s: real)
      requires Valid() && |X| <= |Y|
      modifies B
      ensures s == PowSum(X, i, |X|)
      ensures i < n ==> B[i] == RhsSum(X, Y, i, |X|)
      ensures forall k :: 0 <= k < n && k != i ==> B[k] == old(B[k])
    {
      s := 0.0;
      if i < n {
        B[i] := 0.0;
      }
      var t := 0;
      while t < |X|
        invariant t <= |X|
        invariant s == PowSum(X, i, t)
        invariant i < n ==> B[i] == RhsSum(X, Y, i, t)
        invariant forall k :: 0 <= k < n && k != i ==> B[k] == old(B[k])
        modifies B
      {
        var p := IPow(X[t], i);
        s := s + p;
        if i < n {
          B[i] := B[i] + Y[t] * p;
        }
        t := t + 1;
      }
    }

    /** The anti-diagonal fill for degree i: every cell (j, i - j) inside A
        receives s; every other cell is kept. */
    method FillDiagonal(i: nat, s: real)
      requires Valid()
      modifies A
      ensures forall r, k :: 0 <= r < n && 0 <= k < n ==>
        A[r, k] == if r + k == i then s else old(A[r, k])
    {
      var j := 0;
      while j <= i
        invariant j <= i + 1
        invariant forall r, k :: 0 <= r < n && 0 <= k < n ==>
          A[r, k] == if r + k == i && r < j then s else old(A[r, k])
        modifies A
      {
        if j < n && i - j < n {
          A[j, i - j] := s;
        }
        j := j + 1;
      }
    }

    /** The solver: scale factors, the pivoting forward pass and back
        substitution. Afterwards C solves the system A . C = B that A and B
        held before. */
    method Solve()
      requires Valid() && NoZeroRow(Rows()) && Nonsingular(Rows())
      modifies A, B, C, S, P
      ensures Triangulated(old(Rows()), old(B[..]), S[..], Cur())
      ensures MatVec(old(Rows()), C[..]) == old(B[..])
    {
      ghost var M0, b0 := Rows(), B[..];
      Triangulate();
      ghost var fin, S0, c0 := Cur(), S[..], C[..];
      TriangulatedPivots(M0, b0, S0, fin);
      BackSubstitute();
      assert Cur() == fin && S[..] == S0;
      TriangulatedSolves(M0, b0, S0, fin, c0);
    }

    /** The first two stages of the solver: the scale factors, then the
        forward pass from the identity permutation. */
    method Triangulate()
      requires Valid() && NoZeroRow(Rows()) && Nonsingular(Rows())
      modifies A, B, S, P
      ensures Triangulated(old(Rows()), old(B[..]), S[..], Cur())
    {
      ghost var M0, b0 := Rows(), B[..];
      Scale();
      ghost var S0, init := S[..], State(M0, b0, Identity(n));
      assert Cur() == init;
      InitialInv(M0, b0);
      Decompose();
    }

    /** The pivoting LU decomposition: the steps k = 0 .. n-1 of the forward
        pass, each one keeping the invariant of the working storage. */
    method Decompose()
      requires Valid() && Inv(Cur(), S[..], 0)
      modifies A, B, P
      ensures Cur() == Forward(old(Cur()), old(S[..]), 0) && S[..] == old(S[..])
    {
      ghost var S0 := S[..];
      ghost var fin := Forward(Cur(), S0, 0);
      ghost var st := Cur();
      var k := 0;
      while k < n
        invariant k <= n && S[..] == S0
        invariant Inv(st, S0, k) && Cur() == st
        invariant Forward(st, S0, k) == fin
      {
        ForwardStep(k);
        ForwardStepInv(st, S0, k);
        st := Step(st, S0, k);
        k := k + 1;
      }
    }

    /** Step k of the decomposition: the pivot search, the exchange of
        entries k and j of P, and the forward substitution below the pivot. */
    method ForwardStep(k: nat)
      requires Valid() && k < n && Inv(Cur(), S[..], k)
      modifies A, B, P
      ensures Cur() == Step(old(Cur()), old(S[..]), k)
    {
      ghost var st := Cur();
      var j := SelectPivot(k);
      var t := P[j];
      P[j] := P[k];
      P[k] := t;
      assert P[..] == Swap(st.P, k, j);
      PivotNonZero(st, S[..], k);
      SwapPermutation(st.P, k, j);
      Eliminate(k);
    }

    /** The first loop of the solver: P becomes the identity and S[k] the
        largest magnitude in row k of A. */
    method Scale()
      requires Valid()
      modifies S, P
      ensures S[..] == Scales(Rows())
      ensures P[..] == Identity(n)
    {
      ghost var M := Rows();
      var k := 0;
      while k < n
        invariant k <= n
        invariant forall r :: 0 <= r < k ==> S[r] == RowMax(M[r], n) && P[r] == r
        modifies S, P
      {
        P[k] := k;
        S[k] := 0.0;
        var j := 0;
        while j < n
          invariant j <= n
          invariant S[k] == RowMax(M[k], j)
          invariant forall r :: 0 <= r < k ==> S[r] == RowMax(M[r], n) && P[r] == r
          invariant P[k] == k
          modifies S
        {
          if Fabs(A[k, j]) > S[k] {
            S[k] := Fabs(A[k, j]);
          }
          j := j + 1;
        }
        k := k + 1;
      }
      assert S[..] == Scales(M);
      assert P[..] == Identity(n);
    }

    /** The pivot search at column k: the position i >= k whose candidate
        A[P[i]][k] has the largest magnitude relative to its row's scale
        factor, the first one on a tie. */
    method SelectPivot(k: nat) returns (j: nat)
      requires Valid() && PivotReady(Rows(), S[..], P[..], k)
      ensures k <= j < n && j == PivotFrom(Rows(), S[..], P[..], k, n)
      ensures forall i :: k <= i < n ==> Ratio(Rows(), S[..], P[..], k, i) <= Ratio(Rows(), S[..], P[..], k, j)
      ensures forall i :: k <= i < j ==> Ratio(Rows(), S[..], P[..], k, i) < Ratio(Rows(), S[..], P[..], k, j)
    {
      ghost var M, Sc, Q := Rows(), S[..], P[..];
      j := k;
      var i := k;
      while i < n
        invariant k <= i <= n
        invariant j == PivotFrom(M, Sc, Q, k, i)
      {
        assert Fabs(A[P[i], k]) / S[P[i]] == Ratio(M, Sc, Q, k, i);
        assert Fabs(A[P[j], k]) / S[P[j]] == Ratio(M, Sc, Q, k, j);
        if Fabs(A[P[i], k]) / S[P[i]] > Fabs(A[P[j], k]) / S[P[j]] {
          j := i;
        }
        i := i + 1;
      }
      assert M == Rows() && Sc == S[..] && Q == P[..];
      PivotIsFirstMax(M, Sc, Q, k, n);
    }

    /** The forward substitution of step k: every row P[i] below the pivot
        row P[k] loses A[P[i]][k] / A[P[k]][k] times the pivot row in the
        columns right of k, and B[P[i]] the same multiple of B[P[k]]. */
    method Eliminate(k: nat)
      requires Valid() && |P[..]| == n && ElimReady(Rows(), P[..], k)
      modifies A, B
      ensures Rows() == ElimMatrix(old(Rows()), P[..], k)
      ensures B[..] == ElimRhs(old(Rows()), old(B[..]), P[..], k)
    {
      ghost var M0, b0 := Rows(), B[..];
      var i := k + 1;
      ElimPartialStart(M0, b0, P[..], k);
      while i < n
        invariant k + 1 <= i <= n
        invariant Rows() == ElimPartial(M0, P[..], k, i)
        invariant B[..] == ElimRhsPartial(M0, b0, P[..], k, i)
        modifies A, B
      {
        EliminateAt(M0, b0, k, i);
        i := i + 1;
      }
    }

    /** Iteration i of the forward substitution of step k: the row at
        position i joins the rows already reduced. */
    method EliminateAt(ghost M0: seq<seq<real>>, ghost b0: seq<real>, k: nat, i: nat)
      requires Valid() && |P[..]| == n && ElimReady(M0, P[..], k) && |b0| == n && k < i < n
      requires Rows() == ElimPartial(M0, P[..], k, i) && B[..] == ElimRhsPartial(M0, b0, P[..], k, i)
      modifies A, B
      ensures Rows() == ElimPartial(M0, P[..], k, i + 1)
      ensures B[..] == ElimRhsPartial(M0, b0, P[..], k, i + 1)
    {
      ghost var Q := P[..];
      ElimPartialStep(M0, b0, Q, k, i);
      ghost var E, e := ElimPartial(M0, Q, k, i), ElimRhsPartial(M0, b0, Q, k, i);
      var r, p := P[i], P[k];
      assert E[r] == M0[r] && E[p] == M0[p] && e[r] == b0[r] && e[p] == b0[p];
      assert B[r] == b0[r] && B[p] == b0[p];
      EliminateRow(r, p, k);
    }

    /** The body of the forward substitution for the row r below the pivot
        row p: with s = A[r][k] / A[p][k], row r loses s times row p in every
        column right of k, and B[r] loses s times B[p]. */
    method EliminateRow(r: nat, p: nat, k: nat)
      requires Valid() && r < n && p < n && k < n && r != p && Rows()[p][k] != 0.0
      modifies A, B
      ensures Rows() == old(Rows())[r := Reduce(old(Rows())[r], old(Rows())[p], k)]
      ensures B[..] == old(B[..])[r := ReduceRhs(old(Rows())[r], old(Rows())[p], k, old(B[r]), old(B[p]))]
    {
      ghost var R, b := Rows(), B[..];
      var s := A[r, k] / A[p, k];
      SubtractRow(r, p, k, s);
      assert B[..] == b;
      var v := B[r] - s * B[p];
      B[r] := v;
      assert v == ReduceRhs(R[r], R[p], k, b[r], b[p]);
      assert B[..] == b[r := v];
    }

    /** The column loop of the forward substitution: A[r][j] loses s times
        A[p][j] for every column j right of k, where s is the multiplier
        A[r][k] / A[p][k]; the rest of A is kept. */
    method SubtractRow(r: nat, p: nat, k: nat, s: real)
      requires Valid() && r < n && p < n && k < n && r != p && Rows()[p][k] != 0.0
      requires s == Rows()[r][k] / Rows()[p][k]
      modifies A
      ensures Rows() == old(Rows())[r := Reduce(old(Rows())[r], old(Rows())[p], k)]
    {
      ghost var R := Rows();
      var j := k + 1;
      while j < n
        invariant forall r', c :: 0 <= r' < n && 0 <= c < n ==>
          A[r', c] == if r' == r && k < c < j then R[r][c] - s * R[p][c] else R[r'][c]
        modifies A
      {
        A[r, j] := A[r, j] - s * A[p, j];
        j := j + 1;
      }
      ghost var N := Rows();
      assert forall r', c {:trigger N[r'][c]} :: 0 <= r' < n && 0 <= c < n ==>
        N[r'][c] == if r' == r && k < c then R[r][c] - s * R[p][c] else R[r'][c];
      RowReduced(R, N, r, p, k, s);
    }

    /** Back substitution: C[i] for i from n - 1 down to 0 becomes
        (B[P[i]] - sum of A[P[i]][j] * C[j] over j > i) / A[P[i]][i]; every
        equation of the triangular system then holds. */
    method BackSubstitute()
      requires Valid() && Pivoted(Cur(), n)
      modifies C
      ensures C[..] == BackSolve(Rows(), B[..], P[..], n, old(C[..]))
      ensures forall i :: 0 <= i < n ==> Dot(Rows()[P[i]], C[..], i, n) == B[P[i]]
      ensures Cur() == old(Cur()) && S[..] == old(S[..])
    {
      ghost var M, b, Q, C0 := Rows(), B[..], P[..], C[..];
      assert forall i :: 0 <= i < n ==> A[P[i], i] != 0.0 by {
        forall i | 0 <= i < n
          ensures A[P[i], i] != 0.0
        {
          assert M[Q[i]][i] != 0.0;
        }
      }
      var i: int := n - 1;
      while i >= 0
        invariant -1 <= i < n
        invariant BackSolve(M, b, Q, i + 1, C[..]) == BackSolve(M, b, Q, n, C0)
        modifies C
      {
        ghost var before := C[..];
        Substitute(i);
        BackSolveUnfold(M, b, Q, i + 1, before);
        i := i - 1;
      }
      BackSolveCorrect(M, b, Q, n, C0);
    }

    /** One row of back substitution: C[i] becomes
        (B[P[i]] - sum of A[P[i]][j] * C[j] over j > i) / A[P[i]][i], computed
        in C[i] itself; nothing else changes. */
    method Substitute(i: nat)
      requires Valid() && InRange(P[..], n) && i < n && A[P[i], i] != 0.0
      modifies C
      ensures C[..] == old(C[..])[i := SolvedEntry(Rows(), B[..], P[..], i, old(C[..]))]
    {
      ghost var c, u := C[..], Rows()[P[i]];
      C[i] := B[P[i]];
      var j := i + 1;
      while j < n
        invariant i + 1 <= j <= n
        invariant C[i] == B[P[i]] - Dot(u, c, i + 1, j)
        invariant forall t :: 0 <= t < n && t != i ==> C[t] == c[t]
      {
        C[i] := C[i] - A[P[i], j] * C[j];
        j := j + 1;
      }
      C[i] := C[i] / A[P[i], i];
    }

    /** The value of the polynomial at x by Horner's scheme, starting from the
        leading coefficient. */
    method Value(x: real) returns (r: real)
      requires Valid() && 1 <= n
      ensures r == PolyEval(C[..], x)
    {
      r := C[n - 1];
      assert r == HornerFrom(C[..], n - 1, x);
      var i: int := n - 2;
      while i >= 0
        invariant -1 <= i <= n - 2
        invariant r == HornerFrom(C[..], i + 1, x)
      {
        r := r * x + C[i];
        i := i - 1;
      }
      HornerIsDirectSum(C[..], x);
    }

    /** The mean squared error of the polynomial over the samples, counted over
        the degrees of freedom left by the fit: zero when there are at most n
        samples, otherwise the sum of squared residuals divided by |X| - n. */
    method Mse(X: seq<real>, Y: seq<real>) returns (r: real)
      requires Valid()
      requires n < |X| ==> 1 <= n && |X| <= |Y|
      ensures |X| <= n ==> r == 0.0
      ensures n < |X| ==> r == SqErr(C[..], X, Y, |X|) / (|X| - n) as real
      ensures 0.0 <= r
      ensures n < |X| ==> (r == 0.0 <==> forall t :: 0 <= t < |X| ==> PolyEval(C[..], X[t]) == Y[t])
    {
      if |X| <= n {
        return 0.0;
      }
      var sqe := 0.0;
      var i := 0;
      while i < |X|
        invariant i <= |X|
        invariant sqe == SqErr(C[..], X, Y, i)
      {
        var v := Value(X[i]);
        var e := v - Y[i];
        sqe := sqe + e * e;
        i := i + 1;
      }
      r := sqe / (|X| - n) as real;
      SqErrZeroIffExact(C[..], X, Y, |X|);
      QuotientSign(sqe, (|X| - n) as real);
    }
  }

  /** Fitting samples taken from a polynomial with as many coefficients
      recovers that polynomial, and its mean squared error over the samples
      is zero. */
  method FitExactSamples(p: Polynomial, X: seq<real>, Y: seq<real>, ghost c: seq<real>) returns (mse: real)
    requires p.Valid() && 1 <= p.n && |c| == p.n && Interpolates(c, X, Y)
    requires Nonsingular(MomentMatrix(X, p.n))
    modifies p.A, p.B, p.C, p.S, p.P
    ensures p.C[..] == c && mse == 0.0
  {
    p.Fit(X, Y);
    mse := p.Mse(X, Y);
  }

  /** A non-negative quotient by a positive divisor is non-negative, and zero
      exactly when the dividend is. */
  lemma QuotientSign(a: real, d: real)
    requires 0.0 <= a && 0.0 < d
    ensures 0.0 <= a / d && (a / d == 0.0 <==> a == 0.0)
  {
    if a != 0.0 {
      QuotientPositive(a, d);
    }
  }
}
