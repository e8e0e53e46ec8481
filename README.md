# PolyFit in Dafny

A verified model of the fitting engine of PolyFit, the class template
`Polynomial<Scalar>`. A polynomial with a fixed number n of coefficients owns
its working storage:

- the n x n matrix A;
- the right-hand side B;
- the coefficients C, where C[i] belongs to x^i;
- the scale factors S;
- the permutation vector P.

The polynomial fits itself to samples (X[t], Y[t]) in three in-place stages:

1. Moment assembly fills A with power sums of X. Every cell on anti-diagonal
   j + k = p receives the same sum. B receives the Y-weighted sums.
2. An LU solve with scaled partial pivoting. It computes one scale factor per
   row, the largest magnitude in the row. It selects pivots through P rather
   than swapping rows. It eliminates in place in A and B, then back-substitutes
   into C.
3. Queries. One gives the value at a point, by Horner's scheme. The other gives
   the mean squared error over the degrees of freedom the fit leaves, which is
   |X| - n.

`Scalar` is modelled as `real`, so every operation is exact.

The model is imperative where the source is. `PolyFit.Polynomial` is a class
with array fields:

- A is an `array2<real>`;
- B, C and S are `array<real>`;
- P is an `array<nat>`.

Each loop of the source is a `while` loop with invariants. Each method is
specified against ghost functions on values:

| Module | Ghost functions |
|---|---|
| `Algebra` | `Pow`, `Dot`, `MatVec` |
| `Moments` | `PowSum`, `RhsSum`, `MomentMatrix`, `MomentRhs` |
| `Elimination` | the forward pass as `Step` and `Forward` over a `State` value, with `Scales`, `PivotFrom`, `ElimMatrix`, `ElimRhs` and `BackSolve` |
| `Evaluation` | `PolyEval`, `HornerFrom`, `SqErr` |

The solver's main results, proved in `Elimination`:

- On a matrix with no zero row and a trivial kernel, scaled partial pivoting
  never meets a zero pivot (`PivotNonZero`, `StepInv`).
- Back substitution on the outcome of the forward pass solves the original
  system (`TriangulatedSolves`).

On samples taken from a polynomial with n coefficients, the fit recovers that
polynomial and its mean squared error is zero (`Moments.ExactDataSolves`,
`PolyFit.FitExactSamples`).

`ReferenceData` reproduces the repository's unit test in exact arithmetic:

- the quadratic fitted to X = [0, 1, 2, 3] and Y = [2.1, 0.7, -0.1, 1.3] has
  coefficients [2.18, -2.42, 0.7];
- its values at X are [2.18, 0.46, 0.14, 1.22];
- its mean squared error is 0.128.

These figures hold exactly, not just up to the test's tolerance.

Files:

| File | Contents |
|---|---|
| `algebra.dfy` | powers, partial dot products, matrix-vector product, nonsingularity, absolute value |
| `moments.dfy` | power sums, the normal equations, samples of an exact polynomial, exchanges of neighbouring samples |
| `elimination.dfy` | the pivoted solver on values, and its correctness proof |
| `evaluation.dfy` | polynomial value, Horner nesting, squared error |
| `polynomial.dfy` | the class `Polynomial` and its methods |
| `reference_data.dfy` | the unit test's data and expected figures |

## Model

| member | source | states |
|---|---|---|
| PolyFit.Polynomial.constructor | Polynomial.hpp:47-52 | every buffer is fresh, has `length` entries and is all zero; A is `length` x `length` |
| PolyFit.Polynomial.Size | Polynomial.hpp:22 | the size is the number of coefficients n |
| PolyFit.Polynomial.Coefficient | Polynomial.hpp:24 | read access at i < n yields coefficient i of C |
| PolyFit.Polynomial.SetCoefficient | Polynomial.hpp:23 | writing through the reference at i changes coefficient i and no other |
| PolyFit.Polynomial.Coefficients | Polynomial.hpp:25 | the vector view has n entries, entry i being coefficient i |
| PolyFit.Polynomial.IPow | Polynomial.hpp:141-150 | e repeated multiplications starting from 1 give x^e |
| PolyFit.Polynomial.Fit | Polynomial.hpp:54-83 | C solves the normal equations MomentMatrix(X, n) . C = MomentRhs(X, Y, n); S, A, B and P hold the outcome of the pivoted forward pass over that system; when some c with n coefficients passes through every sample, C is that c |
| PolyFit.FitExactSamples | Polynomial.hpp:54-83 | fitting samples of a polynomial with n coefficients recovers its coefficients, and the mean squared error then computed over the samples is 0 |
| PolyFit.Polynomial.Assemble | Polynomial.hpp:64-80 | A becomes the moment matrix, with A[j][k] the sum of X[t]^(j+k); B becomes the right-hand side, with B[k] the sum of Y[t] * X[t]^k; old contents of A and B do not matter |
| PolyFit.Polynomial.Accumulate | Polynomial.hpp:66-76 | returns the power sum of degree i; for i < n, B[i] becomes the Y-weighted sum counted from a reset to 0; every other entry of B is kept |
| PolyFit.Polynomial.FillDiagonal | Polynomial.hpp:77-79 | the cells of A with j + k = i receive s, and every other cell is kept |
| PolyFit.Polynomial.Solve | Polynomial.hpp:91-135 | on a matrix with no zero row and a trivial kernel, C solves the system (old A) . C = (old B); A, B, S and P hold the forward pass's outcome |
| PolyFit.Polynomial.Triangulate | Polynomial.hpp:93-123 | S holds the scale factors of the original A; A, B and P hold the state the whole forward pass reaches from the identity permutation |
| PolyFit.Polynomial.Decompose | Polynomial.hpp:103-123 | A, B and P become the result of steps 0 .. n-1 of the forward pass; S is kept |
| PolyFit.Polynomial.ForwardStep | Polynomial.hpp:105-122 | one iteration of the decomposition loop is step k of the forward pass: pivot choice, exchange in P, elimination below the pivot |
| PolyFit.Polynomial.Scale | Polynomial.hpp:94-101 | S[k] becomes the largest magnitude in row k of A, and P becomes the identity |
| PolyFit.Polynomial.SelectPivot | Polynomial.hpp:106-109 | k <= j < n; the scaled magnitude at j is at least that of every position from k on, and strictly greater than that of every position before j, so ties go to the first |
| PolyFit.Polynomial.Eliminate | Polynomial.hpp:116-122 | A and B become the matrix and right-hand side of elimination step k through P |
| PolyFit.Polynomial.EliminateAt | Polynomial.hpp:116-122 | iteration i of the forward substitution adds row P[i] to the rows already reduced |
| PolyFit.Polynomial.EliminateRow | Polynomial.hpp:118-121 | row r of A is reduced against pivot row p right of column k, and B[r] loses the same multiple of B[p]; nothing else changes |
| PolyFit.Polynomial.SubtractRow | Polynomial.hpp:119-120 | row r of A, right of column k, loses s times row p; every other entry is kept |
| PolyFit.Polynomial.BackSubstitute | Polynomial.hpp:125-134 | C is the back-substitution solution; every equation holds: the sum of A[P[i]][j] * C[j] over j >= i equals B[P[i]]; A, B, P and S are kept |
| PolyFit.Polynomial.Substitute | Polynomial.hpp:128-133 | C[i] becomes (B[P[i]] - sum over j > i of A[P[i]][j] * C[j]) / A[P[i]][i], and no other entry of C changes |
| PolyFit.Polynomial.Value | Polynomial.hpp:156-165 | Horner's scheme yields the sum of C[i] * x^i, and no state changes |
| PolyFit.Polynomial.Mse | Polynomial.hpp:172-187 | 0 when \|X\| <= n; otherwise the sum of squared residuals over \|X\| - n; never negative; for \|X\| > n, zero exactly when the polynomial passes through every sample |
| Algebra.Fabs | Polynomial.hpp:32 | the result is x or -x, non-negative, and zero exactly when x is |
| Algebra.PowAdd | Polynomial.hpp:141-150 | powers of one base add their exponents |
| Algebra.SolutionUnique | Polynomial.hpp:85-90 | a system whose matrix has a trivial kernel has at most one solution |
| Algebra.SymmetricNoZeroRow | Polynomial.hpp:94-101 | a symmetric matrix with a trivial kernel has no zero row: a zero row would make the unit vector at its index a kernel vector |
| Moments.MomentSymmetric | Polynomial.hpp:77-79 | the assembled matrix is symmetric |
| Moments.MomentNoZeroRow | Polynomial.hpp:94-101 | a moment matrix with a trivial kernel has no zero row, so every scale factor the solver computes from it is positive |
| Moments.PowSumIsGram | Polynomial.hpp:70-76 | the power sum of degree j + k is the inner product of Vandermonde columns j and k |
| Moments.RhsSumIsProjection | Polynomial.hpp:70-76 | the weighted sum of degree k is the inner product of Vandermonde column k with Y |
| Moments.MomentRowDot | Polynomial.hpp:64-80 | row j of the moment matrix times c is the sum over the samples of X[t]^j times the value of c at X[t] |
| Moments.ExactDataSolves | Polynomial.hpp:54-60 | the coefficients of a polynomial that passes through every sample solve the normal equations |
| Moments.ExchangeInvariant | Polynomial.hpp:64-80 | exchanging two neighbouring samples, in X and Y alike, leaves the moment matrix and the right-hand side unchanged |
| Moments.ExchangedFitsAgree | Polynomial.hpp:54-83 | with a trivial kernel, the solutions of the normal equations before and after such an exchange are equal, so the fitted coefficients do not depend on that exchange |
| Moments.NormalEquations | Polynomial.hpp:64-80 | the assembled system is the least-squares normal equations V^T V c = V^T Y of the Vandermonde matrix V |
| Evaluation.HornerIsDirectSum | Polynomial.hpp:158-162 | Horner's nesting from the leading coefficient equals the direct sum of c[i] * x^i |
| Evaluation.HornerShift | Polynomial.hpp:161-162 | Horner's nesting of the coefficients from lo on, times x^lo, is the tail from lo of the direct sum |
| Evaluation.SqErrZeroIffExact | Polynomial.hpp:178-184 | the squared error is non-negative, and zero exactly when the polynomial passes through every sample |
| Elimination.SwapPermutation | Polynomial.hpp:111-113 | the exchange of P[k] and P[j] keeps P a permutation, exchanges the two entries and moves no other |
| Elimination.SatisfiesIdentity | Polynomial.hpp:96 | with the identity permutation before any step, the reduced system is exactly M . c = b |
| Elimination.SatisfiesSwap | Polynomial.hpp:111-113 | exchanging two positions not yet used as pivots only reorders the equations: same solutions before and after |
| Elimination.RowMaxIsMax | Polynomial.hpp:97-100 | the running maximum bounds every magnitude in the row, is attained, and is positive exactly when the row has a non-zero entry |
| Elimination.ScalesPositive | Polynomial.hpp:94-101 | every scale factor is positive exactly when no row of A is zero |
| Elimination.PivotIsFirstMax | Polynomial.hpp:106-109 | the chosen position has the largest scaled magnitude, and every earlier position a strictly smaller one |
| Elimination.RatioZero | Polynomial.hpp:108 | a candidate's scaled magnitude is 0 or less exactly when the candidate is zero |
| Elimination.ElimPartialStep | Polynomial.hpp:116-122 | iteration i reduces row P[i] and its right-hand side exactly, using the original values of that row and of the pivot row |
| Elimination.ElimFrame | Polynomial.hpp:116-122 | step k leaves rows P[0..k] of A and entries B[P[0..k]] unchanged; rows below the pivot change only right of column k |
| Elimination.ElimSound | Polynomial.hpp:116-122 | a solution of the system after step k solves the system before it |
| Elimination.PivotNonZero | Polynomial.hpp:106-118 | while the reduced system stays regular, the chosen pivot is non-zero, so the division at line 118 is defined |
| Elimination.StepInv | Polynomial.hpp:104-123 | each step keeps P a permutation and the reduced system regular, and adds one non-zero pivot |
| Elimination.StepSound | Polynomial.hpp:104-123 | a solution of the system after step k, pivot exchange included, solves the system before it |
| Elimination.ForwardSound | Polynomial.hpp:104-123 | a solution of the fully reduced, upper triangular system solves the system the forward pass started from |
| Elimination.InitialInv | Polynomial.hpp:94-101 | with no zero row and a trivial kernel, the starting state satisfies the invariant: positive scale factors, identity permutation, regular system |
| Elimination.BackSolveCorrect | Polynomial.hpp:125-134 | back substitution keeps the entries from hi on and solves every equation at a position below hi |
| Elimination.BackSolveSatisfies | Polynomial.hpp:125-134 | back substitution solves the fully reduced system |
| Elimination.TriangulatedPivots | Polynomial.hpp:104-123 | after the forward pass, every position i has a non-zero pivot A[P[i]][i], so the division at line 133 is defined |
| Elimination.TriangulatedSolves | Polynomial.hpp:85-135 | back substitution on the forward pass's outcome solves the original system A . C = B |
| ReferenceData.SampleSystem | Polynomial.cpp:91-94 | the normal equations of the test samples are [[4, 6, 14], [6, 14, 36], [14, 36, 98]] . c = [4, 4.4, 12] |
| ReferenceData.SampleNonsingular | Polynomial.cpp:91-94 | that system has no zero row and a trivial kernel |
| ReferenceData.ExpectedSolves | Polynomial.cpp:95-97 | [2.18, -2.42, 0.7] solves that system, and no other vector does |
| ReferenceData.ExpectedValues | Polynomial.cpp:100-109 | the expected quadratic takes the values 2.18, 0.46, 0.14, 1.22 at 0, 1, 2, 3 |
| ReferenceData.ExpectedSqErr | Polynomial.cpp:112-117 | its squared error over the four samples is 0.128 |
| ReferenceData.ExpectedFigures | Polynomial.cpp:100-117 | values and mean squared error computed from the expected coefficients are the test's expected figures |
| ReferenceData.FitSample | Polynomial.cpp:91-97 | fitting three coefficients to the test samples yields exactly [2.18, -2.42, 0.7] |
| ReferenceData.UnitTest | Polynomial.cpp:87-120 | all three checks of the unit test hold exactly: coefficients, values at X, and mean squared error 0.128 |

## Left out

- Floating point: `Scalar` is `real`. Rounding, overflow and NaN or infinity
  results are not modelled, nor any claim about numerical stability. The unit
  test's `approx` tolerance is replaced by exact equality.
- The constructor only reserves room for the rows of A (Polynomial.hpp:50-51).
  The rows stay empty, so the writes at Polynomial.hpp:79 fall outside them.
  The model allocates A as the intended n x n matrix. The constructor's
  comment notes this.
- Fit: requires a moment matrix with a trivial kernel. The source divides by
  a zero scale factor (Polynomial.hpp:108) or a zero pivot
  (Polynomial.hpp:118, 133) otherwise, and does not check for either. That
  the moment matrix then has no zero row is proved
  (`Moments.MomentNoZeroRow`), from its symmetry.
- Solve: requires A to have no zero row and a trivial kernel, for the same
  reason. A may be any matrix here, so the first condition is stated
  separately.
- Fit: requires n >= 1, because 2 * n - 1 underflows for n = 0
  (Polynomial.hpp:65).
- Value: requires n >= 1, because the source reads C[-1] for n = 0
  (Polynomial.hpp:158).
- Mse: requires n >= 1 and |X| <= |Y| only when |X| > n, because then it
  calls `value` and reads Y[t] for every t < |X|. When |X| <= n it accepts
  any n and any Y, as the source does.
- Y longer than X: the source reads only the first |X| entries of Y. The model
  requires |X| <= |Y| instead of equal lengths.
- Solve: no-zero-row is a separate requirement. It is not derived from
  nonsingularity for an arbitrary matrix A, which would need rank arguments
  the model does not make; for the symmetric moment matrix it is derived.
- Fit: that its coefficients minimise the squared error over the samples
  (the least-squares promise) is not proved. `Moments.NormalEquations` proves
  that the assembled system is V^T V c = V^T Y, whose solutions are the
  minimisers; the minimisation argument itself is left out.
- Fit: independence from the order of the samples is proved for one exchange
  of neighbouring samples (`Moments.ExchangedFitsAgree`). An arbitrary
  reordering is a sequence of such exchanges, but that composition is not
  stated as a lemma.
- Fit: that n samples at distinct abscissae are reproduced exactly is not
  proved. It needs the Vandermonde matrix of distinct points to be
  invertible, a rank argument the model does not make. What is proved is the
  converse direction: when a polynomial with n coefficients passes through
  every sample, Fit returns it.
- Integers: `std::size_t` and the `signed int` counters of the
  back-substitution loop and `value` are unbounded integers. Only sizes that
  fit those types are meaningful.
- Left out entirely (C++ plumbing or console I/O, with no behaviour to
  verify):
  - the template parameter;
  - `friend class PolynomialTest`;
  - the `operator<<` printers, `approx` helpers and `main` of Polynomial.cpp.
- The implicit conversion to `const std::vector<Scalar>&` is modelled as the
  read-only view `Coefficients`.
