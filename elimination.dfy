/** The pivoted LU solver, as functions on values: per-row scale factors, the
    scaled pivot choice, one in-place elimination step addressed through the
    permutation vector, the whole forward pass, and back substitution; with the
    proof that the forward pass never meets a zero pivot on a nonsingular
    matrix and that back substitution then solves the original system. */
module Elimination {
  import opened Algebra

  function Min(a: nat, b: nat): nat
  {
    if a < b then a else b
  }

  /** Every entry of P names one of the n rows. */
  ghost predicate InRange(P: seq<nat>, n: nat)
  {
    |P| == n && forall i :: 0 <= i < n ==> P[i] < n
  }

  /** P is a permutation of 0..|P|-1: its entries are rows and pairwise distinct. */
  ghost predicate IsPermutation(P: seq<nat>)
  {
    InRange(P, |P|) && forall i, j :: 0 <= i < j < |P| ==> P[i] != P[j]
  }

  ghost function Identity(n: nat): (P: seq<nat>)
    ensures |P| == n && IsPermutation(P)
    ensures forall i :: 0 <= i < n ==> P[i] == i
  {
    seq(n, i requires 0 <= i < n => i)
  }

  /** The exchange of entries k and j of P: j receives P[k], then k receives
      the old P[j]. */
  ghost function Swap(P: seq<nat>, k: nat, j: nat): seq<nat>
    requires k < |P| && j < |P|
  {
    P[j := P[k]][k := P[j]]
  }

  /** Exchanging two entries keeps a permutation a permutation and moves
      nothing else. */
  lemma SwapPermutation(P: seq<nat>, k: nat, j: nat)
    requires IsPermutation(P) && k < |P| && j < |P|
    ensures IsPermutation(Swap(P, k, j))
    ensures Swap(P, k, j)[k] == P[j] && Swap(P, k, j)[j] == P[k]
    ensures forall i :: 0 <= i < |P| && i != k && i != j ==> Swap(P, k, j)[i] == P[i]
  {
  }

  // ---------------------------------------------------------------------
  // The reduced systems

  /** c solves the system reached after k elimination steps: the row at
      position i of P (row P[i] of M, right-hand side b[P[i]]) only counts its
      columns from Min(i, k) on, since the entries left of them have been
      eliminated (the source leaves their stale values in place). */
  ghost predicate Satisfies(M: seq<seq<real>>, b: seq<real>, P: seq<nat>, k: nat, c: seq<real>)
    requires Square(M, |c|) && |b| == |c| && InRange(P, |c|)
  {
    forall i :: 0 <= i < |c| ==> Dot(M[P[i]], c, Min(i, k), |c|) == b[P[i]]
  }

  /** Before any step, with the identity order, the reduced system is M . c = b. */
  lemma SatisfiesIdentity(M: seq<seq<real>>, b: seq<real>, c: seq<real>)
    requires Square(M, |c|) && |b| == |c|
    ensures Satisfies(M, b, Identity(|c|), 0, c) <==> MatVec(M, c) == b
  {
    var I := Identity(|c|);
    if Satisfies(M, b, I, 0, c) {
      forall i | 0 <= i < |c|
        ensures MatVec(M, c)[i] == b[i]
      {
        assert Dot(M[I[i]], c, Min(i, 0), |c|) == b[I[i]];
      }
    }
    if MatVec(M, c) == b {
      forall i | 0 <= i < |c|
        ensures Dot(M[I[i]], c, Min(i, 0), |c|) == b[I[i]]
      {
        assert MatVec(M, c)[i] == b[i];
      }
    }
  }

  /** Exchanging two positions that have not been used as pivots yet only
      reorders the equations of the reduced system. */
  lemma SatisfiesSwap(M: seq<seq<real>>, b: seq<real>, P: seq<nat>, k: nat, j: nat, c: seq<real>)
    requires Square(M, |c|) && |b| == |c| && IsPermutation(P) && |P| == |c|
    requires k <= j < |c|
    ensures IsPermutation(Swap(P, k, j))
    ensures Satisfies(M, b, Swap(P, k, j), k, c) <==> Satisfies(M, b, P, k, c)
  {
    var n, Q := |c|, Swap(P, k, j);
    SwapPermutation(P, k, j);
    if Satisfies(M, b, P, k, c) {
      forall i | 0 <= i < n
        ensures Dot(M[Q[i]], c, Min(i, k), n) == b[Q[i]]
      {
        if i == k {
          assert Dot(M[P[j]], c, Min(j, k), n) == b[P[j]];
        } else if i == j {
          assert Dot(M[P[k]], c, Min(k, k), n) == b[P[k]];
        } else {
          assert Dot(M[P[i]], c, Min(i, k), n) == b[P[i]];
        }
      }
    }
    if Satisfies(M, b, Q, k, c) {
      forall i | 0 <= i < n
        ensures Dot(M[P[i]], c, Min(i, k), n) == b[P[i]]
      {
        if i == k {
          assert Dot(M[Q[j]], c, Min(j, k), n) == b[Q[j]];
        } else if i == j {
          assert Dot(M[Q[k]], c, Min(k, k), n) == b[Q[k]];
        } else {
          assert Dot(M[Q[i]], c, Min(i, k), n) == b[Q[i]];
        }
      }
    }
  }

  // ---------------------------------------------------------------------
  // Scale factors

  /** The running maximum of |u[j]| over j < hi, starting from 0 and replaced
      only by a strictly larger value. */
  ghost function RowMax(u: seq<real>, hi: nat): real
    requires hi <= |u|
  {
    if hi == 0 then 0.0
    else
      var m := RowMax(u, hi - 1);
      if Fabs(u[hi - 1]) > m then Fabs(u[hi - 1]) else m
  }

  /** RowMax is the largest magnitude in the row, and it is positive exactly
      when the row has a non-zero entry. */
  lemma {:induction false} RowMaxIsMax(u: seq<real>, hi: nat)
    requires hi <= |u|
    ensures forall j :: 0 <= j < hi ==> Fabs(u[j]) <= RowMax(u, hi)
    ensures RowMax(u, hi) == 0.0 || exists j :: 0 <= j < hi && RowMax(u, hi) == Fabs(u[j])
    ensures 0.0 < RowMax(u, hi) <==> exists j :: 0 <= j < hi && u[j] != 0.0
  {
    if hi > 0 {
      RowMaxIsMax(u, hi - 1);
      if RowMax(u, hi) > 0.0 {
        var j :| 0 <= j < hi && RowMax(u, hi) == Fabs(u[j]);
        assert u[j] != 0.0;
      }
    }
  }

  /** The scale factor of every row. */
  ghost function Scales(M: seq<seq<real>>): (S: seq<real>)
    ensures |S| == |M|
  {
    seq(|M|, r requires 0 <= r < |M| => RowMax(M[r], |M[r]|))
  }

  /** Every scale factor is positive exactly when no row is zero. */
  lemma ScalesPositive(M: seq<seq<real>>)
    ensures NoZeroRow(M) <==> forall r :: 0 <= r < |M| ==> Scales(M)[r] > 0.0
  {
    forall r | 0 <= r < |M|
      ensures Scales(M)[r] > 0.0 <==> NonZeroIn(M[r])
    {
      assert Scales(M)[r] == RowMax(M[r], |M[r]|);
      RowMaxIsMax(M[r], |M[r]|);
    }
  }

  // ---------------------------------------------------------------------
  // Pivot choice

  ghost predicate PivotReady(M: seq<seq<real>>, S: seq<real>, P: seq<nat>, k: nat)
  {
    Square(M, |P|) && |S| == |P| && InRange(P, |P|) && k < |P| &&
    forall r :: 0 <= r < |S| ==> S[r] > 0.0
  }

  /** The scaled magnitude of the candidate at position i in column k. */
  ghost function Ratio(M: seq<seq<real>>, S: seq<real>, P: seq<nat>, k: nat, i: nat): real
    requires PivotReady(M, S, P, k) && i < |P|
  {
    Fabs(M[P[i]][k]) / S[P[i]]
  }

  /** The position chosen after comparing the candidates at positions k..hi-1,
      starting from k and moving only to a strictly larger scaled magnitude. */
  ghost function PivotFrom(M: seq<seq<real>>, S: seq<real>, P: seq<nat>, k: nat, hi: nat): (j: nat)
    requires PivotReady(M, S, P, k) && k <= hi <= |P|
    ensures k <= j < |P| && (k < hi ==> j < hi)
    decreases hi
  {
    if hi == k then k
    else
      var j := PivotFrom(M, S, P, k, hi - 1);
      if Ratio(M, S, P, k, hi - 1) > Ratio(M, S, P, k, j) then hi - 1 else j
  }

  /** The chosen position has the largest scaled magnitude, and every
      position before it has a strictly smaller one: ties go to the first. */
  lemma {:induction false} PivotIsFirstMax(M: seq<seq<real>>, S: seq<real>, P: seq<nat>, k: nat, hi: nat)
    requires PivotReady(M, S, P, k) && k < hi <= |P|
    ensures forall i :: k <= i < hi ==> Ratio(M, S, P, k, i) <= Ratio(M, S, P, k, PivotFrom(M, S, P, k, hi))
    ensures forall i :: k <= i < PivotFrom(M, S, P, k, hi) ==>
      Ratio(M, S, P, k, i) < Ratio(M, S, P, k, PivotFrom(M, S, P, k, hi))
    decreases hi
  {
    if hi > k + 1 {
      PivotIsFirstMax(M, S, P, k, hi - 1);
    }
  }

  /** A candidate whose scaled magnitude is not positive is zero. */
  lemma RatioZero(M: seq<seq<real>>, S: seq<real>, P: seq<nat>, k: nat, i: nat)
    requires PivotReady(M, S, P, k) && i < |P|
    ensures Ratio(M, S, P, k, i) <= 0.0 <==> M[P[i]][k] == 0.0
  {
    var a, s := Fabs(M[P[i]][k]), S[P[i]];
    if a > 0.0 {
      QuotientPositive(a, s);
    } else {
      assert a == 0.0;
      assert a / s == 0.0;
    }
  }

  lemma QuotientPositive(a: real, s: real)
    requires 0.0 < a && 0.0 < s
    ensures 0.0 < a / s
  {
  }

  // ---------------------------------------------------------------------
  // One elimination step

  ghost predicate ElimReady(M: seq<seq<real>>, P: seq<nat>, k: nat)
  {
    Square(M, |P|) && IsPermutation(P) && k < |P| && M[P[k]][k] != 0.0
  }

  /** Row u after subtracting u[k] / t[k] times the pivot row t in the
      columns right of k; columns up to k keep their (stale) values. */
  ghost function Reduce(u: seq<real>, t: seq<real>, k: nat): (w: seq<real>)
    requires k < |t| && |t| == |u| && t[k] != 0.0
    ensures |w| == |u|
  {
    seq(|u|, j requires 0 <= j < |u| => if j > k then u[j] - u[k] / t[k] * t[j] else u[j])
  }

  /** The right-hand side bu of row u after subtracting u[k] / t[k] times
      the right-hand side bt of the pivot row t. */
  ghost function ReduceRhs(u: seq<real>, t: seq<real>, k: nat, bu: real, bt: real): real
    requires k < |t| && k < |u| && t[k] != 0.0
  {
    bu - u[k] / t[k] * bt
  }

  /** The matrix while step k is under way: the rows at positions k+1..i-1
      have been reduced against the pivot row P[k], every other row keeps its
      value. */
  ghost function ElimPartial(M: seq<seq<real>>, P: seq<nat>, k: nat, i: nat): (E: seq<seq<real>>)
    requires ElimReady(M, P, k) && k < i <= |P|
    ensures Square(E, |P|)
  {
    var n := |P|;
    seq(n, r requires 0 <= r < n => if r in P[k + 1..i] then Reduce(M[r], M[P[k]], k) else M[r])
  }

  /** The right-hand side while step k is under way, with the same
      multipliers M[r][k] / M[P[k]][k]. */
  ghost function ElimRhsPartial(M: seq<seq<real>>, b: seq<real>, P: seq<nat>, k: nat, i: nat): (e: seq<real>)
    requires ElimReady(M, P, k) && |b| == |P| && k < i <= |P|
    ensures |e| == |P|
  {
    var n := |P|;
    seq(n, r requires 0 <= r < n =>
      if r in P[k + 1..i] then ReduceRhs(M[r], M[P[k]], k, b[r], b[P[k]]) else b[r])
  }

  /** Step k of the forward pass on the matrix: every row below the pivot row
      reduced. */
  ghost function ElimMatrix(M: seq<seq<real>>, P: seq<nat>, k: nat): (E: seq<seq<real>>)
    requires ElimReady(M, P, k)
    ensures Square(E, |P|)
  {
    ElimPartial(M, P, k, |P|)
  }

  /** Step k of the forward pass on the right-hand side. */
  ghost function ElimRhs(M: seq<seq<real>>, b: seq<real>, P: seq<nat>, k: nat): (e: seq<real>)
    requires ElimReady(M, P, k) && |b| == |P|
    ensures |e| == |P|
  {
    ElimRhsPartial(M, b, P, k, |P|)
  }

  /** Before the first row below the pivot nothing is reduced. */
  lemma ElimPartialStart(M: seq<seq<real>>, b: seq<real>, P: seq<nat>, k: nat)
    requires ElimReady(M, P, k) && |b| == |P|
    ensures ElimPartial(M, P, k, k + 1) == M && ElimRhsPartial(M, b, P, k, k + 1) == b
  {
    assert P[k + 1..k + 1] == [];
  }

  /** Reducing the row at position i extends the partial step by that one
      row, which until then (like the pivot row) still holds its original
      value. */
  lemma ElimPartialStep(M: seq<seq<real>>, b: seq<real>, P: seq<nat>, k: nat, i: nat)
    requires ElimReady(M, P, k) && |b| == |P| && k < i < |P|
    ensures ElimPartial(M, P, k, i)[P[i]] == M[P[i]] && ElimPartial(M, P, k, i)[P[k]] == M[P[k]]
    ensures ElimRhsPartial(M, b, P, k, i)[P[i]] == b[P[i]] && ElimRhsPartial(M, b, P, k, i)[P[k]] == b[P[k]]
    ensures ElimPartial(M, P, k, i + 1) ==
      ElimPartial(M, P, k, i)[P[i] := Reduce(M[P[i]], M[P[k]], k)]
    ensures ElimRhsPartial(M, b, P, k, i + 1) ==
      ElimRhsPartial(M, b, P, k, i)[P[i] := ReduceRhs(M[P[i]], M[P[k]], k, b[P[i]], b[P[k]])]
  {
    NotAmong(P, i, k + 1, i);
    NotAmong(P, k, k + 1, i + 1);
    assert P[k + 1..i + 1] == P[k + 1..i] + [P[i]];
    var e, e' := ElimRhsPartial(M, b, P, k, i), ElimRhsPartial(M, b, P, k, i + 1);
    assert forall r :: 0 <= r < |P| ==> e'[r] == e[P[i] := ReduceRhs(M[P[i]], M[P[k]], k, b[P[i]], b[P[k]])][r];
  }

  /** An entry of a permutation does not recur at other positions. */
  lemma NotAmong(P: seq<nat>, x: nat, lo: nat, hi: nat)
    requires IsPermutation(P) && x < |P| && lo <= hi <= |P| && !(lo <= x < hi)
    ensures P[x] !in P[lo..hi]
  {
  }

  /** What step k changes: the pivot row and the rows above it are untouched,
      and in the rows below only the columns right of k change. */
  lemma ElimFrame(M: seq<seq<real>>, b: seq<real>, P: seq<nat>, k: nat)
    requires ElimReady(M, P, k) && |b| == |P|
    ensures forall i :: 0 <= i <= k ==>
      ElimMatrix(M, P, k)[P[i]] == M[P[i]] && ElimRhs(M, b, P, k)[P[i]] == b[P[i]]
    ensures forall i :: k < i < |P| ==> ElimMatrix(M, P, k)[P[i]] == Reduce(M[P[i]], M[P[k]], k)
    ensures forall i :: k < i < |P| ==>
      ElimRhs(M, b, P, k)[P[i]] == ReduceRhs(M[P[i]], M[P[k]], k, b[P[i]], b[P[k]])
  {
    forall i | 0 <= i <= k
      ensures P[i] !in P[k + 1..|P|]
    {
      NotAmong(P, i, k + 1, |P|);
    }
    forall i | k < i < |P|
      ensures P[i] in P[k + 1..|P|]
    {
      assert P[k + 1..|P|][i - k - 1] == P[i];
    }
  }

  /** Elimination applied to a zero right-hand side leaves it zero. */
  lemma ElimRhsZero(M: seq<seq<real>>, P: seq<nat>, k: nat)
    requires ElimReady(M, P, k)
    ensures ElimRhs(M, Zeros(|P|), P, k) == Zeros(|P|)
  {
  }

  /** A solution of the system after step k solves the system before it. */
  lemma ElimSound(M: seq<seq<real>>, b: seq<real>, P: seq<nat>, k: nat, c: seq<real>)
    requires ElimReady(M, P, k) && |b| == |P| && |c| == |P|
    ensures Satisfies(ElimMatrix(M, P, k), ElimRhs(M, b, P, k), P, k + 1, c) ==> Satisfies(M, b, P, k, c)
  {
    var n, E, e := |P|, ElimMatrix(M, P, k), ElimRhs(M, b, P, k);
    if Satisfies(E, e, P, k + 1, c) {
      ElimFrame(M, b, P, k);
      assert Dot(E[P[k]], c, Min(k, k + 1), n) == e[P[k]];
      forall i | 0 <= i < n
        ensures Dot(M[P[i]], c, Min(i, k), n) == b[P[i]]
      {
        assert Dot(E[P[i]], c, Min(i, k + 1), n) == e[P[i]];
        if k < i {
          ElimRowSound(M, b, P, k, c, i);
        }
      }
    }
  }

  /** One row of ElimSound: row P[i] below the pivot, restored from its
      reduced form and the pivot row's equation. */
  lemma ElimRowSound(M: seq<seq<real>>, b: seq<real>, P: seq<nat>, k: nat, c: seq<real>, i: nat)
    requires ElimReady(M, P, k) && |b| == |P| && |c| == |P| && k < i < |P|
    requires Dot(ElimMatrix(M, P, k)[P[i]], c, k + 1, |P|) == ElimRhs(M, b, P, k)[P[i]]
    requires Dot(M[P[k]], c, k, |P|) == b[P[k]]
    ensures Dot(M[P[i]], c, k, |P|) == b[P[i]]
  {
    var n, r, p := |P|, P[i], P[k];
    ElimFrame(M, b, P, k);
    RestoreRow(M[r], M[p], ElimRhs(M, b, P, k)[r], b[r], b[p], c, k, n);
  }

  /** If c solves the reduced row Reduce(u, t, k) with right-hand side
      bu - (u[k] / t[k]) * bt from column k + 1 on, and solves the pivot row t
      with right-hand side bt from column k on, then it solves u with
      right-hand side bu from column k on. */
  lemma RestoreRow(u: seq<real>, t: seq<real>, bw: real, bu: real, bt: real,
                   c: seq<real>, k: nat, n: nat)
    requires |u| == n && |t| == n && |c| == n && k < n && t[k] != 0.0
    requires bw == ReduceRhs(u, t, k, bu, bt)
    requires Dot(Reduce(u, t, k), c, k + 1, n) == bw
    requires Dot(t, c, k, n) == bt
    ensures Dot(u, c, k, n) == bu
  {
    var s := u[k] / t[k];
    var x, y := Dot(u, c, k + 1, n), Dot(t, c, k + 1, n);
    ReduceDot(u, t, k, s, c, n);
    DotFirst(t, c, k, n);
    DotFirst(u, c, k, n);
    ReducedRow(x, y, u[k], t[k], s, c[k], bu, bt);
  }

  /** Reducing a row against the pivot row reduces its partial sums from
      column k + 1 on by the same multiple. */
  lemma {:induction false} ReduceDot(u: seq<real>, t: seq<real>, k: nat, s: real, c: seq<real>, n: nat)
    requires |u| == n && |t| == n && |c| == n && k < n && t[k] != 0.0 && s == u[k] / t[k]
    ensures Dot(Reduce(u, t, k), c, k + 1, n) == Dot(u, c, k + 1, n) - s * Dot(t, c, k + 1, n)
  {
    ReduceEntries(u, t, k, s);
    DotCombine(Reduce(u, t, k), u, t, s, c, k + 1, n);
  }

  /** A matrix that agrees with R except that row r, right of column k, lost
      s = R[r][k] / R[p][k] times row p, is R with row r reduced. */
  lemma RowReduced(R: seq<seq<real>>, N: seq<seq<real>>, r: nat, p: nat, k: nat, s: real)
    requires Square(R, |R|) && Square(N, |R|) && r < |R| && p < |R| && k < |R|
    requires R[p][k] != 0.0 && s == R[r][k] / R[p][k]
    requires forall r', c {:trigger N[r'][c]} :: 0 <= r' < |R| && 0 <= c < |R| ==>
      N[r'][c] == if r' == r && k < c then R[r][c] - s * R[p][c] else R[r'][c]
    ensures N == R[r := Reduce(R[r], R[p], k)]
  {
    var n := |R|;
    ReduceEntries(R[r], R[p], k, s);
    forall r' | 0 <= r' < n
      ensures N[r'] == R[r := Reduce(R[r], R[p], k)][r']
    {
      if r' == r {
        assert forall c :: 0 <= c < n ==> N[r][c] == Reduce(R[r], R[p], k)[c];
      } else {
        assert forall c :: 0 <= c < n ==> N[r'][c] == R[r'][c];
      }
    }
  }

  /** Past column k, the reduced row is u less s times the pivot row. */
  lemma ReduceEntries(u: seq<real>, t: seq<real>, k: nat, s: real)
    requires |u| == |t| && k < |t| && t[k] != 0.0 && s == u[k] / t[k]
    ensures forall j :: k + 1 <= j < |u| ==> Reduce(u, t, k)[j] == u[j] - s * t[j]
  {
  }

  /** The arithmetic of ElimSound: with s = a / d, if x - s * y = br - s * bp
      and d * ck + y = bp, then a * ck + x = br. */
  lemma ReducedRow(x: real, y: real, a: real, d: real, s: real, ck: real, br: real, bp: real)
    requires d != 0.0 && s == a / d
    requires x - s * y == br - s * bp
    requires d * ck + y == bp
    ensures a * ck + x == br
  {
    assert s * d == a;
    calc {
      a * ck + x;
      s * d * ck + (br - s * bp + s * y);
      br + s * (d * ck + y - bp);
      br;
    }
  }

  // ---------------------------------------------------------------------
  // The forward pass

  /** The working storage of the solver: matrix, right-hand side and
      permutation vector. */
  datatype State = State(M: seq<seq<real>>, b: seq<real>, P: seq<nat>)

  /** The reduced homogeneous system after k steps has only the zero solution. */
  ghost predicate Regular(M: seq<seq<real>>, P: seq<nat>, k: nat)
    requires Square(M, |P|) && InRange(P, |P|)
  {
    forall c :: |c| == |P| && Satisfies(M, Zeros(|P|), P, k, c) ==> c == Zeros(|P|)
  }

  /** The layout of the working storage before step k: an n x n matrix, n
      right-hand sides, a permutation of 0 .. n-1, positive scale factors and
      non-zero pivots at the positions already done. */
  ghost predicate Shaped(st: State, S: seq<real>, k: nat)
  {
    var n := |S|;
    Square(st.M, n) && |st.b| == n && |st.P| == n && IsPermutation(st.P) && k <= n &&
    (forall r :: 0 <= r < n ==> S[r] > 0.0) &&
    (forall i :: 0 <= i < k ==> st.M[st.P[i]][i] != 0.0)
  }

  /** What holds of the working storage before step k: the layout above, and
      a reduced system that is still regular. */
  ghost predicate Inv(st: State, S: seq<real>, k: nat)
  {
    Shaped(st, S, k) && Regular(st.M, st.P, k)
  }

  /** On the invariant, the scaled pivot choice at column k is never zero. */
  lemma PivotNonZero(st: State, S: seq<real>, k: nat)
    requires Inv(st, S, k) && k < |S|
    ensures st.M[st.P[PivotFrom(st.M, S, st.P, k, |S|)]][k] != 0.0
  {
    var n, M, P := |S|, st.M, st.P;
    var j := PivotFrom(M, S, P, k, n);
    if M[P[j]][k] == 0.0 {
      PivotIsFirstMax(M, S, P, k, n);
      RatioZero(M, S, P, k, j);
      forall i | k <= i < n
        ensures M[P[i]][k] == 0.0
      {
        RatioZero(M, S, P, k, i);
      }
      var c := KernelVector(M, P, k);
      assert false;
    }
  }

  /** When the column k is zero at every position from k on, the reduced
      homogeneous system after k steps has a non-zero solution: c[k] = 1,
      zeros after it, and back substitution above it. */
  lemma KernelVector(M: seq<seq<real>>, P: seq<nat>, k: nat) returns (c: seq<real>)
    requires Square(M, |P|) && InRange(P, |P|) && k < |P|
    requires forall i :: 0 <= i < k ==> M[P[i]][i] != 0.0
    requires forall i :: k <= i < |P| ==> M[P[i]][k] == 0.0
    ensures |c| == |P| && Satisfies(M, Zeros(|P|), P, k, c) && c != Zeros(|P|)
  {
    var n, z := |P|, Zeros(|P|);
    c := BackSolve(M, z, P, k, z[k := 1.0]);
    BackSolveCorrect(M, z, P, k, z[k := 1.0]);
    forall i | 0 <= i < n
      ensures Dot(M[P[i]], c, Min(i, k), n) == z[P[i]]
    {
      if k <= i {
        DotFirst(M[P[i]], c, k, n);
        DotZero(M[P[i]], c, k + 1, n);
      }
    }
    assert c[k] != z[k];
  }

  /** Step k of the forward pass: choose the pivot, exchange it into position
      k of the permutation, eliminate below it. */
  ghost function Step(st: State, S: seq<real>, k: nat): (r: State)
    requires Inv(st, S, k) && k < |S|
    ensures Square(r.M, |S|) && |r.b| == |S| && InRange(r.P, |S|)
  {
    var Q := Swap(st.P, k, PivotFrom(st.M, S, st.P, k, |S|));
    assert ElimReady(st.M, Q, k) by {
      PivotNonZero(st, S, k);
      SwapPermutation(st.P, k, PivotFrom(st.M, S, st.P, k, |S|));
    }
    State(ElimMatrix(st.M, Q, k), ElimRhs(st.M, st.b, Q, k), Q)
  }

  /** Each step keeps the invariant. */
  lemma StepInv(st: State, S: seq<real>, k: nat)
    requires Inv(st, S, k) && k < |S|
    ensures Inv(Step(st, S, k), S, k + 1)
  {
    var n := |S|;
    var j := PivotFrom(st.M, S, st.P, k, n);
    var Q := Swap(st.P, k, j);
    PivotNonZero(st, S, k);
    SwapPermutation(st.P, k, j);
    var nx := Step(st, S, k);
    ElimFrame(st.M, st.b, Q, k);
    forall i | 0 <= i < k + 1
      ensures nx.M[nx.P[i]][i] != 0.0
    {
      assert nx.M[Q[i]] == st.M[Q[i]];
    }
    forall c | |c| == n && Satisfies(nx.M, Zeros(n), nx.P, k + 1, c)
      ensures c == Zeros(n)
    {
      ElimRhsZero(st.M, Q, k);
      ElimSound(st.M, Zeros(n), Q, k, c);
      SatisfiesSwap(st.M, Zeros(n), st.P, k, j, c);
    }
  }

  /** The forward pass from step k to the end. */
  ghost function Forward(st: State, S: seq<real>, k: nat): (r: State)
    requires Inv(st, S, k)
    ensures Inv(r, S, |S|)
    decreases |S| - k
  {
    if k == |S| then st
    else
      assert Inv(Step(st, S, k), S, k + 1) by { StepInv(st, S, k); }
      Forward(Step(st, S, k), S, k + 1)
  }

  /** One step of the forward pass keeps the invariant and leaves the rest
      of the pass to the following steps. */
  lemma ForwardStepInv(st: State, S: seq<real>, k: nat)
    requires Inv(st, S, k) && k < |S|
    ensures Inv(Step(st, S, k), S, k + 1)
    ensures Forward(Step(st, S, k), S, k + 1) == Forward(st, S, k)
  {
    StepInv(st, S, k);
  }

  /** After the whole forward pass every diagonal pivot of the permuted
      system is non-zero. */
  lemma Pivots(fin: State, S: seq<real>)
    requires Inv(fin, S, |S|)
    ensures InRange(fin.P, |S|) && Square(fin.M, |S|)
    ensures forall i :: 0 <= i < |S| ==> fin.M[fin.P[i]][i] != 0.0
  {
  }

  /** A solution of the fully reduced (upper triangular) system solves the
      system the forward pass started from. */
  lemma {:induction false} ForwardSound(st: State, S: seq<real>, k: nat, c: seq<real>)
    requires Inv(st, S, k) && |c| == |S|
    ensures Satisfies(Forward(st, S, k).M, Forward(st, S, k).b, Forward(st, S, k).P, |S|, c) ==>
      Satisfies(st.M, st.b, st.P, k, c)
    decreases |S| - k
  {
    if k < |S| {
      StepInv(st, S, k);
      ForwardSound(Step(st, S, k), S, k + 1, c);
      StepSound(st, S, k, c);
    }
  }

  /** A solution of the system after step k solves the system before it. */
  lemma StepSound(st: State, S: seq<real>, k: nat, c: seq<real>)
    requires Inv(st, S, k) && k < |S| && |c| == |S|
    ensures Satisfies(Step(st, S, k).M, Step(st, S, k).b, Step(st, S, k).P, k + 1, c) ==>
      Satisfies(st.M, st.b, st.P, k, c)
  {
    var j := PivotFrom(st.M, S, st.P, k, |S|);
    PivotNonZero(st, S, k);
    SwapPermutation(st.P, k, j);
    SatisfiesSwap(st.M, st.b, st.P, k, j, c);
    ElimSound(st.M, st.b, Swap(st.P, k, j), k, c);
  }

  /** The solver's starting point satisfies the invariant when no row is zero
      and the matrix is nonsingular. */
  lemma InitialInv(M: seq<seq<real>>, b: seq<real>)
    requires Square(M, |M|) && |b| == |M|
    requires NoZeroRow(M) && Nonsingular(M)
    ensures Inv(State(M, b, Identity(|M|)), Scales(M), 0)
  {
    var n := |M|;
    ScalesPositive(M);
    forall c | |c| == n && Satisfies(M, Zeros(n), Identity(n), 0, c)
      ensures c == Zeros(n)
    {
      SatisfiesIdentity(M, Zeros(n), c);
    }
  }

  // ---------------------------------------------------------------------
  // Back substitution

  /** The value back substitution gives unknown i: b[P[i]] less the known
      terms j > i of row P[i], divided by the pivot M[P[i]][i]. */
  ghost function SolvedEntry(M: seq<seq<real>>, b: seq<real>, P: seq<nat>, i: nat, c: seq<real>): real
    requires Square(M, |c|) && |b| == |c| && InRange(P, |c|) && i < |c| && M[P[i]][i] != 0.0
  {
    (b[P[i]] - Dot(M[P[i]], c, i + 1, |c|)) / M[P[i]][i]
  }

  /** Back substitution of the upper triangular system given by the positions
      below hi: entries hi.. of c are kept, entry i (from hi-1 down to 0)
      becomes (b[P[i]] - sum of M[P[i]][j] * c[j] over j > i) / M[P[i]][i]. */
  ghost function BackSolve(M: seq<seq<real>>, b: seq<real>, P: seq<nat>, hi: nat, c: seq<real>): (r: seq<real>)
    requires Square(M, |c|) && |b| == |c| && InRange(P, |c|) && hi <= |c|
    requires forall i :: 0 <= i < hi ==> M[P[i]][i] != 0.0
    ensures |r| == |c|
    decreases hi
  {
    if hi == 0 then c
    else
      var i := hi - 1;
      BackSolve(M, b, P, i, c[i := SolvedEntry(M, b, P, i, c)])
  }

  /** Position i is solved first, from the entries after it; the positions
      before it come next. */
  lemma BackSolveUnfold(M: seq<seq<real>>, b: seq<real>, P: seq<nat>, hi: nat, c: seq<real>)
    requires Square(M, |c|) && |b| == |c| && InRange(P, |c|) && 0 < hi <= |c|
    requires forall j :: 0 <= j < hi ==> M[P[j]][j] != 0.0
    ensures var i := hi - 1;
      BackSolve(M, b, P, hi, c) ==
      BackSolve(M, b, P, i, c[i := SolvedEntry(M, b, P, i, c)])
  {
  }

  /** Back substitution keeps the entries from hi on, and the result solves
      every equation at a position below hi. */
  lemma {:induction false} BackSolveCorrect(M: seq<seq<real>>, b: seq<real>, P: seq<nat>, hi: nat, c: seq<real>)
    requires Square(M, |c|) && |b| == |c| && InRange(P, |c|) && hi <= |c|
    requires forall i :: 0 <= i < hi ==> M[P[i]][i] != 0.0
    ensures forall j :: hi <= j < |c| ==> BackSolve(M, b, P, hi, c)[j] == c[j]
    ensures forall i :: 0 <= i < hi ==> Dot(M[P[i]], BackSolve(M, b, P, hi, c), i, |c|) == b[P[i]]
    decreases hi
  {
    if hi > 0 {
      var n, i := |c|, hi - 1;
      var d := Dot(M[P[i]], c, i + 1, n);
      var c' := c[i := (b[P[i]] - d) / M[P[i]][i]];
      BackSolveCorrect(M, b, P, i, c');
      var r := BackSolve(M, b, P, i, c');
      assert r == BackSolve(M, b, P, hi, c);
      DotFirst(M[P[i]], r, i, n);
      DotAgree(M[P[i]], r, M[P[i]], c, i + 1, n);
      Division(b[P[i]] - d, M[P[i]][i]);
    }
  }

  lemma Division(a: real, d: real)
    requires d != 0.0
    ensures d * (a / d) == a
  {
  }

  // ---------------------------------------------------------------------
  // The whole solver

  /** st holds an n x n matrix, n right-hand sides and n row indices, and each
      position i has a row P[i] with a nonzero entry in column i. */
  ghost predicate Pivoted(st: State, n: nat)
  {
    Square(st.M, n) && |st.b| == n && InRange(st.P, n) &&
    forall i :: 0 <= i < n ==> st.M[st.P[i]][i] != 0.0
  }

  /** Back substitution solves the fully reduced system. */
  lemma BackSolveSatisfies(fin: State, n: nat, c0: seq<real>)
    requires Pivoted(fin, n) && |c0| == n
    ensures Satisfies(fin.M, fin.b, fin.P, n, BackSolve(fin.M, fin.b, fin.P, n, c0))
  {
    var c := BackSolve(fin.M, fin.b, fin.P, n, c0);
    BackSolveCorrect(fin.M, fin.b, fin.P, n, c0);
    forall i | 0 <= i < n
      ensures Dot(fin.M[fin.P[i]], c, Min(i, n), n) == fin.b[fin.P[i]]
    {
    }
  }

  /** The solver's storage after its first two stages on the system
      M . c = b: S holds the scale factors of M, and fin is the outcome of the
      whole forward pass started from the identity permutation. */
  ghost predicate Triangulated(M: seq<seq<real>>, b: seq<real>, S: seq<real>, fin: State)
  {
    Passes(M, b, S, fin)
  }

  /** The definition of Triangulated written out: M is square with |b| rows,
      S is Scales(M), the start state meets the invariant, and fin is Forward
      of it. It sits one level below Triangulated so that a method which only
      passes Triangulated on does not unfold these conjuncts. */
  ghost predicate Passes(M: seq<seq<real>>, b: seq<real>, S: seq<real>, fin: State)
  {
    Square(M, |M|) && |b| == |M| && S == Scales(M) &&
    Inv(State(M, b, Identity(|M|)), S, 0) && fin == Forward(State(M, b, Identity(|M|)), S, 0)
  }

  /** After the forward pass every position has a nonzero pivot. */
  lemma TriangulatedPivots(M: seq<seq<real>>, b: seq<real>, S: seq<real>, fin: State)
    requires Triangulated(M, b, S, fin)
    ensures Pivoted(fin, |M|)
  {
    Pivots(fin, S);
  }

  /** Back substitution on the outcome of the forward pass solves the
      original system. */
  lemma TriangulatedSolves(M: seq<seq<real>>, b: seq<real>, S: seq<real>, fin: State, c0: seq<real>)
    requires Triangulated(M, b, S, fin) && |c0| == |M|
    ensures MatVec(M, BackSolve(fin.M, fin.b, fin.P, |M|, c0)) == b
  {
    var init := State(M, b, Identity(|M|));
    assert S == Scales(M) && fin == Forward(init, S, 0);
    var c := BackSolve(fin.M, fin.b, fin.P, |M|, c0);
    TriangulatedPivots(M, b, S, fin);
    BackSolveSatisfies(fin, |M|, c0);
    ForwardSound(init, S, 0, c);
    SatisfiesIdentity(M, b, c);
  }
}
