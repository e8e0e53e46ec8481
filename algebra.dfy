/** Exact real arithmetic shared by every stage of the fitting engine: integer
    powers, partial dot products, matrix-vector products over square matrices
    stored as sequences of rows, and the absolute value the solver compares
    pivot candidates with. */
module Algebra {

  /** x raised to the n-th power, as the repeated product r := r * x starting
      from r = 1. */
  ghost function Pow(x: real, n: nat): real
  {
    if n == 0 then 1.0 else Pow(x, n - 1) * x
  }

  /** One more factor of the base. */
  lemma PowStep(x: real, n: nat)
    ensures Pow(x, n + 1) == Pow(x, n) * x
  {
  }

  /** Powers of one base add their exponents. */
  lemma {:induction false} PowAdd(x: real, a: nat, b: nat)
    ensures Pow(x, a + b) == Pow(x, a) * Pow(x, b)
  {
    if b > 0 {
      PowAdd(x, a, b - 1);
      assert Pow(x, a + b) == Pow(x, a + b - 1) * x;
    }
  }

  /** The absolute value, `_fabs` of the source. */
  function Fabs(x: real): (r: real)
    ensures 0.0 <= r && (r == x || r == -x)
    ensures r == 0.0 <==> x == 0.0
  {
    if x >= 0.0 then x else -x
  }

  /** The zero vector of length n. */
  ghost function Zeros(n: nat): (z: seq<real>)
    ensures |z| == n && forall i :: 0 <= i < n ==> z[i] == 0.0
  {
    seq(n, _ => 0.0)
  }

  /** Sum of u[j] * v[j] over lo <= j < hi. */
  ghost function Dot(u: seq<real>, v: seq<real>, lo: nat, hi: nat): real
    requires lo <= hi <= |u| && hi <= |v|
    decreases hi - lo
  {
    if hi == lo then 0.0 else Dot(u, v, lo, hi - 1) + u[hi - 1] * v[hi - 1]
  }

  /** The partial sum peels off its first term as well as its last. */
  lemma {:induction false} DotFirst(u: seq<real>, v: seq<real>, lo: nat, hi: nat)
    requires lo < hi <= |u| && hi <= |v|
    ensures Dot(u, v, lo, hi) == u[lo] * v[lo] + Dot(u, v, lo + 1, hi)
    decreases hi - lo
  {
    if hi > lo + 1 {
      DotFirst(u, v, lo, hi - 1);
    }
  }

  /** A partial sum only depends on the entries inside its range. */
  lemma {:induction false} DotAgree(u: seq<real>, v: seq<real>, u': seq<real>, v': seq<real>, lo: nat, hi: nat)
    requires lo <= hi <= |u| && hi <= |v| && hi <= |u'| && hi <= |v'|
    requires forall j :: lo <= j < hi ==> u[j] == u'[j] && v[j] == v'[j]
    ensures Dot(u, v, lo, hi) == Dot(u', v', lo, hi)
    decreases hi - lo
  {
    if hi > lo {
      DotAgree(u, v, u', v', lo, hi - 1);
    }
  }

  /** A partial sum is zero when one of the two vectors is zero at every
      position of the range. */
  lemma {:induction false} DotZero(u: seq<real>, v: seq<real>, lo: nat, hi: nat)
    requires lo <= hi <= |u| && hi <= |v|
    requires forall j :: lo <= j < hi ==> u[j] == 0.0 || v[j] == 0.0
    ensures Dot(u, v, lo, hi) == 0.0
    decreases hi - lo
  {
    if hi > lo {
      DotZero(u, v, lo, hi - 1);
    }
  }

  /** Subtracting m times row t from row u subtracts m times the partial sums. */
  lemma {:induction false} DotCombine(w: seq<real>, u: seq<real>, t: seq<real>, m: real, v: seq<real>, lo: nat, hi: nat)
    requires lo <= hi <= |w| && hi <= |u| && hi <= |t| && hi <= |v|
    requires forall j :: lo <= j < hi ==> w[j] == u[j] - m * t[j]
    ensures Dot(w, v, lo, hi) == Dot(u, v, lo, hi) - m * Dot(t, v, lo, hi)
    decreases hi - lo
  {
    if hi > lo {
      DotCombine(w, u, t, m, v, lo, hi - 1);
      assert w[hi - 1] * v[hi - 1] == u[hi - 1] * v[hi - 1] - m * (t[hi - 1] * v[hi - 1]);
    }
  }

  /** The partial sum is linear in its second argument. */
  lemma {:induction false} DotDifference(u: seq<real>, d: seq<real>, v1: seq<real>, v2: seq<real>, lo: nat, hi: nat)
    requires lo <= hi <= |u| && hi <= |d| && hi <= |v1| && hi <= |v2|
    requires forall j :: lo <= j < hi ==> d[j] == v1[j] - v2[j]
    ensures Dot(u, d, lo, hi) == Dot(u, v1, lo, hi) - Dot(u, v2, lo, hi)
    decreases hi - lo
  {
    if hi > lo {
      DotDifference(u, d, v1, v2, lo, hi - 1);
    }
  }

  /** M is an n x n matrix given as n rows of length n. */
  ghost predicate Square(M: seq<seq<real>>, n: nat)
  {
    |M| == n && forall r :: 0 <= r < n ==> |M[r]| == n
  }

  /** The product M . c of a square matrix with a vector. */
  ghost function MatVec(M: seq<seq<real>>, c: seq<real>): (r: seq<real>)
    requires Square(M, |c|)
    ensures |r| == |c| && forall i :: 0 <= i < |c| ==> r[i] == Dot(M[i], c, 0, |c|)
  {
    seq(|c|, i requires 0 <= i < |c| => Dot(M[i], c, 0, |c|))
  }

  /** M has a trivial kernel: only the zero vector is mapped to zero. */
  ghost predicate Nonsingular(M: seq<seq<real>>)
    requires Square(M, |M|)
  {
    forall c :: |c| == |M| && MatVec(M, c) == Zeros(|M|) ==> c == Zeros(|M|)
  }

  /** The row u has a non-zero entry. */
  ghost predicate NonZeroIn(u: seq<real>)
  {
    exists j :: 0 <= j < |u| && u[j] != 0.0
  }

  /** Every row of M has a non-zero entry. */
  ghost predicate NoZeroRow(M: seq<seq<real>>)
  {
    forall r :: 0 <= r < |M| ==> NonZeroIn(M[r])
  }

  /** The unit vector at j: zero except for a 1 at position j. */
  ghost function Unit(n: nat, j: nat): (e: seq<real>)
    requires j < n
    ensures |e| == n && e[j] == 1.0 && forall i :: 0 <= i < n && i != j ==> e[i] == 0.0
  {
    Zeros(n)[j := 1.0]
  }

  /** A partial sum against the unit vector at j picks out u[j] once the
      range has passed j. */
  lemma {:induction false} DotUnit(u: seq<real>, n: nat, j: nat, hi: nat)
    requires j < n && hi <= n && hi <= |u|
    ensures Dot(u, Unit(n, j), 0, hi) == if j < hi then u[j] else 0.0
  {
    if hi > 0 {
      DotUnit(u, n, j, hi - 1);
    }
  }

  /** In a symmetric matrix a zero row j is also a zero column j, so the unit
      vector at j lies in the kernel. */
  lemma ZeroRowKernel(M: seq<seq<real>>, j: nat) returns (e: seq<real>)
    requires Square(M, |M|) && j < |M| && !NonZeroIn(M[j])
    requires forall r, k :: 0 <= r < |M| && 0 <= k < |M| ==> M[r][k] == M[k][r]
    ensures |e| == |M| && MatVec(M, e) == Zeros(|M|) && e != Zeros(|M|)
  {
    var n := |M|;
    e := Unit(n, j);
    forall i | 0 <= i < n
      ensures MatVec(M, e)[i] == 0.0
    {
      DotUnit(M[i], n, j, n);
      assert M[i][j] == M[j][i];
    }
    assert e[j] != Zeros(n)[j];
  }

  /** A symmetric matrix with a trivial kernel has no zero row. */
  lemma SymmetricNoZeroRow(M: seq<seq<real>>)
    requires Square(M, |M|) && Nonsingular(M)
    requires forall r, k :: 0 <= r < |M| && 0 <= k < |M| ==> M[r][k] == M[k][r]
    ensures NoZeroRow(M)
  {
    forall j | 0 <= j < |M|
      ensures NonZeroIn(M[j])
    {
      if !NonZeroIn(M[j]) {
        var e := ZeroRowKernel(M, j);
        assert false;
      }
    }
  }

  /** A nonsingular system has at most one solution. */
  lemma SolutionUnique(M: seq<seq<real>>, c1: seq<real>, c2: seq<real>)
    requires Square(M, |M|) && |c1| == |M| && |c2| == |M|
    requires Nonsingular(M)
    requires MatVec(M, c1) == MatVec(M, c2)
    ensures c1 == c2
  {
    var d := Difference(M, c1, c2);
    assert d == Zeros(|M|);
    assert forall j :: 0 <= j < |M| ==> c1[j] == c2[j] by {
      forall j | 0 <= j < |M|
        ensures c1[j] == c2[j]
      {
        assert d[j] == 0.0;
      }
    }
  }

  /** The difference of two vectors with the same image lies in the kernel. */
  lemma Difference(M: seq<seq<real>>, c1: seq<real>, c2: seq<real>) returns (d: seq<real>)
    requires Square(M, |M|) && |c1| == |M| && |c2| == |M|
    requires MatVec(M, c1) == MatVec(M, c2)
    ensures |d| == |M| && MatVec(M, d) == Zeros(|M|)
    ensures forall j :: 0 <= j < |M| ==> d[j] == c1[j] - c2[j]
  {
    var n := |M|;
    d := seq(n, j requires 0 <= j < n => c1[j] - c2[j]);
    forall i | 0 <= i < n
      ensures MatVec(M, d)[i] == 0.0
    {
      assert MatVec(M, c1)[i] == MatVec(M, c2)[i];
      DotDifference(M[i], d, c1, c2, 0, n);
    }
  }
}
