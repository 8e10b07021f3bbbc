/**
 * The per-face step of the Roe splitting (fipy/variables/roeVariable.py,
 * lines 79-84): decompose the averaged coefficient matrix `A` with the
 * library's eigen-solver, put the eigenpairs in ascending order of
 * eigenvalue, invert the reordered eigenvector matrix and form
 * `Abar = R diag(|lambda|) R^-1`.
 *
 * The eigen-solver and the matrix inverse are library routines.  They enter
 * the model as function-valued parameters `eig` and `inv`; the only thing
 * assumed of them everywhere is the shape of what they return.  Their
 * algebraic promises (`A R = R diag(lambda)`, `R R^-1 = I`) appear as
 * preconditions of exactly the lemmas that need them.
 */
module EigenSplit {
  import opened LinearAlgebra
  import opened Permutations

  /** What the eigen-solver returns: eigenvalues, and eigenvectors as the columns of a matrix. */
  datatype Eigen = Eigen(values: seq<real>, vectors: Matrix)

  predicate Shaped(e: Eigen, n: nat) {
    |e.values| == n && IsSquare(e.vectors, n)
  }

  /** The eigen-solver returns `n` eigenvalues and an `n`-by-`n` vector matrix for every `n`-by-`n` input. */
  ghost predicate EigShapes(eig: Matrix -> Eigen, n: nat) {
    forall m {:trigger eig(m)} :: IsSquare(m, n) ==> Shaped(eig(m), n)
  }

  /** The inverse routine returns an `n`-by-`n` matrix for every `n`-by-`n` input. */
  ghost predicate InvShapes(inv: Matrix -> Matrix, n: nat) {
    forall m {:trigger inv(m)} :: IsSquare(m, n) ==> IsSquare(inv(m), n)
  }

  /** `e` diagonalises `a`: `a R = R diag(lambda)`, column by column `a r_k = lambda_k r_k`. */
  predicate IsEigenDecomposition(a: Matrix, e: Eigen, n: nat) {
    IsSquare(a, n) && Shaped(e, n) &&
    Dot(a, e.vectors, n) == Dot(e.vectors, Diag(e.values, n), n)
  }

  predicate IsRightInverse(r: Matrix, rinv: Matrix, n: nat) {
    IsSquare(r, n) && IsSquare(rinv, n) && Dot(r, rinv, n) == Identity(n)
  }

  predicate IsInverse(r: Matrix, rinv: Matrix, n: nat) {
    IsRightInverse(r, rinv, n) && Dot(rinv, r, n) == Identity(n)
  }

  /** `m[:, p]`: the columns of `m` in the order the index list `p` visits them. */
  function PermuteColumns(m: Matrix, p: seq<nat>, n: nat): (r: Matrix)
    requires IsSquare(m, n) && |p| == n
    requires forall k :: 0 <= k < n ==> p[k] < n
    ensures IsSquare(r, n)
    ensures forall i, k :: 0 <= i < n && 0 <= k < n ==> r[i][k] == m[i][p[k]]
  {
    var r := seq(n, i requires 0 <= i < n => seq(n, k requires 0 <= k < n => m[i][p[k]]));
    assert forall i, k :: 0 <= i < n && 0 <= k < n ==> r[i][k] == m[i][p[k]];
    r
  }

  /** `eigenvalues[p], R[:, p]`: both parts of the decomposition reordered by one permutation. */
  function Reorder(e: Eigen, p: seq<nat>, n: nat): (s: Eigen)
    requires Shaped(e, n) && IsPermutation(p, n)
    ensures Shaped(s, n)
  {
    PermutationInRange(p, n);
    Eigen(PermuteValues(e.values, p), PermuteColumns(e.vectors, p, n))
  }

  /** The decomposition of `a` after the reordering by `argsort` of its eigenvalues. */
  function SortedEigen(a: Matrix, n: nat, eig: Matrix -> Eigen): (s: Eigen)
    requires IsSquare(a, n) && EigShapes(eig, n)
    ensures Shaped(s, n)
  {
    var e := eig(a);
    Reorder(e, Argsort(e.values), n)
  }

  /** `dot(dot(R, abs(lambda) * identity(n)), Rinv)`. */
  function SplitMatrix(values: seq<real>, r: Matrix, rinv: Matrix, n: nat): (abar: Matrix)
    requires |values| == n && IsSquare(r, n) && IsSquare(rinv, n)
    ensures IsSquare(abar, n)
  {
    Dot(Dot(r, Diag(Abs(values), n), n), rinv, n)
  }

  /** The split matrix `Abar` of one face's averaged matrix `a`. */
  function FaceSplit(a: Matrix, n: nat, eig: Matrix -> Eigen, inv: Matrix -> Matrix): (abar: Matrix)
    requires IsSquare(a, n) && EigShapes(eig, n) && InvShapes(inv, n)
    ensures IsSquare(abar, n)
  {
    var s := SortedEigen(a, n, eig);
    SplitMatrix(s.values, s.vectors, inv(s.vectors), n)
  }

  // ---------------------------------------------------------------------
  // The reordering

  /**
   * After the reordering the eigenvalues ascend, and the k-th eigenvalue and
   * the k-th column are the eigenvalue and the column the solver returned at
   * one and the same original position `p[k]`.
   */
  lemma SortedEigenPairs(a: Matrix, n: nat, eig: Matrix -> Eigen)
    requires IsSquare(a, n) && EigShapes(eig, n)
    ensures var e, s, p := eig(a), SortedEigen(a, n, eig), Argsort(eig(a).values);
      && IsPermutation(p, n)
      && (forall k, l :: 0 <= k < l < n ==> s.values[k] <= s.values[l])
      && (forall k :: 0 <= k < n ==> p[k] < n && s.values[k] == e.values[p[k]])
      && (forall i, k :: 0 <= i < n && 0 <= k < n ==> s.vectors[i][k] == e.vectors[i][p[k]])
  {
    PermutationInRange(Argsort(eig(a).values), n);
  }

  /** Reordering eigenvalues and eigenvectors by the same permutation keeps a decomposition. */
  lemma ReorderKeepsDecomposition(a: Matrix, e: Eigen, p: seq<nat>, n: nat)
    requires IsEigenDecomposition(a, e, n) && IsPermutation(p, n)
    ensures IsEigenDecomposition(a, Reorder(e, p, n), n)
  {
    var s := Reorder(e, p, n);
    forall i: nat, k: nat | i < n && k < n
      ensures Dot(a, s.vectors, n)[i][k] == Dot(s.vectors, Diag(s.values, n), n)[i][k]
    {
      ReorderedColumn(a, e, p, n, i, k);
    }
    MatrixExt(Dot(a, s.vectors, n), Dot(s.vectors, Diag(s.values, n), n), n);
  }

  /** Column `k` of the reordered decomposition is column `p[k]` of the original one. */
  lemma ReorderedColumn(a: Matrix, e: Eigen, p: seq<nat>, n: nat, i: nat, k: nat)
    requires IsEigenDecomposition(a, e, n) && IsPermutation(p, n) && i < n && k < n
    ensures var s := Reorder(e, p, n);
      Dot(a, s.vectors, n)[i][k] == Dot(s.vectors, Diag(s.values, n), n)[i][k]
  {
    PermutationInRange(p, n);
    var s := Reorder(e, p, n);
    var ev, sv := e.vectors, s.vectors;
    forall m: nat | m < n
      ensures DotTerm(a, sv, i, k)(m) == DotTerm(a, ev, i, p[k])(m)
    {
    }
    calc {
      Dot(a, sv, n)[i][k];
      { SumExt(n, DotTerm(a, sv, i, k), DotTerm(a, ev, i, p[k])); }
      Dot(a, ev, n)[i][p[k]];
      Dot(ev, Diag(e.values, n), n)[i][p[k]];
      { DotDiagRightAt(ev, e.values, n, i, p[k]); }
      ev[i][p[k]] * e.values[p[k]];
      sv[i][k] * s.values[k];
      { DotDiagRightAt(sv, s.values, n, i, k); }
      Dot(sv, Diag(s.values, n), n)[i][k];
    }
  }

  // ---------------------------------------------------------------------
  // The sign cases

  /**
   * When every eigenvalue is non-negative the split matrix is `A` itself:
   * `R diag(|lambda|) R^-1 = R diag(lambda) R^-1 = A R R^-1 = A`.
   */
  lemma SplitOfNonNegative(a: Matrix, n: nat, eig: Matrix -> Eigen, inv: Matrix -> Matrix)
    requires IsSquare(a, n) && EigShapes(eig, n) && InvShapes(inv, n)
    requires IsEigenDecomposition(a, eig(a), n)
    requires IsRightInverse(SortedEigen(a, n, eig).vectors, inv(SortedEigen(a, n, eig).vectors), n)
    requires forall k :: 0 <= k < n ==> eig(a).values[k] >= 0.0
    ensures FaceSplit(a, n, eig, inv) == a
  {
    var s := SortedEigen(a, n, eig);
    var r, rinv := s.vectors, inv(s.vectors);
    SortedEigenPairs(a, n, eig);
    ReorderKeepsDecomposition(a, eig(a), Argsort(eig(a).values), n);
    assert Abs(s.values) == s.values;
    calc {
      FaceSplit(a, n, eig, inv);
      Dot(Dot(r, Diag(s.values, n), n), rinv, n);
      Dot(Dot(a, r, n), rinv, n);
      { DotAssoc(a, r, rinv, n); }
      Dot(a, Identity(n), n);
      { DotIdentityRight(a, n); }
      a;
    }
  }

  /**
   * When every eigenvalue is non-positive the split matrix is `-A`:
   * `diag(|lambda|) = -diag(lambda)`.
   */
  lemma SplitOfNonPositive(a: Matrix, n: nat, eig: Matrix -> Eigen, inv: Matrix -> Matrix)
    requires IsSquare(a, n) && EigShapes(eig, n) && InvShapes(inv, n)
    requires IsEigenDecomposition(a, eig(a), n)
    requires IsRightInverse(SortedEigen(a, n, eig).vectors, inv(SortedEigen(a, n, eig).vectors), n)
    requires forall k :: 0 <= k < n ==> eig(a).values[k] <= 0.0
    ensures FaceSplit(a, n, eig, inv) == Neg(a, n)
  {
    var s := SortedEigen(a, n, eig);
    var r, rinv := s.vectors, inv(s.vectors);
    SortedEigenPairs(a, n, eig);
    ReorderKeepsDecomposition(a, eig(a), Argsort(eig(a).values), n);
    ScaleByAbsOfNonPositive(r, s.values, n);
    calc {
      FaceSplit(a, n, eig, inv);
      Dot(Dot(r, Diag(Abs(s.values), n), n), rinv, n);
      Dot(Neg(Dot(r, Diag(s.values, n), n), n), rinv, n);
      Dot(Neg(Dot(a, r, n), n), rinv, n);
      { DotNegLeft(Dot(a, r, n), rinv, n); }
      Neg(Dot(Dot(a, r, n), rinv, n), n);
      { DotAssoc(a, r, rinv, n); DotIdentityRight(a, n); }
      Neg(a, n);
    }
  }

  /** `R diag(|lambda|) = -(R diag(lambda))` when no eigenvalue is positive. */
  lemma ScaleByAbsOfNonPositive(r: Matrix, v: seq<real>, n: nat)
    requires IsSquare(r, n) && |v| == n
    requires forall k :: 0 <= k < n ==> v[k] <= 0.0
    ensures Dot(r, Diag(Abs(v), n), n) == Neg(Dot(r, Diag(v, n), n), n)
  {
    var lhs, rhs := Dot(r, Diag(Abs(v), n), n), Neg(Dot(r, Diag(v, n), n), n);
    DotDiagRight(r, Abs(v), n);
    DotDiagRight(r, v, n);
    forall i: nat, j: nat | i < n && j < n
      ensures lhs[i][j] == rhs[i][j]
    {
      assert Abs(v)[j] == -v[j];
    }
    MatrixExt(lhs, rhs, n);
  }

  // ---------------------------------------------------------------------
  // Independence from the order of the eigenpairs

  lemma PermutationInjective(p: seq<nat>, n: nat, a: nat, b: nat)
    requires IsPermutation(p, n)
    requires a < |p| && b < |p| && a != b
    ensures p[a] != p[b]
  {
    if p[a] == p[b] {
      var x := p[a];
      var lo, hi := if a < b then a else b, if a < b then b else a;
      assert p == p[..lo] + [p[lo]] + p[lo + 1..hi] + [p[hi]] + p[hi + 1..];
      assert multiset(p)[x] >= 2;
      RangeOnce(n, x);
      assert false;
    }
  }

  lemma {:induction false} RangeOnce(n: nat, x: nat)
    ensures multiset(Range(n))[x] <= 1
  {
    if n > 0 {
      assert Range(n) == Range(n - 1) + [n - 1];
      RangeOnce(n - 1, x);
      if x == n - 1 {
        RangeAbsent(n - 1, x);
      }
    }
  }

  lemma {:induction false} RangeAbsent(n: nat, x: nat)
    requires n <= x
    ensures multiset(Range(n))[x] == 0
  {
    if n > 0 {
      assert Range(n) == Range(n - 1) + [n - 1];
      RangeAbsent(n - 1, x);
    }
  }

  /** `q[p, :]`: the rows of `q` in the order the index list `p` visits them. */
  function PermuteRows(q: Matrix, p: seq<nat>, n: nat): (r: Matrix)
    requires IsSquare(q, n) && |p| == n
    requires forall k :: 0 <= k < n ==> p[k] < n
    ensures IsSquare(r, n)
    ensures forall k, j :: 0 <= k < n && 0 <= j < n ==> r[k][j] == q[p[k]][j]
  {
    var r := seq(n, k requires 0 <= k < n => q[p[k]]);
    assert forall k, j :: 0 <= k < n && 0 <= j < n ==> r[k][j] == q[p[k]][j];
    r
  }

  /**
   * The inverse of `R[:, p]` is `R^-1[p, :]`: a right inverse of the
   * reordered matrix can only be the reordered two-sided inverse.
   */
  lemma InverseOfReordered(r: Matrix, q: Matrix, p: seq<nat>, qp: Matrix, n: nat)
    requires IsInverse(r, q, n) && IsPermutation(p, n)
    requires |p| == n && forall k :: 0 <= k < n ==> p[k] < n
    requires IsRightInverse(PermuteColumns(r, p, n), qp, n)
    ensures qp == PermuteRows(q, p, n)
  {
    var rp := PermuteColumns(r, p, n);
    var x := PermuteRows(q, p, n);
    forall k: nat, l: nat | k < n && l < n
      ensures Dot(x, rp, n)[k][l] == Identity(n)[k][l]
    {
      forall m: nat | m < n
        ensures DotTerm(x, rp, k, l)(m) == DotTerm(q, r, p[k], p[l])(m)
      {
      }
      SumExt(n, DotTerm(x, rp, k, l), DotTerm(q, r, p[k], p[l]));
      assert Dot(q, r, n)[p[k]][p[l]] == Identity(n)[p[k]][p[l]];
      if k != l {
        PermutationInjective(p, n, k, l);
      }
    }
    MatrixExt(Dot(x, rp, n), Identity(n), n);
    calc {
      qp;
      { DotIdentityLeft(qp, n); }
      Dot(Dot(x, rp, n), qp, n);
      { DotAssoc(x, rp, qp, n); }
      Dot(x, Dot(rp, qp, n), n);
      { DotIdentityRight(x, n); }
      x;
    }
  }

  /** The summand `R[i][m] * |lambda_m| * Rinv[m][j]` of entry `(i, j)` of the split matrix. */
  function SplitTerm(values: seq<real>, r: Matrix, q: Matrix, i: nat, j: nat): nat -> real {
    (m: nat) => Get(r, i, m) * (if m < |values| then RealAbs(values[m]) else 0.0) * Get(q, m, j)
  }

  lemma SplitMatrixAt(values: seq<real>, r: Matrix, q: Matrix, n: nat, i: nat, j: nat)
    requires |values| == n && IsSquare(r, n) && IsSquare(q, n) && i < n && j < n
    ensures SplitMatrix(values, r, q, n)[i][j] == Sum(n, SplitTerm(values, r, q, i, j))
  {
    var rd := Dot(r, Diag(Abs(values), n), n);
    DotDiagRight(r, Abs(values), n);
    forall m: nat | m < n
      ensures DotTerm(rd, q, i, j)(m) == SplitTerm(values, r, q, i, j)(m)
    {
    }
    SumExt(n, DotTerm(rd, q, i, j), SplitTerm(values, r, q, i, j));
  }

  /**
   * With an exact inverse, reordering the eigenpairs by any permutation leaves
   * `R diag(|lambda|) R^-1` unchanged.
   */
  lemma SplitIgnoresOrder(e: Eigen, p: seq<nat>, inv: Matrix -> Matrix, n: nat)
    requires Shaped(e, n) && IsPermutation(p, n)
    requires IsInverse(e.vectors, inv(e.vectors), n)
    requires IsRightInverse(Reorder(e, p, n).vectors, inv(Reorder(e, p, n).vectors), n)
    ensures var s := Reorder(e, p, n);
      SplitMatrix(s.values, s.vectors, inv(s.vectors), n) ==
      SplitMatrix(e.values, e.vectors, inv(e.vectors), n)
  {
    PermutationInRange(p, n);
    var s := Reorder(e, p, n);
    var q, qp := inv(e.vectors), inv(s.vectors);
    InverseOfReordered(e.vectors, q, p, qp, n);
    forall i: nat, j: nat | i < n && j < n
      ensures SplitMatrix(s.values, s.vectors, qp, n)[i][j] == SplitMatrix(e.values, e.vectors, q, n)[i][j]
    {
      SplitEntryIgnoresOrder(e, p, q, qp, n, i, j);
    }
    MatrixExt(SplitMatrix(s.values, s.vectors, qp, n), SplitMatrix(e.values, e.vectors, q, n), n);
  }

  /** One entry of `SplitIgnoresOrder`: the summands are the original ones visited in the order `p`. */
  lemma SplitEntryIgnoresOrder(e: Eigen, p: seq<nat>, q: Matrix, qp: Matrix, n: nat, i: nat, j: nat)
    requires Shaped(e, n) && IsPermutation(p, n) && IsSquare(q, n) && i < n && j < n
    requires |p| == n && (forall k :: 0 <= k < n ==> p[k] < n) && qp == PermuteRows(q, p, n)
    ensures var s := Reorder(e, p, n);
      SplitMatrix(s.values, s.vectors, qp, n)[i][j] == SplitMatrix(e.values, e.vectors, q, n)[i][j]
  {
    var s := Reorder(e, p, n);
    SplitMatrixAt(s.values, s.vectors, qp, n, i, j);
    SplitMatrixAt(e.values, e.vectors, q, n, i, j);
    var h := SplitTerm(e.values, e.vectors, q, i, j);
    forall k: nat | k < n
      ensures SplitTerm(s.values, s.vectors, qp, i, j)(k) == Along(h, p)(k)
    {
      SplitTermReordered(e, p, q, qp, n, i, j, k);
    }
    SumExt(n, SplitTerm(s.values, s.vectors, qp, i, j), Along(h, p));
    SumPermuted(n, h, p);
  }

  /** Summand `k` of a reordered split entry is summand `p[k]` of the original one. */
  lemma SplitTermReordered(e: Eigen, p: seq<nat>, q: Matrix, qp: Matrix, n: nat, i: nat, j: nat, k: nat)
    requires Shaped(e, n) && IsPermutation(p, n) && IsSquare(q, n) && i < n && j < n && k < n
    requires |p| == n && (forall l :: 0 <= l < n ==> p[l] < n) && qp == PermuteRows(q, p, n)
    ensures var s := Reorder(e, p, n);
      SplitTerm(s.values, s.vectors, qp, i, j)(k) == Along(SplitTerm(e.values, e.vectors, q, i, j), p)(k)
  {
    var s := Reorder(e, p, n);
    assert Get(s.vectors, i, k) == Get(e.vectors, i, p[k]);
    assert Get(qp, k, j) == Get(q, p[k], j);
    assert RealAbs(s.values[k]) == RealAbs(e.values[p[k]]);
  }

  /**
   * So the sort in the per-face loop does not change `Abar` at all when the
   * inverse routine is exact: every ascending order (every tie-break) gives
   * the split matrix of the solver's own, unsorted, eigenpairs.
   */
  lemma FaceSplitIgnoresSort(a: Matrix, n: nat, eig: Matrix -> Eigen, inv: Matrix -> Matrix)
    requires IsSquare(a, n) && EigShapes(eig, n) && InvShapes(inv, n)
    requires IsInverse(eig(a).vectors, inv(eig(a).vectors), n)
    requires IsRightInverse(SortedEigen(a, n, eig).vectors, inv(SortedEigen(a, n, eig).vectors), n)
    ensures FaceSplit(a, n, eig, inv) == SplitMatrix(eig(a).values, eig(a).vectors, inv(eig(a).vectors), n)
  {
    SplitIgnoresOrder(eig(a), Argsort(eig(a).values), inv, n);
  }
}
