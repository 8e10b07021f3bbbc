/**
 * Dense square matrices over exact reals, with the two operations the Roe
 * splitting uses from its numerical library: the matrix product (`dot`) and
 * the identity matrix, plus the broadcast `v * identity(n)` that turns a
 * vector into a diagonal matrix.
 *
 * Products are defined through `Sum`, a finite sum of a function over the
 * indices `0 .. n-1`.  Summands are built by named functions (`DotTerm`,
 * `Plus`, `Scaled`, ...) so that lemmas about `Sum` apply to them without
 * having to compare lambda expressions.
 */
module LinearAlgebra {

  type Matrix = seq<seq<real>>

  /** `m` is an `n`-by-`n` matrix. */
  predicate IsSquare(m: Matrix, n: nat) {
    |m| == n && forall i :: 0 <= i < n ==> |m[i]| == n
  }

  /** Entry `(i, j)` of `m`, or 0 outside its shape (keeps summands total). */
  function Get(m: Matrix, i: nat, j: nat): real {
    if i < |m| && j < |m[i]| then m[i][j] else 0.0
  }

  function RealAbs(x: real): (r: real)
    ensures r >= 0.0 && (r == x || r == -x)
  {
    if x < 0.0 then -x else x
  }

  // ---------------------------------------------------------------------
  // Finite sums

  /** `f(0) + f(1) + ... + f(n-1)`. */
  function Sum(n: nat, f: nat -> real): real
    decreases n
  {
    if n == 0 then 0.0 else Sum(n - 1, f) + f(n - 1)
  }

  function Plus(f: nat -> real, g: nat -> real): nat -> real {
    (k: nat) => f(k) + g(k)
  }

  function Scaled(c: real, f: nat -> real): nat -> real {
    (k: nat) => c * f(k)
  }

  /** Row `k` of a two-index family, as a one-index family. */
  function Slice(g: (nat, nat) -> real, k: nat): nat -> real {
    (l: nat) => g(k, l)
  }

  /** `k |-> sum over l < m of g(k, l)`. */
  function RowSums(g: (nat, nat) -> real, m: nat): nat -> real {
    (k: nat) => Sum(m, Slice(g, k))
  }

  function Flip(g: (nat, nat) -> real): (nat, nat) -> real {
    (a: nat, b: nat) => g(b, a)
  }

  lemma {:induction false} SumExt(n: nat, f: nat -> real, g: nat -> real)
    requires forall k: nat :: k < n ==> f(k) == g(k)
    ensures Sum(n, f) == Sum(n, g)
  {
    if n > 0 {
      SumExt(n - 1, f, g);
    }
  }

  lemma {:induction false} SumZero(n: nat, f: nat -> real)
    requires forall k: nat :: k < n ==> f(k) == 0.0
    ensures Sum(n, f) == 0.0
  {
    if n > 0 {
      SumZero(n - 1, f);
    }
  }

  /** A sum whose only non-zero term is at index `j`. */
  lemma {:induction false} SumSingle(n: nat, f: nat -> real, j: nat)
    requires j < n
    requires forall k: nat :: k < n && k != j ==> f(k) == 0.0
    ensures Sum(n, f) == f(j)
  {
    if j == n - 1 {
      SumZero(n - 1, f);
    } else {
      SumSingle(n - 1, f, j);
    }
  }

  lemma {:induction false} SumPlus(n: nat, f: nat -> real, g: nat -> real)
    ensures Sum(n, Plus(f, g)) == Sum(n, f) + Sum(n, g)
  {
    if n > 0 {
      SumPlus(n - 1, f, g);
    }
  }

  lemma {:induction false} SumScaled(n: nat, c: real, f: nat -> real)
    ensures Sum(n, Scaled(c, f)) == c * Sum(n, f)
  {
    if n > 0 {
      SumScaled(n - 1, c, f);
    }
  }

  /** Finite sums commute: summing rows first equals summing columns first. */
  lemma {:induction false} SumSwap(n: nat, m: nat, g: (nat, nat) -> real)
    ensures Sum(n, RowSums(g, m)) == Sum(m, RowSums(Flip(g), n))
  {
    if n > 0 {
      SumSwap(n - 1, m, g);
      // Sum(m, RowSums(Flip(g), n)) splits into the first n-1 rows plus row n-1.
      forall l: nat | l < m
        ensures RowSums(Flip(g), n)(l) == Plus(RowSums(Flip(g), n - 1), Slice(g, n - 1))(l)
      {
        assert Slice(Flip(g), l)(n - 1) == Slice(g, n - 1)(l);
      }
      SumExt(m, RowSums(Flip(g), n), Plus(RowSums(Flip(g), n - 1), Slice(g, n - 1)));
      SumPlus(m, RowSums(Flip(g), n - 1), Slice(g, n - 1));
      assert RowSums(g, m)(n - 1) == Sum(m, Slice(g, n - 1));
      assert Sum(n, RowSums(g, m)) == Sum(n - 1, RowSums(g, m)) + Sum(m, Slice(g, n - 1));
      assert Sum(n - 1, RowSums(g, m)) == Sum(m, RowSums(Flip(g), n - 1));
      assert Sum(m, RowSums(Flip(g), n)) == Sum(m, Plus(RowSums(Flip(g), n - 1), Slice(g, n - 1)));
    } else {
      SumZero(m, RowSums(Flip(g), 0));
    }
  }

  // ---------------------------------------------------------------------
  // Matrices

  function Identity(n: nat): (r: Matrix)
    ensures IsSquare(r, n)
    ensures forall i, j :: 0 <= i < n && 0 <= j < n ==> r[i][j] == (if i == j then 1.0 else 0.0)
  {
    seq(n, i requires 0 <= i < n => seq(n, j requires 0 <= j < n => if i == j then 1.0 else 0.0))
  }

  /**
   * The broadcast `v * identity(n)`: entry `(i, j)` is `v[j] * I[i][j]`,
   * so `v` lands on the diagonal.
   */
  function Diag(v: seq<real>, n: nat): (r: Matrix)
    requires |v| == n
    ensures IsSquare(r, n)
    ensures forall i, j :: 0 <= i < n && 0 <= j < n ==> r[i][j] == (if i == j then v[j] else 0.0)
  {
    var id := Identity(n);
    var r := seq(n, i requires 0 <= i < n => seq(n, j requires 0 <= j < n => v[j] * id[i][j]));
    assert forall i, j :: 0 <= i < n && 0 <= j < n ==> r[i][j] == v[j] * id[i][j];
    r
  }

  /** Elementwise absolute value of a vector. */
  function Abs(v: seq<real>): (r: seq<real>)
    ensures |r| == |v|
    ensures forall k :: 0 <= k < |v| ==> r[k] >= 0.0 && (r[k] == v[k] || r[k] == -v[k])
  {
    seq(|v|, k requires 0 <= k < |v| => RealAbs(v[k]))
  }

  function Neg(m: Matrix, n: nat): (r: Matrix)
    requires IsSquare(m, n)
    ensures IsSquare(r, n)
    ensures forall i, j :: 0 <= i < n && 0 <= j < n ==> r[i][j] + m[i][j] == 0.0
  {
    seq(n, i requires 0 <= i < n => seq(n, j requires 0 <= j < n => -m[i][j]))
  }

  /** The summand `x[i][k] * y[k][j]` of entry `(i, j)` of a product. */
  function DotTerm(x: Matrix, y: Matrix, i: nat, j: nat): nat -> real {
    (k: nat) => Get(x, i, k) * Get(y, k, j)
  }

  /** The matrix product of two `n`-by-`n` matrices. */
  function Dot(x: Matrix, y: Matrix, n: nat): (r: Matrix)
    requires IsSquare(x, n) && IsSquare(y, n)
    ensures IsSquare(r, n)
  {
    seq(n, i requires 0 <= i < n => seq(n, j requires 0 <= j < n => Sum(n, DotTerm(x, y, i, j))))
  }

  lemma MatrixExt(x: Matrix, y: Matrix, n: nat)
    requires IsSquare(x, n) && IsSquare(y, n)
    requires forall i, j :: 0 <= i < n && 0 <= j < n ==> x[i][j] == y[i][j]
    ensures x == y
  {
    forall i | 0 <= i < n
      ensures x[i] == y[i]
    {
    }
  }

  lemma DotIdentityRight(x: Matrix, n: nat)
    requires IsSquare(x, n)
    ensures Dot(x, Identity(n), n) == x
  {
    forall i: nat, j: nat | i < n && j < n
      ensures Dot(x, Identity(n), n)[i][j] == x[i][j]
    {
      SumSingle(n, DotTerm(x, Identity(n), i, j), j);
    }
    MatrixExt(Dot(x, Identity(n), n), x, n);
  }

  lemma DotIdentityLeft(x: Matrix, n: nat)
    requires IsSquare(x, n)
    ensures Dot(Identity(n), x, n) == x
  {
    forall i: nat, j: nat | i < n && j < n
      ensures Dot(Identity(n), x, n)[i][j] == x[i][j]
    {
      SumSingle(n, DotTerm(Identity(n), x, i, j), i);
    }
    MatrixExt(Dot(Identity(n), x, n), x, n);
  }

  /** Multiplying by a diagonal matrix on the right scales the columns. */
  lemma DotDiagRight(x: Matrix, v: seq<real>, n: nat)
    requires IsSquare(x, n) && |v| == n
    ensures forall i, j :: 0 <= i < n && 0 <= j < n ==> Dot(x, Diag(v, n), n)[i][j] == x[i][j] * v[j]
  {
    forall i: nat, j: nat | i < n && j < n
      ensures Dot(x, Diag(v, n), n)[i][j] == x[i][j] * v[j]
    {
      DotDiagRightAt(x, v, n, i, j);
    }
  }

  lemma DotDiagRightAt(x: Matrix, v: seq<real>, n: nat, i: nat, j: nat)
    requires IsSquare(x, n) && |v| == n && i < n && j < n
    ensures Dot(x, Diag(v, n), n)[i][j] == x[i][j] * v[j]
  {
    SumSingle(n, DotTerm(x, Diag(v, n), i, j), j);
  }

  lemma DotNegLeft(x: Matrix, y: Matrix, n: nat)
    requires IsSquare(x, n) && IsSquare(y, n)
    ensures Dot(Neg(x, n), y, n) == Neg(Dot(x, y, n), n)
  {
    forall i: nat, j: nat | i < n && j < n
      ensures Dot(Neg(x, n), y, n)[i][j] == Neg(Dot(x, y, n), n)[i][j]
    {
      forall k: nat | k < n
        ensures DotTerm(Neg(x, n), y, i, j)(k) == Scaled(-1.0, DotTerm(x, y, i, j))(k)
      {
      }
      SumExt(n, DotTerm(Neg(x, n), y, i, j), Scaled(-1.0, DotTerm(x, y, i, j)));
      SumScaled(n, -1.0, DotTerm(x, y, i, j));
    }
    MatrixExt(Dot(Neg(x, n), y, n), Neg(Dot(x, y, n), n), n);
  }

  /** The three-index summand `x[i][k] * y[k][l] * z[l][j]`, indexed by `(k, l)`. */
  function Triple(x: Matrix, y: Matrix, z: Matrix, i: nat, j: nat): (nat, nat) -> real {
    (k: nat, l: nat) => Get(x, i, k) * Get(y, k, l) * Get(z, l, j)
  }

  lemma DotAssoc(x: Matrix, y: Matrix, z: Matrix, n: nat)
    requires IsSquare(x, n) && IsSquare(y, n) && IsSquare(z, n)
    ensures Dot(Dot(x, y, n), z, n) == Dot(x, Dot(y, z, n), n)
  {
    var xy := Dot(x, y, n);
    var yz := Dot(y, z, n);
    forall i: nat, j: nat | i < n && j < n
      ensures Dot(xy, z, n)[i][j] == Dot(x, yz, n)[i][j]
    {
      var g := Triple(x, y, z, i, j);
      // Left side: sum over l of (sum over k of x y) * z.
      forall l: nat | l < n
        ensures DotTerm(xy, z, i, j)(l) == RowSums(Flip(g), n)(l)
      {
        forall k: nat | k < n
          ensures Slice(Flip(g), l)(k) == Scaled(Get(z, l, j), DotTerm(x, y, i, l))(k)
        {
        }
        SumExt(n, Slice(Flip(g), l), Scaled(Get(z, l, j), DotTerm(x, y, i, l)));
        SumScaled(n, Get(z, l, j), DotTerm(x, y, i, l));
      }
      SumExt(n, DotTerm(xy, z, i, j), RowSums(Flip(g), n));
      // Right side: sum over k of x * (sum over l of y z).
      forall k: nat | k < n
        ensures DotTerm(x, yz, i, j)(k) == RowSums(g, n)(k)
      {
        forall l: nat | l < n
          ensures Slice(g, k)(l) == Scaled(Get(x, i, k), DotTerm(y, z, k, j))(l)
        {
        }
        SumExt(n, Slice(g, k), Scaled(Get(x, i, k), DotTerm(y, z, k, j)));
        SumScaled(n, Get(x, i, k), DotTerm(y, z, k, j));
      }
      SumExt(n, DotTerm(x, yz, i, j), RowSums(g, n));
      SumSwap(n, n, g);
    }
    MatrixExt(Dot(xy, z, n), Dot(x, yz, n), n);
  }
}
