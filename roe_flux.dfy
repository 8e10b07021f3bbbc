/**
 * The whole-array part of `_RoeVariable._calcValue`
 * (fipy/variables/roeVariable.py, lines 49-91) as functions over exact
 * reals: gather the per-cell coefficient onto the faces and contract it
 * with the oriented area projections, average the two sides, split each
 * face's average with `EigenSplit.FaceSplit`, and combine into the two
 * slots of the result.
 *
 * Arrays keep the library's axis order: the coefficient has shape
 * `(dim, nequ, nequ, numCells)` and is indexed `[d][i][j][cell]`; face
 * quantities have shape `(nequ, nequ, numFaces)` and are indexed
 * `[i][j][face]`; the result has shape `(2, nequ, nequ, numFaces)`.
 */
module RoeFlux {
  import opened LinearAlgebra
  import opened EigenSplit

  type Tensor3 = seq<seq<seq<real>>>
  type Tensor4 = seq<seq<seq<seq<real>>>>

  predicate IsTensor3(t: Tensor3, a: nat, b: nat, c: nat) {
    |t| == a &&
    (forall i :: 0 <= i < a ==> |t[i]| == b) &&
    (forall i, j :: 0 <= i < a && 0 <= j < b ==> |t[i][j]| == c)
  }

  /**
   * The mesh quantities the Roe variable reads: the number of cells, the
   * two cells adjacent to each face (`id1` the "down" cell, `id2` the "up"
   * cell) and the oriented area projections, shape `(dim, numFaces)`.
   */
  datatype Mesh = Mesh(numCells: nat, id1: seq<nat>, id2: seq<nat>, projections: seq<seq<real>>)
  {
    function NumFaces(): nat {
      |id1|
    }

    function Dim(): nat {
      |projections|
    }

    /** Both adjacency lists name a cell for every face; the projections cover every face. */
    predicate Valid() {
      |id2| == |id1| &&
      (forall f :: 0 <= f < |id1| ==> id1[f] < numCells && id2[f] < numCells) &&
      (forall d :: 0 <= d < |projections| ==> |projections[d]| == |id1|)
    }

    /** The same mesh with the roles of the two adjacent cells exchanged. */
    function Swapped(): (m: Mesh)
      ensures Valid() ==> m.Valid()
    {
      Mesh(numCells, id2, id1, projections)
    }
  }

  /** A per-cell coefficient array of shape `(dim, nequ, nequ, numCells)`. */
  datatype Coefficient = Coefficient(nequ: nat, data: Tensor4)

  predicate CoeffShape(c: Coefficient, dim: nat, numCells: nat) {
    |c.data| == dim &&
    forall d :: 0 <= d < dim ==> IsTensor3(c.data[d], c.nequ, c.nequ, numCells)
  }

  predicate CoeffOnMesh(c: Coefficient, mesh: Mesh) {
    CoeffShape(c, mesh.Dim(), mesh.numCells)
  }

  /** Entry `[d][i][j][cell]` of a coefficient array, or 0 outside its shape. */
  function Get4(t: Tensor4, d: nat, i: nat, j: nat, cell: nat): real {
    if d < |t| && i < |t[d]| && j < |t[d][i]| && cell < |t[d][i][j]| then t[d][i][j][cell] else 0.0
  }

  /** The summand `coeff[d][i][j][cell] * projections[d][f]`, indexed by the spatial axis `d`. */
  function ProjectionTerm(coeff: Tensor4, proj: seq<seq<real>>, i: nat, j: nat, cell: nat, f: nat): nat -> real {
    (d: nat) => Get4(coeff, d, i, j, cell) * Get(proj, d, f)
  }

  /**
   * `(take(coeff, ids, axis=-1) * projections[:, newaxis, newaxis]).sum(0)`:
   * for each face `f`, the coefficient of cell `ids[f]` contracted over the
   * spatial axis with face `f`'s area projections.
   */
  function Project(c: Coefficient, ids: seq<nat>, proj: seq<seq<real>>, numCells: nat): (r: Tensor3)
    requires CoeffShape(c, |proj|, numCells)
    requires forall f :: 0 <= f < |ids| ==> ids[f] < numCells
    requires forall d :: 0 <= d < |proj| ==> |proj[d]| == |ids|
    ensures IsTensor3(r, c.nequ, c.nequ, |ids|)
  {
    var n, nf := c.nequ, |ids|;
    seq(n, i requires 0 <= i < n =>
      seq(n, j requires 0 <= j < n =>
        seq(nf, f requires 0 <= f < nf =>
          Sum(|proj|, ProjectionTerm(c.data, proj, i, j, ids[f], f)))))
  }

  /** `coeffDown`: the coefficient gathered from the down cells `id1`. */
  function CoeffDown(c: Coefficient, mesh: Mesh): (r: Tensor3)
    requires mesh.Valid() && CoeffOnMesh(c, mesh)
    ensures IsTensor3(r, c.nequ, c.nequ, mesh.NumFaces())
  {
    Project(c, mesh.id1, mesh.projections, mesh.numCells)
  }

  /** `coeffUp`: the coefficient gathered from the up cells `id2`. */
  function CoeffUp(c: Coefficient, mesh: Mesh): (r: Tensor3)
    requires mesh.Valid() && CoeffOnMesh(c, mesh)
    ensures IsTensor3(r, c.nequ, c.nequ, mesh.NumFaces())
  {
    Project(c, mesh.id2, mesh.projections, mesh.numCells)
  }

  /** `A = (coeffUp + coeffDown) / 2`. */
  function Average(down: Tensor3, up: Tensor3, n: nat, nf: nat): (a: Tensor3)
    requires IsTensor3(down, n, n, nf) && IsTensor3(up, n, n, nf)
    ensures IsTensor3(a, n, n, nf)
  {
    seq(n, i requires 0 <= i < n =>
      seq(n, j requires 0 <= j < n =>
        seq(nf, f requires 0 <= f < nf => (up[i][j][f] + down[i][j][f]) / 2.0)))
  }

  /** `A[..., f]`: the `n`-by-`n` matrix of face `f`. */
  function FaceMatrix(t: Tensor3, n: nat, nf: nat, f: nat): (m: Matrix)
    requires IsTensor3(t, n, n, nf) && f < nf
    ensures IsSquare(m, n)
    ensures forall i, j :: 0 <= i < n && 0 <= j < n ==> m[i][j] == t[i][j][f]
  {
    var m := seq(n, i requires 0 <= i < n => seq(n, j requires 0 <= j < n => t[i][j][f]));
    assert forall i, j :: 0 <= i < n && 0 <= j < n ==> m[i][j] == t[i][j][f];
    m
  }

  /** `Abar`: face by face, the split matrix of that face's `A`. */
  function SplitAll(a: Tensor3, n: nat, nf: nat, eig: Matrix -> Eigen, inv: Matrix -> Matrix): (abar: Tensor3)
    requires IsTensor3(a, n, n, nf) && EigShapes(eig, n) && InvShapes(inv, n)
    ensures IsTensor3(abar, n, n, nf)
  {
    seq(n, i requires 0 <= i < n =>
      seq(n, j requires 0 <= j < n =>
        seq(nf, f requires 0 <= f < nf => FaceSplit(FaceMatrix(a, n, nf, f), n, eig, inv)[i][j])))
  }

  /** `value[0] = (coeffDown + Abar) / 2`. */
  function DownSlot(down: Tensor3, abar: Tensor3, n: nat, nf: nat): (r: Tensor3)
    requires IsTensor3(down, n, n, nf) && IsTensor3(abar, n, n, nf)
    ensures IsTensor3(r, n, n, nf)
  {
    seq(n, i requires 0 <= i < n =>
      seq(n, j requires 0 <= j < n =>
        seq(nf, f requires 0 <= f < nf => (down[i][j][f] + abar[i][j][f]) / 2.0)))
  }

  /** `value[1] = (coeffUp - Abar) / 2`. */
  function UpSlot(up: Tensor3, abar: Tensor3, n: nat, nf: nat): (r: Tensor3)
    requires IsTensor3(up, n, n, nf) && IsTensor3(abar, n, n, nf)
    ensures IsTensor3(r, n, n, nf)
  {
    seq(n, i requires 0 <= i < n =>
      seq(n, j requires 0 <= j < n =>
        seq(nf, f requires 0 <= f < nf => (up[i][j][f] - abar[i][j][f]) / 2.0)))
  }

  /** The averaged matrices `A` of every face. */
  function FaceAverage(c: Coefficient, mesh: Mesh): (a: Tensor3)
    requires mesh.Valid() && CoeffOnMesh(c, mesh)
    ensures IsTensor3(a, c.nequ, c.nequ, mesh.NumFaces())
  {
    Average(CoeffDown(c, mesh), CoeffUp(c, mesh), c.nequ, mesh.NumFaces())
  }

  /** The split matrices `Abar` of every face. */
  function FaceAbar(c: Coefficient, mesh: Mesh, eig: Matrix -> Eigen, inv: Matrix -> Matrix): (abar: Tensor3)
    requires mesh.Valid() && CoeffOnMesh(c, mesh)
    requires EigShapes(eig, c.nequ) && InvShapes(inv, c.nequ)
    ensures IsTensor3(abar, c.nequ, c.nequ, mesh.NumFaces())
  {
    SplitAll(FaceAverage(c, mesh), c.nequ, mesh.NumFaces(), eig, inv)
  }

  /**
   * The value of the Roe variable: exactly two slots, each with the shape
   * `(nequ, nequ, numFaces)` of `A`.
   */
  function RoeValue(c: Coefficient, mesh: Mesh, eig: Matrix -> Eigen, inv: Matrix -> Matrix): (v: Tensor4)
    requires mesh.Valid() && CoeffOnMesh(c, mesh)
    requires EigShapes(eig, c.nequ) && InvShapes(inv, c.nequ)
    ensures |v| == 2
    ensures forall s :: 0 <= s < 2 ==> IsTensor3(v[s], c.nequ, c.nequ, mesh.NumFaces())
  {
    var n, nf := c.nequ, mesh.NumFaces();
    var abar := FaceAbar(c, mesh, eig, inv);
    [DownSlot(CoeffDown(c, mesh), abar, n, nf), UpSlot(CoeffUp(c, mesh), abar, n, nf)]
  }

  /** The two slots of the value, entry by entry, in terms of the gathered coefficients and the split of `A`. */
  lemma RoeValueEntries(c: Coefficient, mesh: Mesh, eig: Matrix -> Eigen, inv: Matrix -> Matrix)
    requires mesh.Valid() && CoeffOnMesh(c, mesh)
    requires EigShapes(eig, c.nequ) && InvShapes(inv, c.nequ)
    ensures var n, nf := c.nequ, mesh.NumFaces();
      var v, down, up, abar := RoeValue(c, mesh, eig, inv), CoeffDown(c, mesh), CoeffUp(c, mesh),
                               SplitAll(FaceAverage(c, mesh), n, nf, eig, inv);
      forall i, j, f :: 0 <= i < n && 0 <= j < n && 0 <= f < nf ==>
        && v[0][i][j][f] == (down[i][j][f] + abar[i][j][f]) / 2.0
        && v[1][i][j][f] == (up[i][j][f] - abar[i][j][f]) / 2.0
  {
  }

  // ---------------------------------------------------------------------
  // Properties

  /**
   * The two slots add up to the averaged matrix: the `Abar` terms cancel,
   * whatever the eigen-solver and the inverse routine return.
   */
  lemma SlotsSumToAverage(c: Coefficient, mesh: Mesh, eig: Matrix -> Eigen, inv: Matrix -> Matrix)
    requires mesh.Valid() && CoeffOnMesh(c, mesh)
    requires EigShapes(eig, c.nequ) && InvShapes(inv, c.nequ)
    ensures var v, a := RoeValue(c, mesh, eig, inv), FaceAverage(c, mesh);
      forall i, j, f :: 0 <= i < c.nequ && 0 <= j < c.nequ && 0 <= f < mesh.NumFaces() ==>
        v[0][i][j][f] + v[1][i][j][f] == a[i][j][f]
  {
  }

  /**
   * A face's gathered coefficient depends only on the coefficient at the
   * cell the face names and on that face's area projections.
   */
  lemma ProjectIsLocal(c: Coefficient, ids: seq<nat>, proj: seq<seq<real>>, numCells: nat, f: nat,
                       c': Coefficient, ids': seq<nat>, proj': seq<seq<real>>, numCells': nat, f': nat)
    requires CoeffShape(c, |proj|, numCells)
    requires (forall g :: 0 <= g < |ids| ==> ids[g] < numCells) && forall d :: 0 <= d < |proj| ==> |proj[d]| == |ids|
    requires CoeffShape(c', |proj'|, numCells')
    requires (forall g :: 0 <= g < |ids'| ==> ids'[g] < numCells') && forall d :: 0 <= d < |proj'| ==> |proj'[d]| == |ids'|
    requires f < |ids| && f' < |ids'| && c'.nequ == c.nequ && |proj'| == |proj|
    requires forall d, i, j :: 0 <= d < |proj| && 0 <= i < c.nequ && 0 <= j < c.nequ ==>
      c.data[d][i][j][ids[f]] == c'.data[d][i][j][ids'[f']]
    requires forall d :: 0 <= d < |proj| ==> proj[d][f] == proj'[d][f']
    ensures forall i, j :: 0 <= i < c.nequ && 0 <= j < c.nequ ==>
      Project(c, ids, proj, numCells)[i][j][f] == Project(c', ids', proj', numCells')[i][j][f']
  {
    forall i: nat, j: nat | i < c.nequ && j < c.nequ
      ensures Project(c, ids, proj, numCells)[i][j][f] == Project(c', ids', proj', numCells')[i][j][f']
    {
      var t := ProjectionTerm(c.data, proj, i, j, ids[f], f);
      var t' := ProjectionTerm(c'.data, proj', i, j, ids'[f'], f');
      forall d: nat | d < |proj|
        ensures t(d) == t'(d)
      {
      }
      SumExt(|proj|, t, t');
    }
  }

  /**
   * Faces are independent: the two slots of a face depend only on the
   * coefficient at its two adjacent cells and on its projections.  The same
   * holds between two different meshes and coefficients, face `f` of one
   * against face `f'` of the other.
   */
  lemma RoeValueIsLocal(c: Coefficient, mesh: Mesh, f: nat, c': Coefficient, mesh': Mesh, f': nat,
                        eig: Matrix -> Eigen, inv: Matrix -> Matrix)
    requires mesh.Valid() && CoeffOnMesh(c, mesh) && mesh'.Valid() && CoeffOnMesh(c', mesh')
    requires EigShapes(eig, c.nequ) && InvShapes(inv, c.nequ)
    requires f < mesh.NumFaces() && f' < mesh'.NumFaces()
    requires c'.nequ == c.nequ && mesh'.Dim() == mesh.Dim()
    requires forall d, i, j :: 0 <= d < mesh.Dim() && 0 <= i < c.nequ && 0 <= j < c.nequ ==>
      c.data[d][i][j][mesh.id1[f]] == c'.data[d][i][j][mesh'.id1[f']] &&
      c.data[d][i][j][mesh.id2[f]] == c'.data[d][i][j][mesh'.id2[f']]
    requires forall d :: 0 <= d < mesh.Dim() ==> mesh.projections[d][f] == mesh'.projections[d][f']
    ensures var v, v' := RoeValue(c, mesh, eig, inv), RoeValue(c', mesh', eig, inv);
      forall s, i, j :: 0 <= s < 2 && 0 <= i < c.nequ && 0 <= j < c.nequ ==> v[s][i][j][f] == v'[s][i][j][f']
  {
    var n := c.nequ;
    ProjectIsLocal(c, mesh.id1, mesh.projections, mesh.numCells, f, c', mesh'.id1, mesh'.projections, mesh'.numCells, f');
    ProjectIsLocal(c, mesh.id2, mesh.projections, mesh.numCells, f, c', mesh'.id2, mesh'.projections, mesh'.numCells, f');
    var a, a' := FaceAverage(c, mesh), FaceAverage(c', mesh');
    var af, af' := FaceMatrix(a, n, mesh.NumFaces(), f), FaceMatrix(a', n, mesh'.NumFaces(), f');
    MatrixExt(af, af', n);
  }

  /**
   * Exchanging `id1` and `id2` leaves `A` and `Abar` unchanged, and only
   * exchanges the roles of `coeffDown` and `coeffUp`: slot 0 becomes
   * `(coeffUp + Abar) / 2` and slot 1 becomes `(coeffDown - Abar) / 2`.
   */
  lemma SwapExchangesRoles(c: Coefficient, mesh: Mesh, eig: Matrix -> Eigen, inv: Matrix -> Matrix)
    requires mesh.Valid() && CoeffOnMesh(c, mesh)
    requires EigShapes(eig, c.nequ) && InvShapes(inv, c.nequ)
    ensures FaceAverage(c, mesh.Swapped()) == FaceAverage(c, mesh)
    ensures FaceAbar(c, mesh.Swapped(), eig, inv) == FaceAbar(c, mesh, eig, inv)
    ensures var n, nf, abar := c.nequ, mesh.NumFaces(), FaceAbar(c, mesh, eig, inv);
      RoeValue(c, mesh.Swapped(), eig, inv) ==
        [DownSlot(CoeffUp(c, mesh), abar, n, nf), UpSlot(CoeffDown(c, mesh), abar, n, nf)]
  {
    var n, nf := c.nequ, mesh.NumFaces();
    var down, up := CoeffDown(c, mesh), CoeffUp(c, mesh);
    assert CoeffDown(c, mesh.Swapped()) == up;
    assert CoeffUp(c, mesh.Swapped()) == down;
    AverageSymmetric(down, up, n, nf);
  }

  lemma AverageSymmetric(down: Tensor3, up: Tensor3, n: nat, nf: nat)
    requires IsTensor3(down, n, n, nf) && IsTensor3(up, n, n, nf)
    ensures Average(up, down, n, nf) == Average(down, up, n, nf)
  {
    var x, y := Average(up, down, n, nf), Average(down, up, n, nf);
    forall i | 0 <= i < n
      ensures x[i] == y[i]
    {
      forall j | 0 <= j < n
        ensures x[i][j] == y[i][j]
      {
      }
    }
  }

  /**
   * Exchanging `id1` and `id2` does not exchange the two slots: the new slot 0
   * exceeds the old slot 1 by exactly `Abar` (and the new slot 1 falls short of
   * the old slot 0 by `Abar`), so the slots are exchanged only on faces where
   * `Abar` vanishes.  The slot sum is the same before and after.
   */
  lemma SwapShiftsSlotsByAbar(c: Coefficient, mesh: Mesh, eig: Matrix -> Eigen, inv: Matrix -> Matrix)
    requires mesh.Valid() && CoeffOnMesh(c, mesh)
    requires EigShapes(eig, c.nequ) && InvShapes(inv, c.nequ)
    ensures var v, w, abar := RoeValue(c, mesh, eig, inv), RoeValue(c, mesh.Swapped(), eig, inv),
                              FaceAbar(c, mesh, eig, inv);
      forall i, j, f :: 0 <= i < c.nequ && 0 <= j < c.nequ && 0 <= f < mesh.NumFaces() ==>
        && w[0][i][j][f] - v[1][i][j][f] == abar[i][j][f]
        && w[1][i][j][f] - v[0][i][j][f] == -abar[i][j][f]
        && w[0][i][j][f] + w[1][i][j][f] == v[0][i][j][f] + v[1][i][j][f]
  {
    SwapExchangesRoles(c, mesh, eig, inv);
  }

  /**
   * On a face where the solver's eigenvalues of `A` are all non-negative
   * (and the decomposition and inverse are exact), `Abar` is `A` itself:
   * slot 0 is `(coeffDown + A) / 2` and slot 1 is `(coeffUp - A) / 2`.
   */
  lemma AbarOnNonNegativeFace(c: Coefficient, mesh: Mesh, eig: Matrix -> Eigen, inv: Matrix -> Matrix, f: nat)
    requires mesh.Valid() && CoeffOnMesh(c, mesh)
    requires EigShapes(eig, c.nequ) && InvShapes(inv, c.nequ)
    requires f < mesh.NumFaces()
    requires var af := FaceMatrix(FaceAverage(c, mesh), c.nequ, mesh.NumFaces(), f);
      && IsEigenDecomposition(af, eig(af), c.nequ)
      && IsRightInverse(SortedEigen(af, c.nequ, eig).vectors, inv(SortedEigen(af, c.nequ, eig).vectors), c.nequ)
      && forall k :: 0 <= k < c.nequ ==> eig(af).values[k] >= 0.0
    ensures var a, abar, v := FaceAverage(c, mesh), FaceAbar(c, mesh, eig, inv), RoeValue(c, mesh, eig, inv);
      forall i, j :: 0 <= i < c.nequ && 0 <= j < c.nequ ==>
        && abar[i][j][f] == a[i][j][f]
        && v[0][i][j][f] == (CoeffDown(c, mesh)[i][j][f] + a[i][j][f]) / 2.0
        && v[1][i][j][f] == (CoeffUp(c, mesh)[i][j][f] - a[i][j][f]) / 2.0
  {
    var af := FaceMatrix(FaceAverage(c, mesh), c.nequ, mesh.NumFaces(), f);
    SplitOfNonNegative(af, c.nequ, eig, inv);
  }

  /**
   * On a face where the eigenvalues are all non-positive, `Abar` is `-A`:
   * slot 0 is `(coeffDown - A) / 2` and slot 1 is `(coeffUp + A) / 2`.
   */
  lemma AbarOnNonPositiveFace(c: Coefficient, mesh: Mesh, eig: Matrix -> Eigen, inv: Matrix -> Matrix, f: nat)
    requires mesh.Valid() && CoeffOnMesh(c, mesh)
    requires EigShapes(eig, c.nequ) && InvShapes(inv, c.nequ)
    requires f < mesh.NumFaces()
    requires var af := FaceMatrix(FaceAverage(c, mesh), c.nequ, mesh.NumFaces(), f);
      && IsEigenDecomposition(af, eig(af), c.nequ)
      && IsRightInverse(SortedEigen(af, c.nequ, eig).vectors, inv(SortedEigen(af, c.nequ, eig).vectors), c.nequ)
      && forall k :: 0 <= k < c.nequ ==> eig(af).values[k] <= 0.0
    ensures var a, abar, v := FaceAverage(c, mesh), FaceAbar(c, mesh, eig, inv), RoeValue(c, mesh, eig, inv);
      forall i, j :: 0 <= i < c.nequ && 0 <= j < c.nequ ==>
        && abar[i][j][f] == -a[i][j][f]
        && v[0][i][j][f] == (CoeffDown(c, mesh)[i][j][f] - a[i][j][f]) / 2.0
        && v[1][i][j][f] == (CoeffUp(c, mesh)[i][j][f] + a[i][j][f]) / 2.0
  {
    var af := FaceMatrix(FaceAverage(c, mesh), c.nequ, mesh.NumFaces(), f);
    SplitOfNonPositive(af, c.nequ, eig, inv);
  }
}
