/**
 * `_RoeVariable` (fipy/variables/roeVariable.py): a face variable built from
 * a cell variable `var` and a per-cell coefficient `coeff`, whose value is
 * the Roe flux splitting of the coefficient.  The constructor records the
 * mesh, the element shape and the two requirements; `CalcValue` is
 * `_calcValue`, with the preallocated `Abar` filled one face column at a
 * time and the preallocated result filled one slot at a time.
 */
module RoeVariables {
  import opened LinearAlgebra
  import opened Permutations
  import opened EigenSplit
  import opened RoeFlux

  /** A cell variable: its mesh, its shape `(components..., numCells)` and its values. */
  datatype CellVariable = CellVariable(mesh: Mesh, shape: seq<nat>, value: seq<real>)

  /** `var.shape[:-1]`: every axis but the last (empty for an empty shape, as slicing gives). */
  function LeadingAxes(shape: seq<nat>): (lead: seq<nat>)
    ensures |shape| > 0 ==> shape == lead + [shape[|shape| - 1]]
    ensures |shape| == 0 ==> lead == []
  {
    if |shape| == 0 then [] else shape[..|shape| - 1]
  }

  /** The element shape `(2,) + var.shape[:-1]` that the constructor declares, as written. */
  function DeclaredElementShape(varShape: seq<nat>): (s: seq<nat>)
    ensures |s| == 1 + |LeadingAxes(varShape)|
  {
    [2] + LeadingAxes(varShape)
  }

  /** The element shape of the value `_calcValue` returns: `(2, nequ, nequ)` per face. */
  function ValueElementShape(nequ: nat): seq<nat> {
    [2, nequ, nequ]
  }

  /**
   * For the cell variables the splitting is meant for, of shape
   * `(nequ, numCells)`, the declared element shape `(2, nequ)` has one axis
   * fewer than the value's `(2, nequ, nequ)`.
   */
  lemma DeclaredShapeMismatch(nequ: nat, numCells: nat)
    ensures DeclaredElementShape([nequ, numCells]) == [2, nequ]
    ensures |DeclaredElementShape([nequ, numCells])| + 1 == |ValueElementShape(nequ)|
    ensures DeclaredElementShape([nequ, numCells]) != ValueElementShape(nequ)
  {
    assert LeadingAxes([nequ, numCells]) == [nequ];
  }

  /** The element shape `(2,) + var.shape[:-1] + var.shape[:-1]` that matches the value. */
  function ElementShape(varShape: seq<nat>): (s: seq<nat>)
    ensures |varShape| == 2 ==> s == ValueElementShape(varShape[0])
  {
    var lead := LeadingAxes(varShape);
    [2] + lead + lead
  }

  class RoeVariable {
    const mesh: Mesh
    const elementShape: seq<nat>
    const cached: bool
    /** The two requirements, `self.var` and `self.coeff`. */
    const variable: CellVariable
    const coeff: Coefficient

    /** What the constructor establishes: the mesh and element shape are those of `var`. */
    predicate Valid() {
      mesh == variable.mesh && elementShape == ElementShape(variable.shape)
    }

    constructor (variable: CellVariable, coeff: Coefficient)
      ensures Valid()
      ensures this.mesh == variable.mesh
      ensures this.elementShape == ElementShape(variable.shape)
      ensures this.cached
      ensures this.variable == variable && this.coeff == coeff
    {
      this.mesh := variable.mesh;
      this.elementShape := ElementShape(variable.shape);
      this.cached := true;
      this.variable := variable;
      this.coeff := coeff;
    }

    /**
     * `_calcValue`.  The result has shape `(2, nequ, nequ, numFaces)` and
     * is the Roe value of the coefficient on the mesh; the values of `var`
     * are never read, only its mesh.
     */
    method CalcValue(eig: Matrix -> Eigen, inv: Matrix -> Matrix) returns (value: array4<real>)
      requires Valid() && mesh.Valid() && CoeffOnMesh(coeff, mesh)
      requires EigShapes(eig, coeff.nequ) && InvShapes(inv, coeff.nequ)
      ensures fresh(value)
      ensures value.Length0 == 2 && value.Length1 == coeff.nequ && value.Length2 == coeff.nequ
      ensures value.Length3 == mesh.NumFaces()
      ensures variable.shape == [coeff.nequ, mesh.numCells] ==>
        elementShape == [value.Length0, value.Length1, value.Length2]
      ensures var v := RoeValue(coeff, mesh, eig, inv);
        forall s, i, j, f :: 0 <= s < 2 && 0 <= i < coeff.nequ && 0 <= j < coeff.nequ && 0 <= f < mesh.NumFaces() ==>
          value[s, i, j, f] == v[s][i][j][f]
    {
      var id1, id2 := mesh.id1, mesh.id2;
      var m := variable.mesh;
      var n, nf := coeff.nequ, |id1|;

      var down := Project(coeff, id1, m.projections, m.numCells);
      var up := Project(coeff, id2, m.projections, m.numCells);
      var a := Average(down, up, n, nf);

      var abar := SplitFaces(a, n, nf, eig, inv);
      if variable.shape == [n, mesh.numCells] {
        assert elementShape == ValueElementShape(n);
      }

      value := Combine(down, up, abar, n, nf);

      assert down == CoeffDown(coeff, mesh) && up == CoeffUp(coeff, mesh);
      assert a == FaceAverage(coeff, mesh);
      RoeValueEntries(coeff, mesh, eig, inv);
    }
  }

  /**
   * The face loop: `Abar` preallocated with zeros, then for each face the
   * eigenpairs of its `A` sorted by eigenvalue, `R` inverted, and
   * `R . diag(|lambda|) . R^-1` stored as that face's column.
   */
  method SplitFaces(a: Tensor3, n: nat, nf: nat, eig: Matrix -> Eigen, inv: Matrix -> Matrix)
    returns (abar: array3<real>)
    requires IsTensor3(a, n, n, nf) && EigShapes(eig, n) && InvShapes(inv, n)
    ensures fresh(abar)
    ensures abar.Length0 == n && abar.Length1 == n && abar.Length2 == nf
    ensures forall i, j, f :: 0 <= i < n && 0 <= j < n && 0 <= f < nf ==>
      abar[i, j, f] == SplitAll(a, n, nf, eig, inv)[i][j][f]
  {
    abar := new real[n, n, nf]((i, j, f) => 0.0);
    var ifac := 0;
    while ifac < nf
      invariant 0 <= ifac <= nf
      invariant forall i, j, f :: 0 <= i < n && 0 <= j < n && 0 <= f < ifac ==>
        abar[i, j, f] == FaceSplit(FaceMatrix(a, n, nf, f), n, eig, inv)[i][j]
      invariant forall i, j, f :: 0 <= i < n && 0 <= j < n && ifac <= f < nf ==> abar[i, j, f] == 0.0
    {
      var e := eig(FaceMatrix(a, n, nf, ifac));
      var sorted := Reorder(e, Argsort(e.values), n);
      var rinv := inv(sorted.vectors);
      SetFaceColumn(abar, ifac, SplitMatrix(sorted.values, sorted.vectors, rinv, n));
      ifac := ifac + 1;
    }
  }

  /** The result preallocated with zeros, then `value[0] = (coeffDown + Abar) / 2` and `value[1] = (coeffUp - Abar) / 2`. */
  method Combine(down: Tensor3, up: Tensor3, abar: array3<real>, n: nat, nf: nat) returns (value: array4<real>)
    requires IsTensor3(down, n, n, nf) && IsTensor3(up, n, n, nf)
    requires abar.Length0 == n && abar.Length1 == n && abar.Length2 == nf
    ensures fresh(value)
    ensures value.Length0 == 2 && value.Length1 == n && value.Length2 == n && value.Length3 == nf
    ensures forall i, j, f :: 0 <= i < n && 0 <= j < n && 0 <= f < nf ==>
      value[0, i, j, f] == (down[i][j][f] + abar[i, j, f]) / 2.0 &&
      value[1, i, j, f] == (up[i][j][f] - abar[i, j, f]) / 2.0
  {
    value := new real[2, n, n, nf]((s, i, j, f) => 0.0);
    FillSlot(value, 0, down, abar, 1.0);
    FillSlot(value, 1, up, abar, -1.0);
  }

  /** `Abar[..., f] = column`: writes face `f`'s matrix and nothing else. */
  method SetFaceColumn(abar: array3<real>, f: nat, column: Matrix)
    requires f < abar.Length2 && abar.Length1 == abar.Length0 && IsSquare(column, abar.Length0)
    modifies abar
    ensures forall i, j, g :: 0 <= i < abar.Length0 && 0 <= j < abar.Length1 && 0 <= g < abar.Length2 ==>
      abar[i, j, g] == if g == f then column[i][j] else old(abar[i, j, g])
  {
    var i := 0;
    while i < abar.Length0
      invariant 0 <= i <= abar.Length0
      invariant forall i', j, g :: 0 <= i' < abar.Length0 && 0 <= j < abar.Length1 && 0 <= g < abar.Length2 ==>
        abar[i', j, g] == if g == f && i' < i then column[i'][j] else old(abar[i', j, g])
    {
      var j := 0;
      while j < abar.Length1
        invariant 0 <= j <= abar.Length1
        invariant forall i', j', g :: 0 <= i' < abar.Length0 && 0 <= j' < abar.Length1 && 0 <= g < abar.Length2 ==>
          abar[i', j', g] == if g == f && (i' < i || (i' == i && j' < j)) then column[i'][j'] else old(abar[i', j', g])
      {
        abar[i, j, f] := column[i][j];
        j := j + 1;
      }
      i := i + 1;
    }
  }

  /**
   * `value[s] = (t + sign * Abar) / 2`, entry by entry: slot 0 takes
   * `coeffDown` with `sign = 1`, slot 1 takes `coeffUp` with `sign = -1`.
   */
  method FillSlot(value: array4<real>, s: nat, t: Tensor3, abar: array3<real>, sign: real)
    requires s < value.Length0
    requires IsTensor3(t, value.Length1, value.Length2, value.Length3)
    requires abar.Length0 == value.Length1 && abar.Length1 == value.Length2 && abar.Length2 == value.Length3
    modifies value
    ensures forall r, i, j, f :: 0 <= r < value.Length0 && 0 <= i < value.Length1 && 0 <= j < value.Length2 && 0 <= f < value.Length3 ==>
      value[r, i, j, f] == if r == s then (t[i][j][f] + sign * abar[i, j, f]) / 2.0 else old(value[r, i, j, f])
  {
    var i := 0;
    while i < value.Length1
      invariant 0 <= i <= value.Length1
      invariant forall r, i', j, f :: 0 <= r < value.Length0 && 0 <= i' < value.Length1 && 0 <= j < value.Length2 && 0 <= f < value.Length3 ==>
        value[r, i', j, f] == if r == s && i' < i then (t[i'][j][f] + sign * abar[i', j, f]) / 2.0 else old(value[r, i', j, f])
    {
      var j := 0;
      while j < value.Length2
        invariant 0 <= j <= value.Length2
        invariant forall r, i', j', f :: 0 <= r < value.Length0 && 0 <= i' < value.Length1 && 0 <= j' < value.Length2 && 0 <= f < value.Length3 ==>
          value[r, i', j', f] == if r == s && (i' < i || (i' == i && j' < j))
            then (t[i'][j'][f] + sign * abar[i', j', f]) / 2.0 else old(value[r, i', j', f])
      {
        var f := 0;
        while f < value.Length3
          invariant 0 <= f <= value.Length3
          invariant forall r, i', j', f' :: 0 <= r < value.Length0 && 0 <= i' < value.Length1 && 0 <= j' < value.Length2 && 0 <= f' < value.Length3 ==>
            value[r, i', j', f'] == if r == s && (i' < i || (i' == i && (j' < j || (j' == j && f' < f))))
              then (t[i'][j'][f'] + sign * abar[i', j', f']) / 2.0 else old(value[r, i', j', f'])
        {
          value[s, i, j, f] := (t[i][j][f] + sign * abar[i, j, f]) / 2.0;
          f := f + 1;
        }
        j := j + 1;
      }
      i := i + 1;
    }
  }
}
