# Roe flux splitting of a FiPy face variable

This project models `_RoeVariable` from FiPy (`fipy/variables/roeVariable.py`).
It is the face variable that a Roe-type convection term uses for a system of
`nequ` coupled equations. The model has five steps:

- **Gather and project.** For each face, take the per-cell coefficient
  `(dim, nequ, nequ, numCells)` at the face's "down" cell `id1` and its "up"
  cell `id2`. Contract it over the spatial axis with the face's oriented area
  projections. This gives `coeffDown` and `coeffUp`.
- **Average.** Form `A = (coeffUp + coeffDown) / 2`.
- **Split each face.** With a loop over the faces, eigen-decompose that face's
  `A` and sort the eigenpairs by eigenvalue. Then store
  `Abar = R · diag(|λ|) · R⁻¹` in a preallocated zero array.
- **Result.** Return a preallocated array of shape `(2, nequ, nequ, numFaces)`.
  Slot 0 is `(coeffDown + Abar) / 2` and slot 1 is `(coeffUp − Abar) / 2`.

Arithmetic is exact `real` arithmetic. Matrices are `seq<seq<real>>`.
`numpy.linalg.eig` and `numpy.linalg.inv` are function-valued parameters
`eig: Matrix -> Eigen` and `inv: Matrix -> Matrix`:

- Everywhere, they are required only to return results of the right shape
  (`EigShapes`, `InvShapes`).
- Their algebraic contracts are preconditions of exactly the lemmas that need
  them. Those contracts are `A·R = R·diag(λ)` (`IsEigenDecomposition`),
  `R·R⁻¹ = I` (`IsRightInverse`), and the two-sided inverse (`IsInverse`).

`argsort` is modelled concretely as a stable insertion argsort.

The modules follow the structure of the computation:

- `LinearAlgebra`: finite sums, the matrix product `dot`, `identity`, the
  broadcast `v * identity(n)`, and the algebra the proofs need (associativity,
  identities, diagonal scaling, negation).
- `Permutations`: `argsort`, `v[p]`, and re-indexing a finite sum by a
  permutation.
- `EigenSplit`: the reorder `eigenvalues[argsort], R[:, argsort]` and the
  per-face split matrix, with its sign cases and its independence from the
  eigenpair order.
- `RoeFlux`: the whole-array expressions (gather/project, average, slots) as
  functions, with the slot-sum, locality and swap properties.
- `RoeVariables`: the class `RoeVariable`. Its constructor is `__init__`.
  `CalcValue` is `_calcValue`, with the face loop over a preallocated
  `array3` and the result filled slot by slot in an `array4`.

Exchanging `id1` and `id2` does not swap slot 0 and slot 1. After the exchange, slot 0 is
`(coeffUp + Abar) / 2` and slot 1 is `(coeffDown − Abar) / 2`, because `A`
and `Abar` are unchanged. The model follows the code.
`RoeFlux.SwapShiftsSlotsByAbar` states the exact relation: the new slot 0
exceeds the old slot 1 by `Abar`, and the slot sum is unchanged.

## Model

| member | source | states |
|---|---|---|
| RoeVariables.RoeVariable.constructor | fipy/variables/roeVariable.py:42-46 | the variable takes `var`'s mesh, is cached, records `var` and `coeff` as its requirements, and declares the element shape (corrected as in Findings) |
| RoeVariables.DeclaredElementShape | fipy/variables/roeVariable.py:43 | the shape `(2,) + var.shape[:-1]` as written has exactly one axis more than `var.shape[:-1]` |
| RoeVariables.DeclaredShapeMismatch | fipy/variables/roeVariable.py:43 | for `var.shape == (nequ, numCells)`, the declared element shape is `(2, nequ)`, one axis short of the value's `(2, nequ, nequ)` |
| RoeVariables.ElementShape | fipy/variables/roeVariable.py:86-87 | for a two-axis `var.shape == (nequ, numCells)`, the corrected element shape is `(2, nequ, nequ)` |
| RoeVariables.RoeVariable.CalcValue | fipy/variables/roeVariable.py:48-91 | returns a fresh array of shape `(2, nequ, nequ, numFaces)` whose every entry is the Roe value `RoeFlux.RoeValue` of `coeff` on the mesh (so `var`'s values are never read), and whose element shape is the declared one when `var.shape == (nequ, numCells)` |
| RoeVariables.SplitFaces | fipy/variables/roeVariable.py:77-84 | the loop fills every face column of a fresh `(nequ, nequ, numFaces)` array with the split matrix of that face's `A`; the invariant keeps visited columns split and the rest still zero |
| RoeVariables.SetFaceColumn | fipy/variables/roeVariable.py:84 | `Abar[..., f] = M` writes face `f`'s column with `M` and leaves every other entry unchanged |
| RoeVariables.Combine | fipy/variables/roeVariable.py:87-89 | a fresh `(2, nequ, nequ, numFaces)` array with slot 0 equal to `(coeffDown + Abar) / 2` and slot 1 to `(coeffUp − Abar) / 2` entry by entry |
| RoeVariables.FillSlot | fipy/variables/roeVariable.py:88-89 | `value[s] = (t ± Abar) / 2` sets every entry of slot `s` and leaves the other slot unchanged |
| RoeFlux.ProjectIsLocal | fipy/variables/roeVariable.py:57-58 | the gathered, projected coefficient of a face depends only on the coefficient at the cell that face names and on that face's projections |
| RoeFlux.RoeValue | fipy/variables/roeVariable.py:86-89 | the value has exactly two slots, each of the shape `(nequ, nequ, numFaces)` of `A` |
| RoeFlux.SlotsSumToAverage | fipy/variables/roeVariable.py:74-89 | `value[0] + value[1] == A` on every face and entry, whatever `eig` and `inv` return |
| RoeFlux.RoeValueIsLocal | fipy/variables/roeVariable.py:57-89 | faces are independent: both slots of a face depend only on the coefficient at its two cells and on its projections, across meshes and coefficients |
| RoeFlux.AverageSymmetric | fipy/variables/roeVariable.py:74 | `A` is symmetric in `coeffDown` and `coeffUp` |
| RoeFlux.SwapExchangesRoles | fipy/variables/roeVariable.py:57-89 | exchanging `id1` and `id2` leaves `A` and `Abar` unchanged, and the value becomes `[(coeffUp + Abar)/2, (coeffDown − Abar)/2]` |
| RoeFlux.SwapShiftsSlotsByAbar | fipy/variables/roeVariable.py:88-89 | after exchanging `id1` and `id2`, the new slot 0 minus the old slot 1 is `Abar`, the new slot 1 minus the old slot 0 is `−Abar`, and the slot sum is unchanged |
| RoeFlux.AbarOnNonNegativeFace | fipy/variables/roeVariable.py:79-89 | on a face whose eigenvalues are all ≥ 0 (exact decomposition and inverse), `Abar == A`, slot 0 is `(coeffDown + A)/2` and slot 1 is `(coeffUp − A)/2` |
| RoeFlux.AbarOnNonPositiveFace | fipy/variables/roeVariable.py:79-89 | on a face whose eigenvalues are all ≤ 0, `Abar == −A`, slot 0 is `(coeffDown − A)/2` and slot 1 is `(coeffUp + A)/2` |
| EigenSplit.SortedEigenPairs | fipy/variables/roeVariable.py:80-81 | after the reorder the eigenvalues ascend, and the `k`-th eigenvalue and `k`-th column of `R` come from one and the same original position |
| EigenSplit.ReorderKeepsDecomposition | fipy/variables/roeVariable.py:79-81 | reordering eigenvalues and eigenvectors by one permutation keeps `A·R = R·diag(λ)` |
| EigenSplit.SplitOfNonNegative | fipy/variables/roeVariable.py:79-84 | `R·diag(abs(λ))·R⁻¹ == A` when all eigenvalues are ≥ 0 |
| EigenSplit.SplitOfNonPositive | fipy/variables/roeVariable.py:79-84 | `R·diag(abs(λ))·R⁻¹ == −A` when all eigenvalues are ≤ 0 |
| EigenSplit.InverseOfReordered | fipy/variables/roeVariable.py:81-83 | a right inverse of `R[:, p]` equals the inverse of `R` with its rows permuted by `p` |
| EigenSplit.SplitIgnoresOrder | fipy/variables/roeVariable.py:80-84 | with an exact inverse, the split matrix of eigenpairs reordered by any permutation equals the split matrix of the unordered eigenpairs |
| EigenSplit.FaceSplitIgnoresSort | fipy/variables/roeVariable.py:79-84 | a face's `Abar` equals the split matrix of the solver's unsorted eigenpairs, so the tie order of `argsort` does not matter |
| Permutations.Argsort | fipy/variables/roeVariable.py:80 | `argsort(eigenvalues)` is a permutation of the indices that orders the values ascending |
| Permutations.PermuteValuesSorted | fipy/variables/roeVariable.py:81 | `eigenvalues[argsort]` is a rearrangement of the same length in ascending order |
| Permutations.SumPermuted | fipy/variables/roeVariable.py:84 | a sum over the indices visited in permuted order equals the plain sum, which is why the inner index of `dot` may be reordered |
| RoeFlux.Project | fipy/variables/roeVariable.py:57-58 | `(take(coeff, ids, axis=-1) * projections[:, newaxis, newaxis]).sum(0)` has shape `(nequ, nequ, len(ids))`; its entries are the spatial sums that `ProjectIsLocal` shows depend only on the face's own cell and projections |
| RoeFlux.CoeffDown | fipy/variables/roeVariable.py:57 | `coeffDown`, gathered from the down cells `id1`, has shape `(nequ, nequ, numFaces)` |
| RoeFlux.CoeffUp | fipy/variables/roeVariable.py:58 | `coeffUp`, gathered from the up cells `id2`, has shape `(nequ, nequ, numFaces)` |
| RoeFlux.Average | fipy/variables/roeVariable.py:74 | `A = (coeffUp + coeffDown) / 2` keeps the shape `(nequ, nequ, numFaces)` of its operands |
| RoeFlux.FaceAverage | fipy/variables/roeVariable.py:74 | the averaged `A` of a coefficient on a mesh has shape `(nequ, nequ, numFaces)` |
| RoeFlux.FaceMatrix | fipy/variables/roeVariable.py:79 | `A[..., ifac]` is an `nequ`-by-`nequ` matrix whose entry `(i, j)` is `A[i][j][ifac]` |
| RoeFlux.SplitAll | fipy/variables/roeVariable.py:77-84 | `Abar` built face by face has the shape `(nequ, nequ, numFaces)` of `A` |
| RoeFlux.FaceAbar | fipy/variables/roeVariable.py:77-84 | `Abar` of a coefficient on a mesh has shape `(nequ, nequ, numFaces)` |
| RoeFlux.DownSlot | fipy/variables/roeVariable.py:88 | `(coeffDown + Abar) / 2` has shape `(nequ, nequ, numFaces)` |
| RoeFlux.UpSlot | fipy/variables/roeVariable.py:89 | `(coeffUp - Abar) / 2` has shape `(nequ, nequ, numFaces)` |
| EigenSplit.PermuteColumns | fipy/variables/roeVariable.py:81 | `R[:, argsort]` is `n`-by-`n` with column `k` equal to column `argsort[k]` of `R` |
| EigenSplit.Reorder | fipy/variables/roeVariable.py:81 | `eigenvalues[p], R[:, p]` keeps `n` eigenvalues and an `n`-by-`n` vector matrix |
| EigenSplit.SortedEigen | fipy/variables/roeVariable.py:79-81 | the decomposition reordered by `argsort` of its eigenvalues keeps its shape; `SortedEigenPairs` gives its order and pairing |
| EigenSplit.SplitMatrix | fipy/variables/roeVariable.py:84 | `dot(dot(R, abs(eigenvalues) * identity(n)), Rinv)` is an `n`-by-`n` matrix |
| EigenSplit.FaceSplit | fipy/variables/roeVariable.py:79-84 | one face's `Abar` is an `n`-by-`n` matrix; `SplitOfNonNegative`, `SplitOfNonPositive` and `FaceSplitIgnoresSort` give its value |
| Permutations.PermuteValues | fipy/variables/roeVariable.py:81 | `eigenvalues[argsort]` has one entry per index of `argsort`, entry `k` being `eigenvalues[argsort[k]]` |
| LinearAlgebra.Dot | fipy/variables/roeVariable.py:82-84 | `DOT` of two `n`-by-`n` matrices is an `n`-by-`n` matrix; `DotAssoc`, `DotIdentityRight` and `DotDiagRight` give its algebra |
| LinearAlgebra.Identity | fipy/variables/roeVariable.py:84 | `identity(n)` has ones on the diagonal and zeros elsewhere |
| LinearAlgebra.Abs | fipy/variables/roeVariable.py:84 | `abs(eigenvalues)` has the same length, and each entry is non-negative and equal to the eigenvalue or its negation |
| LinearAlgebra.Diag | fipy/variables/roeVariable.py:84 | `abs(eigenvalues) * identity(n)` has the values on the diagonal and zeros elsewhere |
| LinearAlgebra.DotDiagRight | fipy/variables/roeVariable.py:84 | `dot(R, diag(v))` scales column `j` of `R` by `v[j]` |
| LinearAlgebra.DotAssoc | fipy/variables/roeVariable.py:84 | `dot(dot(R, D), Rinv) == dot(R, dot(D, Rinv))` |
| LinearAlgebra.DotIdentityRight | fipy/variables/roeVariable.py:84 | multiplying by `identity(n)` on the right is the identity |

## Left out

- The internals of `numpy.linalg.eig` and `numpy.linalg.inv` are not modelled. They are parameters, with only their output shapes required globally.
- `inv` raising `LinAlgError` on a singular `R` is not modelled, and neither are defective matrices. Instead, `SplitOfNonNegative` and `SplitOfNonPositive` assume a right inverse of the sorted `R`. `SplitIgnoresOrder` and `FaceSplitIgnoresSort` assume a two-sided inverse of the solver's unsorted `R` and a right inverse of the sorted `R`.
- Complex eigenvalues are not modelled. The eigenvalues are real numbers.
- Floating point is not modelled. Arithmetic is exact over `real`, so the slot-sum identity holds exactly only in this model.
- The `FaceVariable` caching these calls plug into is not modelled: `_requires` dependency tracking, `cached=True` and value invalidation. That code is not part of this model. The constructor only records the flag and the two requirements.
- Numpy's shape errors, which arise when `coeff` does not fit the mesh, are not modelled. `CalcValue` requires `coeff` of shape `(dim, nequ, nequ, numCells)` and a consistent mesh.
- Permutations.Argsort: it is stable, whereas numpy's default sort has an unspecified tie order. `EigenSplit.FaceSplitIgnoresSort` shows that `Abar` does not depend on which ascending order is chosen, given an exact inverse.
- The values of `var` are carried in `CellVariable` but never read. The lines of the source that would read them are commented out and are not modelled.
- `self.mesh._adjacentCellIDs` and `var.mesh._orientedAreaProjections` are fields of the `Mesh` datatype. How a mesh computes them is not part of this model.

## Findings

| source | as written | input that shows it | evidently intended | confidence | as-written member | corrected member |
|---|---|---|---|---|---|---|
| fipy/variables/roeVariable.py:43 | the element shape is declared as `(2,) + var.shape[:-1]` | a coupled variable with `var.shape == (nequ, numCells)` gives element shape `(2, nequ)`, while `_calcValue` returns `(2, nequ, nequ)` per face (lines 86-87) | `(2,) + var.shape[:-1] + var.shape[:-1]`, the element shape of the computed value | low, not executed | RoeVariables.DeclaredShapeMismatch | RoeVariables.ElementShape |
