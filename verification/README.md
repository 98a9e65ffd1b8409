# BOUT++ coordinates: metric, Jacobian, geometry and guard-cell extrapolation

This project models the numerical core of BOUT++'s `Coordinates` class
(`src/mesh/coordinates.cxx`) on 2D fields, and proves properties of it.
The class holds the metric of a curvilinear coordinate system on the local
grid of one processor. The model covers:

- `calcCovariant` and `calcContravariant`: the pointwise inversion of the
  symmetric 3x3 metric, with the first singular point reported.
- `jacobian`: `J = 1/sqrt(det g^ij)` and `Bxy = sqrt(g_22)/J`, after four
  checks in the source's order.
- `geometry`: the nine input checks in the source's order, the 18 Christoffel
  symbols, the contractions `G1..G3`, and `d1_dx` / `d1_dy`.
- `interpolateAndExtrapolate`:
  - the staggered boundary point (`extrap_start`) and the 4-point midpoint;
  - cubic extrapolation or copying into the guard cells of every boundary
    region, and its two errors;
  - re-extrapolation at branch cuts;
  - the NaN corner blocks.
- The branch-cut correction of `zShift` by `ShiftAngle`.
- The index bookkeeping and entry checks of `interpXLOWToXYCorner`.
- The location rules and arithmetic of `DDX`, `DDY`, `DDZ` and the 2D
  `Grad_par`.

Modelling choices:

- Numbers are exact reals. A cell is `Val(r)` or `NaN`; NaN stands for every
  non-finite value. A field is a sequence of columns indexed `(x, y)`.
  Reading outside the field gives NaN, and writing outside it is a no-op.
- `sqrt` is a parameter that obeys the square-root law on non-negative reals.
- The index derivatives (`indexDDX`, `DDY(g_ij)`, ...) are inputs at the
  point. So are the interpolated and communicated field that
  `interpolateAndExtrapolate` starts from, and the mesh: its index ranges,
  boundary regions and branch-cut columns.
- A thrown `BoutException`, a `return 1` and a failed `ASSERT1` are all the
  `Err` side of a `Result`, each with its own error value.

## Model

| member | source | states |
|---|---|---|
| Metric.Invert | src/mesh/coordinates.cxx:825-836 | the metric is singular exactly when its determinant is zero; otherwise the result and the input are mutual inverses: all six products the inversion diagnostics measure (lines 842-852) are exactly 1 on the diagonal and 0 off it, both ways round |
| Metric.InvertTwice | src/mesh/coordinates.cxx:790-914 | inverting the inverse of a non-singular metric gives back the original metric exactly |
| Metric.DetOfInverse | src/mesh/coordinates.cxx:825-836 | the inverse has the reciprocal determinant, so it is never singular |
| Inversion.Inverted | src/mesh/coordinates.cxx:815-836 | one grid point's inversion: NaN stays NaN; a finite point becomes the mutual inverse of the input |
| Inversion.InvertedTwice | src/mesh/coordinates.cxx:790-914 | an inverted point is not singular, and inverting it again restores the original point |
| Inversion.InvertMetric | src/mesh/coordinates.cxx:790-855 | succeeds exactly when no grid point is singular, and then every point holds the inverse of the input's point; a failure reports a singular point, and every point before it in x-outer, y-inner scan order is non-singular |
| Inversion.InvertBack | src/mesh/coordinates.cxx:857-914 | `calcCovariant` then `calcContravariant`: the second inversion never fails, and the result equals the original metric at every grid point |
| Jacobians.JacobianCell | src/mesh/coordinates.cxx:927 | `J` is finite exactly when the determinant is positive; then `J > 0` and `J^2 * det g^ij = 1` |
| Jacobians.BxyCell | src/mesh/coordinates.cxx:940 | `Bxy` is finite exactly when `g_22 >= 0` and `J` is a non-zero number; then `Bxy^2 J^2 = g_22`, and `Bxy >= 0` when `J > 0` |
| Jacobians.TooSmallIffLargeDeterminant | src/mesh/coordinates.cxx:933-935 | the `|J| < 1e-10` check fails exactly when `det g^ij > 1e20` |
| Jacobians.IdentityJacobian | src/mesh/coordinates.cxx:916-943 | the identity metric gives determinant 1, `J = 1` and, with `g_22 = 1`, `Bxy = 1` |
| Jacobians.JacobianSquaredIsCovariantDeterminant | src/mesh/coordinates.cxx:917-927 | `J^2` is the determinant of the covariant metric, which is the inverse of `g^ij` |
| Jacobians.NotFiniteGate | src/mesh/coordinates.cxx:930-932 | some interior `J` is non-finite exactly when some interior metric point is NaN or has a determinant that is not positive |
| Jacobians.TooSmallGate | src/mesh/coordinates.cxx:933-935 | once every interior `J` is finite, the small-`J` check fails exactly when some interior determinant exceeds `1e20`; when none does, every interior `J` is at least `1e-10` |
| Jacobians.Jacobian | src/mesh/coordinates.cxx:916-943 | the four errors arise exactly when, in order: a negative determinant, a non-finite `J`, a `J` below `1e-10`, or a negative `g_22` is found somewhere in the interior; on success every interior `J` is finite, positive and at least `1e-10`, and satisfies `J^2 det = 1` and `Bxy^2 J^2 = g_22` |
| Geometry.CheckGeometry | src/mesh/coordinates.cxx:636-663 | the result is the first failing check in the source's order, out of nine: spacings below `1e-8` in magnitude (dx, dy, dz), then non-finite or non-positive diagonal and non-finite off-diagonal entries of `g^ij` and then of `g_ij` |
| Geometry.AcceptedInputs | src/mesh/coordinates.cxx:636-663 | after the checks pass, every interior point has finite metrics with a positive diagonal, both contravariant and covariant, and spacings not below `1e-8` in magnitude |
| Christoffels.Christoffel | src/mesh/coordinates.cxx:670-727 | every one of the 18 symbols (with `G2_22` corrected) equals the textbook `G^k_ij = 1/2 g^kl (d_i g_lj + d_j g_li - d_l g_ij)` |
| Christoffels.ReferenceSymmetric | src/mesh/coordinates.cxx:667-669 | the textbook symbol is symmetric in its lower indices, so 18 values determine all 27 |
| Christoffels.AsWrittenDiffersOnlyInG222 | src/mesh/coordinates.cxx:688-689 | the source's symbols agree with the textbook ones everywhere except `G2_22`, which is off by `g^23 (DDY(g^23) - DDY(g_23))` |
| Christoffels.FlatSymbols | src/mesh/coordinates.cxx:666-727 | with no variation in the metric every symbol vanishes |
| Christoffels.G222Counterexample | src/mesh/coordinates.cxx:688-689 | on a sheared metric the source's `G2_22` is `40/27`, where the textbook value is `-2/3` |
| Contractions.ContractionIsContractedSymbols | src/mesh/coordinates.cxx:728-730 | when the derivatives of `J` and `g^ij` are those of the root determinant and the inverse of `g_ij` (`d J = J/2 g^ab d g_ab`, `d g^ij = -g^ia g^jb d g_ab`), `G^i = (d_l(J g^il))/J` equals `-g^jk G^i_jk`, the contraction of the textbook Christoffel symbols |
| Geometry.InverseSpacingSlopeIsProductRule | src/mesh/coordinates.cxx:776-784 | a value `q` is the stored `d1_dx` exactly when it solves the product rule for `dx * (1/dx) = 1`, `d2x/dx + dx q = 0`; likewise `d1_dy` |
| Extrapolation.ExtrapStart | src/mesh/coordinates.cxx:49-53 | `extrap_start` is 1 exactly for an x-staggered field on an outer x-boundary, or a y-staggered field on an upper y-boundary, and 0 otherwise |
| Extrapolation.LineError | src/mesh/coordinates.cxx:66-79 | an error arises exactly when the domain has enough points for cubic extrapolation but this processor has a single cell and a one-cell-wide boundary in that direction; the x error takes precedence |
| Extrapolation.InterpolateStart | src/mesh/coordinates.cxx:57-63 | when `extrap_start` is 1 the boundary point gets the 4-point midpoint of the source field, and nothing else changes |
| Cells.MidpointExactForCubics | src/mesh/coordinates.cxx:57-63 | the 4-point midpoint `(9(a+b) - c - d)/16` reproduces every cubic exactly |
| Extrapolation.ExtrapolateLine | src/mesh/coordinates.cxx:81-85 | each guard cell of the line, in order, becomes `3 r[i-1] - 3 r[i-2] + r[i-3]` of the cells already written; only the line's cells change |
| Cells.CubicContinuesQuadratic | src/mesh/coordinates.cxx:81-85 | one cubic-extrapolation step continues any quadratic exactly |
| Extrapolation.QuadraticContinues | src/mesh/coordinates.cxx:81-85 | a whole extrapolated line continues the quadratic through its last three interior cells into every guard cell |
| Extrapolation.CopyLine | src/mesh/coordinates.cxx:86-91 | with too few points, every guard cell of the line takes the value of the last interior cell, and only the line's cells change |
| Extrapolation.FillLine | src/mesh/coordinates.cxx:47-91 | one boundary point: fails exactly on the local-size errors; otherwise only its line changes, the staggered point is interpolated, and the guard cells are extrapolated cubically or copied |
| Extrapolation.FillBoundary | src/mesh/coordinates.cxx:47-91 | one boundary region fails exactly when it has a point and its line raises an error; otherwise only cells on its lines change, and with distinct lines every line is filled as `FillLine` states |
| GuardCells.FirstError | src/mesh/coordinates.cxx:47 | no error exactly when no region raises one; otherwise the error is that of the first region that raises one |
| GuardCells.FillBoundaries | src/mesh/coordinates.cxx:47-91 | the loop over the regions fails with the first region's error; otherwise only cells on some region's lines change |
| GuardCells.SetCorners | src/mesh/coordinates.cxx:121-129 | exactly the cells within `xstart` of an x-end and `ystart` of a y-end become NaN; every other cell keeps its value |
| GuardCells.RegionsMissInterior | src/mesh/coordinates.cxx:47-91 | regions whose points lie outside the interior on their own side never write an interior cell |
| GuardCells.Assemble | src/mesh/coordinates.cxx:47-131 | the three stages for given branch-cut rows: fails exactly when some region raises an error, with the first one's error; on success the corners are NaN and only boundary lines, cut cells (when `extrap_at_branch_cut`) and corners change |
| GuardCells.InterpolateAndExtrapolate | src/mesh/coordinates.cxx:27-131 | with the source's branch-cut rows: the error and frame of `Assemble`; on success every non-corner interior cell keeps its interpolated value except row `yend` of an upper-cut column when `extrap_at_branch_cut` |
| GuardCells.InterpolateAndExtrapolateCorrected | src/mesh/coordinates.cxx:27-131 | with the corrected branch-cut rows: the same error and frame, and every non-corner interior cell keeps its interpolated value |
| BranchCuts.AsWrittenRows | src/mesh/coordinates.cxx:98-116 | the source's row bounds: the lower loop stops above row 0; above, the midpoint is at `yend` and the cubic starts at `yend`, or at `yend + 1` for `CELL_YLOW` |
| BranchCuts.CorrectedRows | src/mesh/coordinates.cxx:159-170 | the bounds mirrored from the lower side: down to row 0, and above only rows past `yend` |
| BranchCuts.CutColumn | src/mesh/coordinates.cxx:100-118 | one column: only its cut rows change; below a lower cut each row is the cubic continuation of the three above it; above an upper cut the `CELL_YLOW` midpoint is interpolated and each row is the cubic continuation of the three below it |
| BranchCuts.BranchCut | src/mesh/coordinates.cxx:93-119 | every column `xstart..xend` is cut as `CutColumn` states, and no other cell changes |
| BranchCuts.CorrectedCutKeepsInterior | src/mesh/coordinates.cxx:93-119 | with the corrected bounds no interior cell is rewritten |
| BranchCuts.CorrectedReachesRowZero | src/mesh/coordinates.cxx:102-104 | with the corrected bounds every lower guard row of a lower-cut column, row 0 included, is rewritten |
| BranchCuts.AsWrittenSkipsRowZero | src/mesh/coordinates.cxx:102-104 | as written, with two guard rows, row 0 keeps its communicated value 1 while row 1 becomes 0, so row 0 is not the cubic continuation of the rows above it |
| BranchCuts.AsWrittenCutInterior | src/mesh/coordinates.cxx:98-116 | as written, the only interior cells the branch cut rewrites are those of row `yend` in upper-cut columns |
| BranchCuts.AsWrittenYLowExtrapolatesFace | src/mesh/coordinates.cxx:98-116 | as written, for a `CELL_YLOW` field the boundary face `yend + 1` of an upper-cut column is cubically extrapolated (to 0) where the 4-point midpoint of the source field at that face is 1, the value the corrected rows, or an upper boundary region (lines 49-63), would give it |
| BranchCuts.CorrectedYLowInterpolatesFace | src/mesh/coordinates.cxx:98-116 | with the corrected rows, a `CELL_YLOW` upper-cut column gets the 4-point midpoint at the face `yend + 1` and keeps row `yend` |
| BranchCuts.AsWrittenOverwritesInterior | src/mesh/coordinates.cxx:98-116 | as written, for a cell-centred field the last interior row `yend` of an upper-cut column is overwritten by extrapolation (1 becomes 0) |
| ZShifts.Shifted | src/mesh/coordinates.cxx:368-374 | a finite `zShift` moves by exactly the added amount; NaN stays NaN |
| ZShifts.CorrectZShift | src/mesh/coordinates.cxx:364-378 | without a `ShiftAngle` nothing changes; otherwise only the guard rows of cut columns change, by `-ShiftAngle[x]` below a lower cut and `+ShiftAngle[x]` above an upper one, and interior rows never change |
| ZShifts.CorrectionUndone | src/mesh/coordinates.cxx:433-447 | correcting with the negated angle restores the original `zShift` exactly |
| Corners.CornerCheck | src/mesh/coordinates.cxx:140-145 | succeeds exactly with two or more guard cells in x and y and an input at `CELL_XLOW`; the guard-cell check comes first, so too few guard cells is reported whatever the location, and a location other than `CELL_XLOW` is reported as a mismatch only when the guard cells suffice |
| Corners.ShiftThenSplice | src/mesh/coordinates.cxx:151-158 | moving the outer x-boundary cells one column inwards and back out again (lines 186-195) restores the field exactly |
| Operators.GradParStricter | src/mesh/coordinates.cxx:977 | the 2D `Grad_par` location rule implies the `DDY` rule, and is strictly stronger: a default request for a field at another location passes `DDY` but fails `Grad_par` |
| Operators.SpacedDerivative | src/mesh/coordinates.cxx:950-958 | fails exactly on a location mismatch; otherwise a cell is finite exactly when the index derivative and the spacing are finite and the spacing is non-zero, and then its value times the spacing is the index derivative |
| Operators.DDZ | src/mesh/coordinates.cxx:960-967 | fails exactly on a location mismatch; otherwise the result is the zero field at the coordinates' location |
| Operators.GradPar | src/mesh/coordinates.cxx:974-980 | fails exactly on the stricter location mismatch; otherwise a cell is finite exactly when the derivative is finite and `g_22 > 0`, and then its value times `sqrt(g_22)` is the derivative |

## Left out

- `invert3x3` is not part of this model. Metric.Invert stands in for it with
  an exact `det == 0` test in place of a floating-point tolerance.
- The inversion diagnostics (`maxerr`, lines 842-852) only print, so they are
  not modelled. The model proves instead that the products they measure are
  exact.
- The constructors' grid reads and defaults, `interp_to`, `communicate`,
  `setLocation`, output and `TRACE` are I/O or other code. Their results are
  inputs to the model.
- The derivative engine (`indexDDX`, `indexDDY`, the `DDX(g_ij)` terms of
  `geometry`) is an input at each point.
- The fallback `indexDDX(1/dx)` used when `d2x` is absent is left out for
  the same reason.
- `sqrt` is an oracle obeying the square-root law. Floating-point rounding,
  overflow, and `finite()` on anything but NaN are not modelled.
- The y-guard extrapolation of `temp_for_xguards` in `interpXLOWToXYCorner`
  (lines 159-170) and that function's calls in the middle are not modelled.
  The model covers only its entry checks and its shift/splice bookkeeping.
- The other operators are not modelled: `Vpar_Grad_par`, `Div_par`,
  `Grad2_par2`, `Delp2`, `Laplace_par`, `Laplace`, and the 3D variants.
- Extrapolation.FillBoundary: the line contents are stated only when a
  region's lines are pairwise distinct. When two lines overlap, only the
  frame and the error are stated.
- GuardCells.FillBoundaries: states the error and the frame, not the
  contents of each region's lines. Those are stated per region by
  Extrapolation.FillBoundary.
- GuardCells.InterpolateAndExtrapolate: states the error, the frame and
  the corners, not the extrapolated values. Those are stated by
  Extrapolation.FillBoundary and BranchCuts.BranchCut. The same holds for
  its corrected twin, GuardCells.InterpolateAndExtrapolateCorrected.
- Contractions.ContractionIsContractedSymbols: the derivatives of `J` and
  `g^ij` are written through those of `g_ij`, by the rules the exact inverse
  and root determinant obey. The source takes them with `DDX`/`DDY`/`DDZ`,
  which are not modelled, so they are not computed here.
- BranchCuts.CutColumn: the cubic property of the lower rows holds only
  when the upper rewrite of the same column starts above `ystart + 2`.
  Otherwise the upper loop may overwrite the rows the lower loop read.
- ZShifts.CorrectZShift: requires `ShiftAngle` to have an entry for every cut
  column it reads. The source's out-of-range `ShiftAngle[x]` is undefined
  behaviour.
- The `ASSERT1` checks are modelled as errors, although release builds
  compile them out.
- `DDZ`'s second assertion (`f.getMesh() == localmesh`) is not modelled,
  because the model has a single mesh.

## Findings

| source | as written | input that shows it | evidently intended | confidence | as-written member | corrected member |
|---|---|---|---|---|---|---|
| src/mesh/coordinates.cxx:688-689 | `G2_22` uses `DDY(g23)`, the derivative of the contravariant `g^23` | the sheared metric `g_23 = y` at `y = 1/2`: `G2_22 = 40/27` where the textbook value is `-2/3` | `DDY(g_23)`, as in every other symbol | high; not executed | Christoffels.G222Counterexample | Christoffels.Christoffel |
| src/mesh/coordinates.cxx:102-104 | the lower branch-cut loop runs `j > 0`, so guard row 0 is never re-extrapolated and keeps its communicated value | `ystart = 2`, rows 2-4 equal 0, row 0 communicated as 1: row 1 becomes 0 but row 0 stays 1 | `j >= 0`, as the same extrapolation in `interpXLOWToXYCorner` (line 164) writes it | medium; not executed | BranchCuts.AsWrittenSkipsRowZero | BranchCuts.CorrectedReachesRowZero |
| src/mesh/coordinates.cxx:98 | `firstjup = yend` for non-`CELL_YLOW` fields, so the upper branch-cut loop rewrites the last interior row | a cell-centred field with rows `yend-3 .. yend-1` equal 0 and row `yend` equal 1: row `yend` becomes 0 | start at `yend + 1`, mirroring the lower side, which starts at `ystart - 1`, and line 168 | medium; not executed | BranchCuts.AsWrittenOverwritesInterior | GuardCells.InterpolateAndExtrapolateCorrected, BranchCuts.CorrectedCutKeepsInterior |
| src/mesh/coordinates.cxx:108-115 | for `CELL_YLOW` the midpoint is written at `yend`, the interior side of the face, and the cubic loop starts at `yend + 1`, so the face `yend + 1`, which holds the communicated value, is extrapolated rather than interpolated | source field 0 at rows `yend-2 .. yend+1` and -16 at `yend+2`, result 0 at rows `yend-2` and `yend-1`: the face `yend + 1` becomes 0 where the 4-point midpoint of the source field at that face is 1 | the midpoint at the boundary face `yend + 1`, as an upper boundary region would put it (lines 49-63), and the cubic from `yend + 2` | low; not executed | BranchCuts.AsWrittenYLowExtrapolatesFace | BranchCuts.CorrectedYLowInterpolatesFace |
