/** Re-extrapolation of the y-guard cells at branch cuts on core and
    private-flux field lines, `extrap_at_branch_cut` in
    `interpolateAndExtrapolate`. The rows it touches are a parameter, so that
    the rows the source uses and the rows it evidently means are both
    modelled. */
module BranchCuts {
  import opened Cells
  import opened Meshes
  import opened Extrapolation

  /** The rows of a cut column that are rewritten: below the domain, rows
      `ystart - 1` down to `lowest`; above it, the staggered point `midRow`
      (for `CELL_YLOW`), then rows `firstUp` .. `LocalNy - 1`. */
  datatype CutRows = CutRows(lowest: int, midRow: int, firstUp: int)

  /** The loop bounds as the source writes them: `j > 0` below, and
      `firstjup = yend + 1` for `CELL_YLOW`, `yend` otherwise, above. */
  function AsWrittenRows(mesh: Mesh, loc: Location): (rows: CutRows)
    ensures rows.lowest == 1 && rows.midRow == mesh.yend
    ensures rows.firstUp == if loc == YLow then mesh.yend + 1 else mesh.yend
  {
    CutRows(1, mesh.yend, if loc == YLow then mesh.yend + 1 else mesh.yend)
  }

  /** The bounds mirrored from the lower side: every guard row down to 0,
      and above only rows past `yend`. */
  function CorrectedRows(mesh: Mesh, loc: Location): (rows: CutRows)
    ensures rows.lowest == 0 && rows.midRow == mesh.yend + 1
    ensures rows.firstUp == if loc == YLow then mesh.yend + 2 else mesh.yend + 1
  {
    CutRows(0, mesh.yend + 1, if loc == YLow then mesh.yend + 2 else mesh.yend + 1)
  }

  /** The lines a cut column is extrapolated along: downwards from
      `ystart - 1` and upwards from the first upper row. */
  function Down(): (b: Boundary)
    ensures Unit(b) && b.outX == 0 && b.outY == -1
  {
    Boundary(0, -1, 0, [])
  }

  function Up(): (b: Boundary)
    ensures Unit(b) && b.outX == 0 && b.outY == 1
  {
    Boundary(0, 1, 0, [])
  }

  /** The first row above the domain that is rewritten. */
  function UpperStart(loc: Location, rows: CutRows): int {
    if loc == YLow then rows.midRow else rows.firstUp
  }

  /** `(a, v)` is rewritten when column `u` is processed. */
  predicate ColumnCell(mesh: Mesh, loc: Location, rows: CutRows, u: int, a: int, v: int) {
    && a == u
    && (|| (u in mesh.cutDown && rows.lowest <= v <= mesh.ystart - 1)
        || (u in mesh.cutUp && ((loc == YLow && v == rows.midRow) || rows.firstUp <= v < mesh.localNy)))
  }

  /** `(u, v)` is rewritten by the branch-cut step. */
  predicate CutCell(mesh: Mesh, loc: Location, rows: CutRows, u: int, v: int) {
    mesh.xstart <= u <= mesh.xend && ColumnCell(mesh, loc, rows, u, u, v)
  }

  /** What processing column `u` leaves in `out`: below a lower cut each
      rewritten row is the cubic continuation of the three above it (unless
      the upper rewrite reaches down into the rows it reads); above an upper
      cut the staggered point is interpolated from the source field and each
      row is the cubic continuation of the three below it. */
  ghost predicate ColumnCut(mesh: Mesh, f: Field, before: Field, out: Field, loc: Location, rows: CutRows, u: int) {
    && (u in mesh.cutDown && (u !in mesh.cutUp || mesh.ystart + 2 < UpperStart(loc, rows)) ==>
          CubicFrom(out, Down(), u, mesh.ystart - 1, 0, mesh.ystart - rows.lowest))
    && (u in mesh.cutUp && loc == YLow && InRange(before, u, rows.midRow) ==>
          Get(out, u, rows.midRow) == BoundaryMidpoint(f, Up(), u, rows.midRow))
    && (u in mesh.cutUp ==> CubicFrom(out, Up(), u, rows.firstUp, 0, mesh.localNy - rows.firstUp))
  }

  lemma DownSegment(y0: int, n: int, a: int, u: int, v: int)
    requires OnSegment(Down(), u, y0, 0, n, a, v)
    ensures a == u && y0 - n < v <= y0
  {
    var i :| 0 <= i < n && Along(Down(), u, y0, i) == (a, v);
  }

  lemma UpSegment(y0: int, n: int, a: int, u: int, v: int)
    requires OnSegment(Up(), u, y0, 0, n, a, v)
    ensures a == u && y0 <= v < y0 + n
  {
    var i :| 0 <= i < n && Along(Up(), u, y0, i) == (a, v);
  }

  /** The lower half of one column: rows `ystart - 1` down to `lowest`. */
  method CutLower(mesh: Mesh, cur: Field, rows: CutRows, u: int) returns (out: Field)
    ensures SameShape(out, cur)
    ensures forall a, v :: !(a == u && u in mesh.cutDown && rows.lowest <= v <= mesh.ystart - 1) ==>
      Get(out, a, v) == Get(cur, a, v)
    ensures u in mesh.cutDown ==> CubicFrom(out, Down(), u, mesh.ystart - 1, 0, mesh.ystart - rows.lowest)
  {
    out := cur;
    if u in mesh.cutDown {
      var y0, n := mesh.ystart - 1, mesh.ystart - rows.lowest;
      out := ExtrapolateLine(out, Down(), u, y0, 0, n);
      forall a, v | OnSegment(Down(), u, y0, 0, n, a, v)
        ensures a == u && rows.lowest <= v <= mesh.ystart - 1
      {
        DownSegment(y0, n, a, u, v);
      }
    }
  }

  /** The upper half of one column: the staggered point, then rows
      `firstUp` .. `LocalNy - 1`. */
  method CutUpper(mesh: Mesh, f: Field, cur: Field, loc: Location, rows: CutRows, u: int) returns (out: Field)
    requires loc == YLow ==> rows.midRow < rows.firstUp
    ensures SameShape(out, cur)
    ensures forall a, v :: !(a == u && u in mesh.cutUp && ((loc == YLow && v == rows.midRow) || rows.firstUp <= v < mesh.localNy)) ==>
      Get(out, a, v) == Get(cur, a, v)
    ensures u in mesh.cutUp && loc == YLow && InRange(cur, u, rows.midRow) ==>
      Get(out, u, rows.midRow) == BoundaryMidpoint(f, Up(), u, rows.midRow)
    ensures u in mesh.cutUp ==> CubicFrom(out, Up(), u, rows.firstUp, 0, mesh.localNy - rows.firstUp)
  {
    out := cur;
    if u in mesh.cutUp {
      if loc == YLow {
        out := Set(out, u, rows.midRow, BoundaryMidpoint(f, Up(), u, rows.midRow));
      }
      ghost var mid := out;
      var y0, n := rows.firstUp, mesh.localNy - rows.firstUp;
      out := ExtrapolateLine(out, Up(), u, y0, 0, n);
      forall a, v | OnSegment(Up(), u, y0, 0, n, a, v)
        ensures a == u && rows.firstUp <= v < mesh.localNy
      {
        UpSegment(y0, n, a, u, v);
      }
      if loc == YLow {
        assert Get(out, u, rows.midRow) == Get(mid, u, rows.midRow);
      }
    }
  }

  /** The upper rewrite leaves the cells the lower recurrence reads alone
      when it starts above row `ystart + 2`. */
  lemma LowerKept(mesh: Mesh, low: Field, out: Field, loc: Location, rows: CutRows, u: int)
    requires SameShape(out, low)
    requires forall a, v :: !(a == u && u in mesh.cutUp && ((loc == YLow && v == rows.midRow) || rows.firstUp <= v < mesh.localNy)) ==>
      Get(out, a, v) == Get(low, a, v)
    requires loc == YLow ==> rows.midRow < rows.firstUp
    requires mesh.ystart + 2 < UpperStart(loc, rows)
    requires CubicFrom(low, Down(), u, mesh.ystart - 1, 0, mesh.ystart - rows.lowest)
    ensures CubicFrom(out, Down(), u, mesh.ystart - 1, 0, mesh.ystart - rows.lowest)
  {
    var y0 := mesh.ystart - 1;
    forall k | -3 <= k < mesh.ystart - rows.lowest
      ensures GetAt(out, Along(Down(), u, y0, k)) == GetAt(low, Along(Down(), u, y0, k))
    {
      var v := y0 - k;
      assert Along(Down(), u, y0, k) == (u, v);
      assert v < UpperStart(loc, rows);
      assert !((loc == YLow && v == rows.midRow) || rows.firstUp <= v < mesh.localNy);
      assert Get(out, u, v) == Get(low, u, v);
    }
    CubicFromKeptOn(low, out, Down(), u, mesh.ystart - 1, 0, mesh.ystart - rows.lowest);
  }

  /** Processing column `u`: one iteration of the source's loop over
      `xstart .. xend`. */
  method CutColumn(mesh: Mesh, f: Field, cur: Field, loc: Location, rows: CutRows, u: int) returns (out: Field)
    requires loc == YLow ==> rows.midRow < rows.firstUp
    ensures SameShape(out, cur)
    ensures forall a, v :: !ColumnCell(mesh, loc, rows, u, a, v) ==> Get(out, a, v) == Get(cur, a, v)
    ensures ColumnCut(mesh, f, cur, out, loc, rows, u)
  {
    var low := CutLower(mesh, cur, rows, u);
    out := CutUpper(mesh, f, low, loc, rows, u);
    SameShapeInRange(low, cur);
    if u in mesh.cutDown && u in mesh.cutUp && mesh.ystart + 2 < UpperStart(loc, rows) {
      LowerKept(mesh, low, out, loc, rows, u);
    }
  }

  lemma ColumnCutKept(mesh: Mesh, f: Field, before: Field, before2: Field, out: Field, out2: Field,
                      loc: Location, rows: CutRows, u: int)
    requires SameShape(before, before2) && SameShape(out, out2) && AgreeOn(out, out2, Down(), u)
    requires ColumnCut(mesh, f, before, out, loc, rows, u)
    ensures ColumnCut(mesh, f, before2, out2, loc, rows, u)
  {
    SameShapeInRange(before, before2);
    assert Get(out2, u, rows.midRow) == Get(out, u, rows.midRow);
    if u in mesh.cutDown && (u !in mesh.cutUp || mesh.ystart + 2 < UpperStart(loc, rows)) {
      CubicFromKept(out, out2, Down(), u, mesh.ystart - 1, 0, mesh.ystart - rows.lowest);
    }
    if u in mesh.cutUp {
      assert AgreeOn(out, out2, Up(), u);
      CubicFromKept(out, out2, Up(), u, rows.firstUp, 0, mesh.localNy - rows.firstUp);
    }
  }

  /** The loop over the columns `xstart .. xend`. */
  method BranchCut(mesh: Mesh, f: Field, result: Field, loc: Location, rows: CutRows) returns (out: Field)
    requires loc == YLow ==> rows.midRow < rows.firstUp
    ensures SameShape(out, result)
    ensures forall u, v :: !CutCell(mesh, loc, rows, u, v) ==> Get(out, u, v) == Get(result, u, v)
    ensures forall u :: mesh.xstart <= u <= mesh.xend ==> ColumnCut(mesh, f, result, out, loc, rows, u)
  {
    out := result;
    var i := mesh.xstart;
    while i <= mesh.xend
      invariant mesh.xstart <= i <= Max(mesh.xstart, mesh.xend + 1)
      invariant SameShape(out, result)
      invariant forall u, v :: !(mesh.xstart <= u < i && ColumnCell(mesh, loc, rows, u, u, v)) ==>
        Get(out, u, v) == Get(result, u, v)
      invariant forall u :: mesh.xstart <= u < i ==> ColumnCut(mesh, f, result, out, loc, rows, u)
    {
      var next := CutColumn(mesh, f, out, loc, rows, i);
      forall u | mesh.xstart <= u < i + 1
        ensures ColumnCut(mesh, f, result, next, loc, rows, u)
      {
        if u < i {
          assert AgreeOn(out, next, Down(), u);
          ColumnCutKept(mesh, f, result, result, out, next, loc, rows, u);
        } else {
          assert AgreeOn(out, result, Down(), i);
          ColumnCutKept(mesh, f, out, result, next, next, loc, rows, i);
        }
      }
      out := next;
      i := i + 1;
    }
  }

  /** With the corrected bounds no interior cell is rewritten. */
  lemma CorrectedCutKeepsInterior(mesh: Mesh, loc: Location, u: int, v: int)
    requires Interior(mesh, u, v)
    ensures !CutCell(mesh, loc, CorrectedRows(mesh, loc), u, v)
  {
  }

  /** With the bounds as written, the only interior cells rewritten are in
      row `yend` of an upper-cut column. */
  lemma AsWrittenCutInterior(mesh: Mesh, loc: Location, u: int, v: int)
    requires Interior(mesh, u, v) && CutCell(mesh, loc, AsWrittenRows(mesh, loc), u, v)
    ensures u in mesh.cutUp && v == mesh.yend
  {
  }

  /** With the corrected bounds every lower guard row, row 0 included, of a
      lower-cut column is rewritten. */
  lemma CorrectedReachesRowZero(mesh: Mesh, loc: Location, u: int, v: int)
    requires mesh.xstart <= u <= mesh.xend && u in mesh.cutDown && 0 <= v < mesh.ystart
    ensures CutCell(mesh, loc, CorrectedRows(mesh, loc), u, v)
  {
  }

  /** As written, `j > 0` stops before row 0: with two guard rows, row 0 of
      a lower-cut column keeps its communicated value (1 here) although the
      row above it is extrapolated (to 0), so row 0 is not the cubic
      continuation of the rows above it. */
  lemma AsWrittenSkipsRowZero(mesh: Mesh, f: Field, before: Field, out: Field, loc: Location, u: int)
    requires mesh.ystart == 2 && mesh.xstart <= u <= mesh.xend && u in mesh.cutDown && u !in mesh.cutUp
    requires InRange(before, u, 4) && SameShape(out, before)
    requires forall a, v :: !CutCell(mesh, loc, AsWrittenRows(mesh, loc), a, v) ==> Get(out, a, v) == Get(before, a, v)
    requires ColumnCut(mesh, f, before, out, loc, AsWrittenRows(mesh, loc), u)
    requires Get(before, u, 0) == Val(1.0)
    requires Get(before, u, 2) == Val(0.0) && Get(before, u, 3) == Val(0.0) && Get(before, u, 4) == Val(0.0)
    ensures Get(out, u, 0) == Val(1.0) && Get(out, u, 1) == Val(0.0)
    ensures Get(out, u, 0) != Cubic(Get(out, u, 1), Get(out, u, 2), Get(out, u, 3))
  {
    var y0 := mesh.ystart - 1;
    assert !CutCell(mesh, loc, AsWrittenRows(mesh, loc), u, 0);
    assert !CutCell(mesh, loc, AsWrittenRows(mesh, loc), u, 2);
    assert !CutCell(mesh, loc, AsWrittenRows(mesh, loc), u, 3);
    assert !CutCell(mesh, loc, AsWrittenRows(mesh, loc), u, 4);
    assert Along(Down(), u, y0, 0) == (u, 1);
    assert InRange(out, u, 1);
  }

  /** As written, `firstjup = yend` for a cell-centred field: the last
      interior row of an upper-cut column is replaced by the cubic
      extrapolation of the three rows below it (1 becomes 0 here). */
  lemma AsWrittenOverwritesInterior(mesh: Mesh, f: Field, before: Field, out: Field, u: int)
    requires mesh.ystart + 3 <= mesh.yend < mesh.localNy && mesh.xstart <= u <= mesh.xend
    requires u in mesh.cutUp && u !in mesh.cutDown
    requires InRange(before, u, mesh.yend) && SameShape(out, before)
    requires forall a, v :: !CutCell(mesh, Centre, AsWrittenRows(mesh, Centre), a, v) ==> Get(out, a, v) == Get(before, a, v)
    requires ColumnCut(mesh, f, before, out, Centre, AsWrittenRows(mesh, Centre), u)
    requires Get(before, u, mesh.yend) == Val(1.0)
    requires Get(before, u, mesh.yend - 1) == Val(0.0) && Get(before, u, mesh.yend - 2) == Val(0.0)
    requires Get(before, u, mesh.yend - 3) == Val(0.0)
    ensures Interior(mesh, u, mesh.yend)
    ensures Get(out, u, mesh.yend) == Val(0.0) != Get(before, u, mesh.yend)
  {
    var y0 := mesh.yend;
    assert !CutCell(mesh, Centre, AsWrittenRows(mesh, Centre), u, y0 - 1);
    assert !CutCell(mesh, Centre, AsWrittenRows(mesh, Centre), u, y0 - 2);
    assert !CutCell(mesh, Centre, AsWrittenRows(mesh, Centre), u, y0 - 3);
    assert Along(Up(), u, y0, 0) == (u, y0);
    assert Along(Up(), u, y0, -1) == (u, y0 - 1);
    assert Along(Up(), u, y0, -2) == (u, y0 - 2);
    assert Along(Up(), u, y0, -3) == (u, y0 - 3);
    assert InRange(out, u, y0);
    assert GetAt(out, Along(Up(), u, y0, 0)) == NextCubic(out, Up(), u, y0, 0);
  }

  /** As written, a `CELL_YLOW` field gets its interpolated face at `yend`
      and row `yend + 1`, the first face beyond the domain, becomes the cubic
      continuation of the rows below (0 here), where the 4-point midpoint of
      the source field at that face, the value an upper boundary region
      would give it, is 1. */
  lemma AsWrittenYLowExtrapolatesFace(mesh: Mesh, f: Field, before: Field, out: Field, u: int)
    requires 2 <= mesh.yend && mesh.yend + 2 < mesh.localNy && mesh.xstart <= u <= mesh.xend
    requires u in mesh.cutUp && u !in mesh.cutDown
    requires InRange(before, u, mesh.yend + 1) && SameShape(out, before) && InRange(f, u, mesh.yend + 2)
    requires forall a, v :: !CutCell(mesh, YLow, AsWrittenRows(mesh, YLow), a, v) ==> Get(out, a, v) == Get(before, a, v)
    requires ColumnCut(mesh, f, before, out, YLow, AsWrittenRows(mesh, YLow), u)
    requires Get(f, u, mesh.yend - 2) == Get(f, u, mesh.yend - 1) == Val(0.0)
    requires Get(f, u, mesh.yend) == Get(f, u, mesh.yend + 1) == Val(0.0)
    requires Get(f, u, mesh.yend + 2) == Val(-16.0)
    requires Get(before, u, mesh.yend - 1) == Val(0.0) && Get(before, u, mesh.yend - 2) == Val(0.0)
    ensures Get(out, u, mesh.yend + 1) == Val(0.0)
    ensures BoundaryMidpoint(f, Up(), u, mesh.yend + 1) == Val(1.0)
  {
    var y0 := mesh.yend;
    assert Along(Up(), u, y0, -2) == (u, y0 - 2);
    assert Along(Up(), u, y0, -1) == (u, y0 - 1);
    assert Along(Up(), u, y0, 0) == (u, y0);
    assert Along(Up(), u, y0, 1) == (u, y0 + 1);
    assert Get(out, u, y0) == Val(0.0);
    assert !CutCell(mesh, YLow, AsWrittenRows(mesh, YLow), u, y0 - 1);
    assert !CutCell(mesh, YLow, AsWrittenRows(mesh, YLow), u, y0 - 2);
    assert Along(Up(), u, y0 + 1, 0) == (u, y0 + 1);
    assert Along(Up(), u, y0 + 1, -1) == (u, y0);
    assert Along(Up(), u, y0 + 1, -2) == (u, y0 - 1);
    assert Along(Up(), u, y0 + 1, -3) == (u, y0 - 2);
    assert InRange(out, u, y0 + 1);
    assert GetAt(out, Along(Up(), u, y0 + 1, 0)) == NextCubic(out, Up(), u, y0 + 1, 0);
    assert Along(Up(), u, y0 + 1, 1) == (u, y0 + 2);
  }

  /** With the corrected bounds, a `CELL_YLOW` upper-cut column gets its
      interpolated face at `yend + 1`, the value the upper boundary regions
      give that face, and keeps its interior row `yend`. */
  lemma CorrectedYLowInterpolatesFace(mesh: Mesh, f: Field, before: Field, out: Field, u: int)
    requires mesh.ystart <= mesh.yend && mesh.xstart <= u <= mesh.xend && u in mesh.cutUp
    requires InRange(before, u, mesh.yend + 1) && SameShape(out, before)
    requires forall a, v :: !CutCell(mesh, YLow, CorrectedRows(mesh, YLow), a, v) ==> Get(out, a, v) == Get(before, a, v)
    requires ColumnCut(mesh, f, before, out, YLow, CorrectedRows(mesh, YLow), u)
    ensures Get(out, u, mesh.yend + 1) == BoundaryMidpoint(f, Up(), u, mesh.yend + 1)
    ensures Get(out, u, mesh.yend) == Get(before, u, mesh.yend)
  {
    CorrectedCutKeepsInterior(mesh, YLow, u, mesh.yend);
  }
}
