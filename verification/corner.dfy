/** The index bookkeeping of `interpXLOWToXYCorner`: the cells of the outer
    x-boundary rows are moved one column inwards into a scratch field, so
    they can be interpolated as ordinary cells, and afterwards moved back
    out into the result. */
module Corners {
  import opened Cells
  import opened Meshes
  import opened Results

  /** The entry checks: a 4-point stencil in both directions needs two guard
      cells each side, and the input must sit at `CELL_XLOW`. */
  function CornerCheck(mesh: Mesh, loc: Location): (r: Result<(), Error>)
    ensures r.Ok? <==> mesh.xstart > 1 && mesh.ystart > 1 && loc == XLow
    ensures r.Err? && loc == XLow ==> r.error == CornerNeedsTwoGuardCells
    ensures r.Err? && !(mesh.xstart > 1 && mesh.ystart > 1) ==> r.error == CornerNeedsTwoGuardCells
    ensures r.Err? && mesh.xstart > 1 && mesh.ystart > 1 ==> r.error == LocationMismatch
  {
    if !(mesh.xstart > 1 && mesh.ystart > 1) then Err(CornerNeedsTwoGuardCells)
    else if loc != XLow then Err(LocationMismatch)
    else Ok(())
  }

  /** The rows `bndry->y` of the points of every outer x-boundary (`bx > 0`). */
  ghost predicate OuterRow(mesh: Mesh, y: int) {
    exists k, n :: 0 <= k < |mesh.boundaries| && mesh.boundaries[k].outX > 0 &&
      0 <= n < |mesh.boundaries[k].points| && mesh.boundaries[k].points[n].1 == y
  }

  /** Columns `xend - 1 .. LocalNx - 1` of an outer row, the ones moved. */
  ghost predicate Moved(mesh: Mesh, u: int, v: int) {
    OuterRow(mesh, v) && mesh.xend - 1 <= u < mesh.localNx
  }

  /** `temp_for_xguards(i - 1, y) = result(i, y)` on the outer rows. */
  ghost function ShiftIn(mesh: Mesh, temp: Field, src: Field): (out: Field)
    ensures SameShape(out, temp)
    ensures forall u, v :: InRange(temp, u, v) && Moved(mesh, u + 1, v) ==> Get(out, u, v) == Get(src, u + 1, v)
    ensures forall u, v :: !Moved(mesh, u + 1, v) ==> Get(out, u, v) == Get(temp, u, v)
  {
    seq(|temp|, u requires 0 <= u < |temp| =>
      seq(|temp[u]|, v requires 0 <= v < |temp[u]| =>
        if Moved(mesh, u + 1, v) then Get(src, u + 1, v) else temp[u][v]))
  }

  /** `result(i, y) = temp_for_xguards(i - 1, y)` on the outer rows. */
  ghost function SpliceOut(mesh: Mesh, result: Field, temp: Field): (out: Field)
    ensures SameShape(out, result)
    ensures forall u, v :: InRange(result, u, v) && Moved(mesh, u, v) ==> Get(out, u, v) == Get(temp, u - 1, v)
    ensures forall u, v :: !Moved(mesh, u, v) ==> Get(out, u, v) == Get(result, u, v)
  {
    seq(|result|, u requires 0 <= u < |result| =>
      seq(|result[u]|, v requires 0 <= v < |result[u]| =>
        if Moved(mesh, u, v) then Get(temp, u - 1, v) else result[u][v]))
  }

  /** Moving the outer cells in and straight back out restores the field:
      the two index maps are inverse, for a rectangular scratch field of the
      result's shape and a mesh that passed the entry checks. */
  lemma ShiftThenSplice(mesh: Mesh, temp: Field, result: Field, ny: int)
    requires 1 < mesh.xstart <= mesh.xend
    requires SameShape(temp, result) && IsGrid(result, |result|, ny)
    ensures SpliceOut(mesh, result, ShiftIn(mesh, temp, result)) == result
  {
    var moved := ShiftIn(mesh, temp, result);
    var back := SpliceOut(mesh, result, moved);
    forall u, v
      ensures Get(back, u, v) == Get(result, u, v)
    {
      if InRange(result, u, v) && Moved(mesh, u, v) {
        assert Get(back, u, v) == Get(moved, u - 1, v);
        assert InRange(temp, u - 1, v);
      }
    }
    FieldsEqual(back, result);
  }
}
