/** The parts of a `Mesh` the coordinates code reads: local and global sizes,
    the interior index range, the boundary regions and the branch cuts. */
module Meshes {

  /** `CELL_LOC`: where on the cell a field's values sit. */
  datatype Location = Centre | XLow | YLow | ZLow | Default

  /** One boundary region: the unit direction `(outX, outY)` (the source's
      `bx`, `by`) pointing out of the domain, its guard-cell depth `width`, and the points `first()` ..
      `next1d()` visit, each the innermost guard cell of one line. */
  datatype Boundary = Boundary(outX: int, outY: int, width: int, points: seq<(int, int)>)

  datatype Mesh = Mesh(
    localNx: nat, localNy: nat,
    globalNx: int, globalNy: int,
    xstart: int, xend: int, ystart: int, yend: int,
    boundaries: seq<Boundary>,
    cutDown: set<int>,   // columns x with hasBranchCutDown(x)
    cutUp: set<int>)     // columns x with hasBranchCutUp(x)

  /** The interior index range, `RGN_NOBNDRY`. */
  predicate Interior(mesh: Mesh, x: int, y: int) {
    mesh.xstart <= x <= mesh.xend && mesh.ystart <= y <= mesh.yend
  }

  /** Any point of the local array, guard cells included. */
  predicate InLocal(mesh: Mesh, x: int, y: int) {
    0 <= x < mesh.localNx && 0 <= y < mesh.localNy
  }

  /** The interior lies inside the local array. */
  predicate WellFormed(mesh: Mesh) {
    0 <= mesh.xstart && mesh.xend < mesh.localNx && 0 <= mesh.ystart && mesh.yend < mesh.localNy
  }

  /** Scans the interior for a point satisfying `p`, as `min` and `finite`
      over `RGN_NOBNDRY` do. */
  method AnyInterior(mesh: Mesh, p: (int, int) -> bool) returns (b: bool)
    ensures b <==> exists x, y :: Interior(mesh, x, y) && p(x, y)
  {
    var x := mesh.xstart;
    while x <= mesh.xend
      invariant x <= mesh.xend + 1 || mesh.xend < mesh.xstart
      invariant forall i, j :: Interior(mesh, i, j) && i < x ==> !p(i, j)
    {
      var y := mesh.ystart;
      while y <= mesh.yend
        invariant y <= mesh.yend + 1 || mesh.yend < mesh.ystart
        invariant forall i, j :: Interior(mesh, i, j) && (i < x || (i == x && j < y)) ==> !p(i, j)
      {
        if p(x, y) {
          return true;
        }
        y := y + 1;
      }
      x := x + 1;
    }
    return false;
  }
}
