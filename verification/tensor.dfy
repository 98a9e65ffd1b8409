/** A metric tensor field: six `Field2D` components (11, 22, 33, 12, 13, 23)
    over the same local grid, read and written one grid point at a time. */
module Tensors {
  import opened Cells
  import opened Metric

  datatype Tensor = Tensor(c11: Field, c22: Field, c33: Field, c12: Field, c13: Field, c23: Field)

  /** Every component has `nx` columns of `ny` cells. */
  ghost predicate Shaped(t: Tensor, nx: int, ny: int) {
    && IsGrid(t.c11, nx, ny) && IsGrid(t.c22, nx, ny) && IsGrid(t.c33, nx, ny)
    && IsGrid(t.c12, nx, ny) && IsGrid(t.c13, nx, ny) && IsGrid(t.c23, nx, ny)
  }

  /** The matrix at one grid point, or `Undefined` when any of its six
      components is not a number. */
  datatype Point = Defined(m: Sym3) | Undefined

  function PointAt(t: Tensor, x: int, y: int): (p: Point)
    ensures p.Defined? <==>
      && Get(t.c11, x, y).Val? && Get(t.c22, x, y).Val? && Get(t.c33, x, y).Val?
      && Get(t.c12, x, y).Val? && Get(t.c13, x, y).Val? && Get(t.c23, x, y).Val?
  {
    var a, b, c := Get(t.c11, x, y), Get(t.c22, x, y), Get(t.c33, x, y);
    var d, e, f := Get(t.c12, x, y), Get(t.c13, x, y), Get(t.c23, x, y);
    if a.Val? && b.Val? && c.Val? && d.Val? && e.Val? && f.Val?
    then Defined(Sym3(a.v, b.v, c.v, d.v, e.v, f.v))
    else Undefined
  }

  /** Writes all six components of one grid point; an undefined point is
      stored as six NaN cells. */
  function SetPoint(t: Tensor, nx: nat, ny: nat, x: int, y: int, p: Point): (u: Tensor)
    requires Shaped(t, nx, ny) && 0 <= x < nx && 0 <= y < ny
    ensures Shaped(u, nx, ny)
    ensures PointAt(u, x, y) == p
    ensures forall i, j :: (i, j) != (x, y) ==> PointAt(u, i, j) == PointAt(t, i, j)
  {
    match p
    case Defined(m) =>
      Tensor(Set(t.c11, x, y, Val(m.xx)), Set(t.c22, x, y, Val(m.yy)), Set(t.c33, x, y, Val(m.zz)),
             Set(t.c12, x, y, Val(m.xy)), Set(t.c13, x, y, Val(m.xz)), Set(t.c23, x, y, Val(m.yz)))
    case Undefined =>
      Tensor(Set(t.c11, x, y, NaN), Set(t.c22, x, y, NaN), Set(t.c33, x, y, NaN),
             Set(t.c12, x, y, NaN), Set(t.c13, x, y, NaN), Set(t.c23, x, y, NaN))
  }

  /** Freshly allocated components, modelled as holding no number yet. */
  function Blank(nx: nat, ny: nat): (t: Tensor)
    ensures Shaped(t, nx, ny)
    ensures forall x, y :: PointAt(t, x, y) == Undefined
  {
    var z := Constant(nx, ny, NaN);
    Tensor(z, z, z, z, z, z)
  }
}
