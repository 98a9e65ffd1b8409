/** A field cell is a real value or the not-a-number sentinel; a 2D field
    (`Field2D`) is indexed `f[x][y]`. */
module Cells {

  datatype Cell = Val(v: real) | NaN

  /** IEEE arithmetic restricted to what the core needs: NaN propagates. */
  function Add(a: Cell, b: Cell): (r: Cell)
    ensures r.Val? <==> a.Val? && b.Val?
    ensures r.Val? ==> r.v == a.v + b.v
  {
    if a.Val? && b.Val? then Val(a.v + b.v) else NaN
  }

  function Sub(a: Cell, b: Cell): (r: Cell)
    ensures r.Val? <==> a.Val? && b.Val?
    ensures r.Val? ==> r.v == a.v - b.v
  {
    if a.Val? && b.Val? then Val(a.v - b.v) else NaN
  }

  /** Cubic extrapolation `3*a - 3*b + c` from the three previous cells. */
  function Cubic(a: Cell, b: Cell, c: Cell): (r: Cell)
    ensures r.Val? <==> a.Val? && b.Val? && c.Val?
  {
    if a.Val? && b.Val? && c.Val? then Val(3.0 * a.v - 3.0 * b.v + c.v) else NaN
  }

  /** Symmetric 4-point midpoint interpolation `(9*(a+b) - c - d)/16`,
      where `a`, `b` are the inner and `c`, `d` the outer neighbours. */
  function Midpoint(a: Cell, b: Cell, c: Cell, d: Cell): (r: Cell)
    ensures r.Val? <==> a.Val? && b.Val? && c.Val? && d.Val?
  {
    if a.Val? && b.Val? && c.Val? && d.Val?
    then Val((9.0 * (a.v + b.v) - c.v - d.v) / 16.0)
    else NaN
  }

  /** `a + b*t + c*t^2`. */
  function Quad(a: real, b: real, c: real, t: real): real {
    a + b * t + c * (t * t)
  }

  /** Cubic extrapolation continues every quadratic exactly: it is the
      third-order (`free_o3`) rule. */
  lemma CubicContinuesQuadratic(a: real, b: real, c: real, t: real)
    ensures Cubic(Val(Quad(a, b, c, t - 1.0)), Val(Quad(a, b, c, t - 2.0)), Val(Quad(a, b, c, t - 3.0)))
         == Val(Quad(a, b, c, t))
  {
    assert (t - 1.0) * (t - 1.0) == t * t - 2.0 * t + 1.0;
    assert (t - 2.0) * (t - 2.0) == t * t - 4.0 * t + 4.0;
    assert (t - 3.0) * (t - 3.0) == t * t - 6.0 * t + 9.0;
  }

  /** `a + b*t + c*t^2 + d*t^3`. */
  function Cubical(a: real, b: real, c: real, d: real, t: real): real {
    a + b * t + c * (t * t) + d * (t * t * t)
  }

  /** The midpoint formula recovers the value halfway between its inner
      neighbours exactly for every cubic sampled at unit spacing. */
  lemma MidpointExactForCubics(a: real, b: real, c: real, d: real)
    ensures Midpoint(Val(Cubical(a, b, c, d, -0.5)), Val(Cubical(a, b, c, d, 0.5)),
                     Val(Cubical(a, b, c, d, -1.5)), Val(Cubical(a, b, c, d, 1.5))) == Val(a)
  {
  }

  type Field = seq<seq<Cell>>

  /** `f` has `nx` columns of `ny` cells each. */
  ghost predicate IsGrid(f: Field, nx: int, ny: int) {
    |f| == nx && forall x :: 0 <= x < |f| ==> |f[x]| == ny
  }

  predicate InRange(f: Field, x: int, y: int) {
    0 <= x < |f| && 0 <= y < |f[x]|
  }

  /** Reading outside the local array (undefined in the source) yields NaN. */
  function Get(f: Field, x: int, y: int): (c: Cell)
    ensures !InRange(f, x, y) ==> c == NaN
  {
    if InRange(f, x, y) then f[x][y] else NaN
  }

  /** Writing outside the local array changes nothing. */
  function Set(f: Field, x: int, y: int, c: Cell): (g: Field)
    ensures |g| == |f|
    ensures forall i :: 0 <= i < |f| ==> |g[i]| == |f[i]|
    ensures InRange(f, x, y) ==> Get(g, x, y) == c
    ensures forall i, j :: (i, j) != (x, y) ==> Get(g, i, j) == Get(f, i, j)
  {
    if InRange(f, x, y) then f[x := f[x][y := c]] else f
  }

  /** A field of `nx` by `ny` cells all holding `c`. */
  function Constant(nx: nat, ny: nat, c: Cell): (f: Field)
    ensures IsGrid(f, nx, ny)
    ensures forall x, y :: InRange(f, x, y) ==> f[x][y] == c
  {
    seq(nx, _ => seq(ny, _ => c))
  }

  function Max(a: int, b: int): int {
    if a < b then b else a
  }

  predicate SameShape(f: Field, g: Field) {
    |f| == |g| && forall i :: 0 <= i < |f| ==> |f[i]| == |g[i]|
  }

  /** Fields of one shape that agree at every cell are equal. */
  lemma FieldsEqual(f: Field, g: Field)
    requires SameShape(f, g) && forall x, y :: Get(f, x, y) == Get(g, x, y)
    ensures f == g
  {
    forall x | 0 <= x < |f|
      ensures f[x] == g[x]
    {
      forall y | 0 <= y < |f[x]|
        ensures f[x][y] == g[x][y]
      {
        assert Get(f, x, y) == Get(g, x, y);
      }
    }
  }
}
