/** `calcCovariant` and `calcContravariant`: invert the symmetric metric at
    every point of the local grid, `x` outer and `y` inner, and stop at the
    first singular point. The two routines run the same loop and differ only
    in which six fields they read and write, so one method models both. */
module Inversion {
  import opened Cells
  import opened Metric
  import opened Tensors
  import opened Results

  /** A point whose matrix has zero determinant: `invert3x3` reports failure.
      A point holding a NaN is not singular (the magnitude test on a NaN
      determinant is false); inverting it yields NaN again. */
  predicate SingularPoint(p: Point) {
    p.Defined? && Det(p.m) == 0.0
  }

  /** Point `(i, j)` is visited before `(x, y)` in the `x`-outer, `y`-inner scan. */
  predicate Before(i: int, j: int, x: int, y: int) {
    i < x || (i == x && j < y)
  }

  predicate InGrid(x: int, y: int, nx: int, ny: int) {
    0 <= x < nx && 0 <= y < ny
  }

  /** What one inversion stores at a non-singular point. */
  function Inverted(p: Point): (q: Point)
    requires !SingularPoint(p)
    ensures q.Defined? <==> p.Defined?
    ensures q.Defined? ==> MutualInverses(q.m, p.m)
  {
    match p
    case Undefined => Undefined
    case Defined(m) => Defined(Invert(m).m)
  }

  /** An inverted point is never singular, so a second inversion cannot fail. */
  lemma InvertedNonsingular(p: Point)
    requires !SingularPoint(p)
    ensures !SingularPoint(Inverted(p))
  {
    if p.Defined? {
      DetOfInverse(p.m);
    }
  }

  /** Inverting twice gives back the original point. */
  lemma InvertedTwice(p: Point)
    requires !SingularPoint(p)
    ensures !SingularPoint(Inverted(p))
    ensures Inverted(Inverted(p)) == p
  {
    InvertedNonsingular(p);
    if p.Defined? {
      InvertTwice(p.m);
    }
  }

  ghost predicate NoSingularPoint(g: Tensor, nx: int, ny: int) {
    forall x, y :: InGrid(x, y, nx, ny) ==> !SingularPoint(PointAt(g, x, y))
  }

  /** The inversion loop. On success every point holds the inverse of the
      input's point there; on failure the reported point is the first
      singular one in scan order. */
  method InvertMetric(g: Tensor, nx: nat, ny: nat) returns (r: Result<Tensor, Error>)
    requires Shaped(g, nx, ny)
    ensures r.Ok? <==> NoSingularPoint(g, nx, ny)
    ensures r.Err? ==>
      && r.error.MetricSingular?
      && InGrid(r.error.x, r.error.y, nx, ny)
      && SingularPoint(PointAt(g, r.error.x, r.error.y))
      && forall i, j :: InGrid(i, j, nx, ny) && Before(i, j, r.error.x, r.error.y) ==>
           !SingularPoint(PointAt(g, i, j))
    ensures r.Ok? ==> Shaped(r.value, nx, ny)
    ensures r.Ok? ==> forall x, y :: InGrid(x, y, nx, ny) ==>
      !SingularPoint(PointAt(g, x, y)) && PointAt(r.value, x, y) == Inverted(PointAt(g, x, y))
  {
    var out := Blank(nx, ny);
    var x := 0;
    while x < nx
      invariant 0 <= x <= nx
      invariant Shaped(out, nx, ny)
      invariant forall i, j :: InGrid(i, j, nx, ny) && i < x ==>
        !SingularPoint(PointAt(g, i, j)) && PointAt(out, i, j) == Inverted(PointAt(g, i, j))
    {
      var y := 0;
      while y < ny
        invariant 0 <= y <= ny
        invariant Shaped(out, nx, ny)
        invariant forall i, j :: InGrid(i, j, nx, ny) && Before(i, j, x, y) ==>
          !SingularPoint(PointAt(g, i, j)) && PointAt(out, i, j) == Inverted(PointAt(g, i, j))
      {
        var p := PointAt(g, x, y);
        if SingularPoint(p) {
          return Err(MetricSingular(x, y));
        }
        out := SetPoint(out, nx, ny, x, y, Inverted(p));
        y := y + 1;
      }
      x := x + 1;
    }
    r := Ok(out);
  }

  /** `calcCovariant` followed by `calcContravariant`: the second inversion
      never fails, and every grid point comes back as it was. */
  method InvertBack(g: Tensor, nx: nat, ny: nat) returns (r: Result<Tensor, Error>)
    requires Shaped(g, nx, ny)
    ensures r.Ok? <==> NoSingularPoint(g, nx, ny)
    ensures r.Ok? ==> Shaped(r.value, nx, ny)
    ensures r.Ok? ==> forall x, y :: InGrid(x, y, nx, ny) ==> PointAt(r.value, x, y) == PointAt(g, x, y)
  {
    var cov := InvertMetric(g, nx, ny);
    if cov.Err? {
      return cov;
    }
    forall x, y | InGrid(x, y, nx, ny)
      ensures !SingularPoint(PointAt(cov.value, x, y))
      ensures Inverted(PointAt(cov.value, x, y)) == PointAt(g, x, y)
    {
      InvertedTwice(PointAt(g, x, y));
    }
    r := InvertMetric(cov.value, nx, ny);
  }
}
