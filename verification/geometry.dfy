/** `Coordinates::geometry`: the input checks, in the order the source makes
    them, and the pointwise quantities computed once they pass. */
module Geometry {
  import opened Cells
  import opened Metric
  import opened Tensors
  import opened Meshes
  import opened Results
  import opened Christoffels

  /** Grid spacings below this magnitude are rejected. */
  const SpacingFloor: real := 0.00000001

  function Abs(x: real): (a: real)
    ensures a >= 0.0 && (a == x || a == -x)
  {
    if x < 0.0 then -x else x
  }

  /** A finite spacing of magnitude below the floor (a NaN compares false). */
  predicate TooFine(c: Cell) {
    c.Val? && Abs(c.v) < SpacingFloor
  }

  predicate NotFinite(c: Cell) {
    c.NaN?
  }

  /** `min(f) <= 0` is triggered by a finite value `<= 0`. */
  predicate NotPositive(c: Cell) {
    c.Val? && c.v <= 0.0
  }

  /** Some interior cell of `f` is bad. */
  ghost predicate Somewhere(mesh: Mesh, f: Field, bad: Cell -> bool) {
    exists x, y :: Interior(mesh, x, y) && bad(Get(f, x, y))
  }

  ghost predicate DiagonalSomewhere(mesh: Mesh, t: Tensor, bad: Cell -> bool) {
    Somewhere(mesh, t.c11, bad) || Somewhere(mesh, t.c22, bad) || Somewhere(mesh, t.c33, bad)
  }

  ghost predicate OffDiagonalSomewhere(mesh: Mesh, t: Tensor, bad: Cell -> bool) {
    Somewhere(mesh, t.c12, bad) || Somewhere(mesh, t.c13, bad) || Somewhere(mesh, t.c23, bad)
  }

  /** The first check that fails, or `Ok` when all pass. */
  ghost function Verdict(mesh: Mesh, dx: Field, dy: Field, dz: real, contra: Tensor, cov: Tensor): Result<(), Error> {
    if Somewhere(mesh, dx, TooFine) then Err(DxTooSmall)
    else if Somewhere(mesh, dy, TooFine) then Err(DyTooSmall)
    else if Abs(dz) < SpacingFloor then Err(DzTooSmall)
    else if DiagonalSomewhere(mesh, contra, NotFinite) then Err(DiagonalMetricNotFinite)
    else if DiagonalSomewhere(mesh, contra, NotPositive) then Err(DiagonalMetricNotPositive)
    else if OffDiagonalSomewhere(mesh, contra, NotFinite) then Err(OffDiagonalMetricNotFinite)
    else if DiagonalSomewhere(mesh, cov, NotFinite) then Err(DiagonalCovariantNotFinite)
    else if DiagonalSomewhere(mesh, cov, NotPositive) then Err(DiagonalCovariantNotPositive)
    else if OffDiagonalSomewhere(mesh, cov, NotFinite) then Err(OffDiagonalCovariantNotFinite)
    else Ok(())
  }

  /** Scans one field's interior for a bad cell. */
  method ScanField(mesh: Mesh, f: Field, bad: Cell -> bool) returns (b: bool)
    ensures b <==> Somewhere(mesh, f, bad)
  {
    b := AnyInterior(mesh, (x, y) => bad(Get(f, x, y)));
  }

  method ScanDiagonal(mesh: Mesh, t: Tensor, bad: Cell -> bool) returns (b: bool)
    ensures b <==> DiagonalSomewhere(mesh, t, bad)
  {
    var b11 := ScanField(mesh, t.c11, bad);
    var b22 := ScanField(mesh, t.c22, bad);
    var b33 := ScanField(mesh, t.c33, bad);
    b := b11 || b22 || b33;
  }

  method ScanOffDiagonal(mesh: Mesh, t: Tensor, bad: Cell -> bool) returns (b: bool)
    ensures b <==> OffDiagonalSomewhere(mesh, t, bad)
  {
    var b12 := ScanField(mesh, t.c12, bad);
    var b13 := ScanField(mesh, t.c13, bad);
    var b23 := ScanField(mesh, t.c23, bad);
    b := b12 || b13 || b23;
  }

  /** The checks at the head of `geometry()`. */
  method CheckGeometry(mesh: Mesh, dx: Field, dy: Field, dz: real, contra: Tensor, cov: Tensor)
    returns (r: Result<(), Error>)
    ensures r == Verdict(mesh, dx, dy, dz, contra, cov)
  {
    var bad := ScanField(mesh, dx, TooFine);
    if bad { return Err(DxTooSmall); }
    bad := ScanField(mesh, dy, TooFine);
    if bad { return Err(DyTooSmall); }
    if Abs(dz) < SpacingFloor { return Err(DzTooSmall); }
    bad := ScanDiagonal(mesh, contra, NotFinite);
    if bad { return Err(DiagonalMetricNotFinite); }
    bad := ScanDiagonal(mesh, contra, NotPositive);
    if bad { return Err(DiagonalMetricNotPositive); }
    bad := ScanOffDiagonal(mesh, contra, NotFinite);
    if bad { return Err(OffDiagonalMetricNotFinite); }
    bad := ScanDiagonal(mesh, cov, NotFinite);
    if bad { return Err(DiagonalCovariantNotFinite); }
    bad := ScanDiagonal(mesh, cov, NotPositive);
    if bad { return Err(DiagonalCovariantNotPositive); }
    bad := ScanOffDiagonal(mesh, cov, NotFinite);
    if bad { return Err(OffDiagonalCovariantNotFinite); }
    return Ok(());
  }

  /** A metric point that passed the checks: all six entries finite, the
      diagonal strictly positive. */
  predicate Admissible(p: Point) {
    p.Defined? && p.m.xx > 0.0 && p.m.yy > 0.0 && p.m.zz > 0.0
  }

  /** When the checks pass, every interior point has spacings of magnitude
      at least `1e-8` (or NaN, which the checks let through) and admissible
      contravariant and covariant metrics; `dz` is at least `1e-8` in size. */
  lemma AcceptedInputs(mesh: Mesh, dx: Field, dy: Field, dz: real, contra: Tensor, cov: Tensor)
    requires Verdict(mesh, dx, dy, dz, contra, cov).Ok?
    ensures Abs(dz) >= SpacingFloor
    ensures forall x, y :: Interior(mesh, x, y) ==>
      && !TooFine(Get(dx, x, y)) && !TooFine(Get(dy, x, y))
      && Admissible(PointAt(contra, x, y)) && Admissible(PointAt(cov, x, y))
  {
    forall x, y | Interior(mesh, x, y)
      ensures !TooFine(Get(dx, x, y)) && !TooFine(Get(dy, x, y))
      ensures Admissible(PointAt(contra, x, y)) && Admissible(PointAt(cov, x, y))
    {
      assert !NotFinite(Get(contra.c11, x, y)) && !NotFinite(Get(contra.c22, x, y)) && !NotFinite(Get(contra.c33, x, y));
      assert !NotFinite(Get(contra.c12, x, y)) && !NotFinite(Get(contra.c13, x, y)) && !NotFinite(Get(contra.c23, x, y));
      assert !NotPositive(Get(contra.c11, x, y)) && !NotPositive(Get(contra.c22, x, y)) && !NotPositive(Get(contra.c33, x, y));
      assert !NotFinite(Get(cov.c11, x, y)) && !NotFinite(Get(cov.c22, x, y)) && !NotFinite(Get(cov.c33, x, y));
      assert !NotFinite(Get(cov.c12, x, y)) && !NotFinite(Get(cov.c13, x, y)) && !NotFinite(Get(cov.c23, x, y));
      assert !NotPositive(Get(cov.c11, x, y)) && !NotPositive(Get(cov.c22, x, y)) && !NotPositive(Get(cov.c33, x, y));
      assert !TooFine(Get(dx, x, y)) && !TooFine(Get(dy, x, y));
    }
  }

  /** `G1 = (DDX(J g11) + DDY(J g12) + DDZ(J g13)) / J`, and likewise `G2`,
      `G3`, from the three derivatives at the point. */
  function Contraction(j: Cell, a: Cell, b: Cell, c: Cell): (r: Cell)
    ensures r.Val? <==> j.Val? && j.v != 0.0 && a.Val? && b.Val? && c.Val?
    ensures r.Val? ==> r.v * j.v == a.v + b.v + c.v
  {
    if j.Val? && j.v != 0.0 && a.Val? && b.Val? && c.Val?
    then Val((a.v + b.v + c.v) / j.v)
    else NaN
  }

  /** With nothing varying, the contracted terms vanish wherever `J` is a
      non-zero number. */
  lemma FlatContraction(j: real)
    requires j != 0.0
    ensures Contraction(Val(j), Val(0.0), Val(0.0), Val(0.0)) == Val(0.0)
  {
  }

  /** `d1_dx = -d2x / (dx * dx)`, the derivative of `1/dx` along the index
      when the grid supplies `d2x = d(dx)/di`. */
  function InverseSpacingSlope(dx: Cell, d2x: Cell): (r: Cell)
    ensures r.Val? <==> dx.Val? && dx.v != 0.0 && d2x.Val?
    ensures r.Val? ==> r.v * (dx.v * dx.v) == -d2x.v
  {
    if dx.Val? && dx.v != 0.0 && d2x.Val? then
      assert dx.v * dx.v != 0.0;
      Val(-d2x.v / (dx.v * dx.v))
    else NaN
  }

  /** `d1_dx` is the derivative of `1/dx` along the index: differentiating
      `dx * (1/dx) = 1` by the product rule gives `d2x * (1/dx) + dx * q = 0`,
      and `q` satisfies this exactly when it is the stored value. */
  lemma InverseSpacingSlopeIsProductRule(dx: real, d2x: real, q: real)
    requires dx != 0.0
    ensures InverseSpacingSlope(Val(dx), Val(d2x)) == Val(q) <==> d2x * (1.0 / dx) + dx * q == 0.0
  {
    var r := InverseSpacingSlope(Val(dx), Val(d2x)).v;
    assert r * (dx * dx) == -d2x;
    calc {
      d2x * (1.0 / dx) + dx * q == 0.0;
    <==> { assert dx * (d2x * (1.0 / dx) + dx * q) == d2x + dx * dx * q; }
      d2x + dx * dx * q == 0.0;
    <==>
      q * (dx * dx) == -d2x;
    <==> { assert dx * dx != 0.0; }
      q == r;
    }
  }
}
