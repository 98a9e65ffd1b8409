/** The location checks of the `Coordinates` differential operators on 2D
    fields, and what the operators do around the (abstracted) index
    derivatives. A failed `ASSERT1` is the `LocationMismatch` error. */
module Operators {
  import opened Cells
  import opened Meshes
  import opened Results
  import opened Jacobians

  /** `DDX`, `DDY`, `DDZ` and the 3D `Grad_par`: the requested location is
      the coordinates' own, or the default. */
  predicate LocationAccepted(location: Location, loc: Location) {
    location == loc || loc == Default
  }

  /** The 2D `Grad_par`: a default request is accepted only when the input
      field already sits at the coordinates' location. */
  predicate GradParAccepted(location: Location, outloc: Location, varLoc: Location) {
    location == outloc || (outloc == Default && location == varLoc)
  }

  /** The 2D rule is the general one restricted to inputs at the right
      location, and strictly stronger: a default request for a field at
      another location passes `DDY` but not `Grad_par`. */
  lemma GradParStricter(location: Location, outloc: Location, varLoc: Location)
    ensures GradParAccepted(location, outloc, varLoc) ==> LocationAccepted(location, outloc)
    ensures outloc == Default && location != Default && varLoc != location ==>
      LocationAccepted(location, outloc) && !GradParAccepted(location, outloc, varLoc)
  {
  }

  /** `a / b`, finite when `b` is a non-zero number. */
  function Quotient(a: Cell, b: Cell): (r: Cell)
    ensures r.Val? <==> a.Val? && b.Val? && b.v != 0.0
    ensures r.Val? ==> r.v * b.v == a.v
  {
    if a.Val? && b.Val? && b.v != 0.0 then Val(a.v / b.v) else NaN
  }

  function Divided(num: Field, den: Field): (r: Field)
    ensures SameShape(r, num)
    ensures forall x, y :: InRange(num, x, y) ==> Get(r, x, y) == Quotient(Get(num, x, y), Get(den, x, y))
  {
    seq(|num|, x requires 0 <= x < |num| =>
      seq(|num[x]|, y requires 0 <= y < |num[x]| => Quotient(num[x][y], Get(den, x, y))))
  }

  /** `DDX(f) = indexDDX(f) / dx` and `DDY(f) = indexDDY(f) / dy`, given the
      index derivative: a cell is finite exactly when both inputs are finite
      and the spacing is non-zero, and then it times the spacing is the index
      derivative. */
  function SpacedDerivative(location: Location, loc: Location, index: Field, spacing: Field): (r: Result<Field, Error>)
    ensures r.Ok? <==> LocationAccepted(location, loc)
    ensures r.Err? ==> r.error == LocationMismatch
    ensures r.Ok? ==> SameShape(r.value, index)
    ensures r.Ok? ==> forall x, y :: Get(r.value, x, y).Val? ==>
      Get(spacing, x, y).Val? && Get(index, x, y).Val? &&
      Get(r.value, x, y).v * Get(spacing, x, y).v == Get(index, x, y).v
    ensures r.Ok? ==> forall x, y :: InRange(index, x, y) ==>
      (Get(r.value, x, y).Val? <==> Get(index, x, y).Val? && Get(spacing, x, y).Val? && Get(spacing, x, y).v != 0.0)
  {
    if !LocationAccepted(location, loc) then Err(LocationMismatch)
    else Ok(Divided(index, spacing))
  }

  /** `DDZ` of a 2D field: a field is constant in `z`, so the result is the
      zero field, placed at the coordinates' location. */
  function DDZ(location: Location, loc: Location, f: Field): (r: Result<(Field, Location), Error>)
    ensures r.Ok? <==> LocationAccepted(location, loc)
    ensures r.Err? ==> r.error == LocationMismatch
    ensures r.Ok? ==> r.value.1 == location && SameShape(r.value.0, f)
    ensures r.Ok? ==> forall x, y :: InRange(f, x, y) ==> Get(r.value.0, x, y) == Val(0.0)
  {
    if !LocationAccepted(location, loc) then Err(LocationMismatch)
    else Ok((seq(|f|, x requires 0 <= x < |f| => seq(|f[x]|, _ => Val(0.0))), location))
  }

  /** `a / sqrt(g)`, finite when `g` is a positive number. */
  function OverRoot(sqrt: real -> real, a: Cell, g: Cell): (r: Cell)
    requires IsSqrt(sqrt)
    ensures r.Val? <==> a.Val? && g.Val? && g.v > 0.0
    ensures r.Val? ==> r.v * sqrt(g.v) == a.v && r.v * r.v * g.v == a.v * a.v
  {
    if a.Val? && g.Val? && g.v > 0.0 then
      RootPositive(sqrt, g.v);
      RootQuotientLaw(sqrt(g.v), g.v, a.v);
      Val(a.v / sqrt(g.v))
    else NaN
  }

  lemma RootQuotientLaw(s: real, g: real, a: real)
    requires s > 0.0 && s * s == g
    ensures (a / s) * s == a
    ensures (a / s) * (a / s) * g == a * a
  {
    calc {
      (a / s) * (a / s) * g;
      (a / s) * (a / s) * (s * s);
      ((a / s) * s) * ((a / s) * s);
      a * a;
    }
  }

  /** The 2D `Grad_par(var, outloc) = DDY(var, outloc) / sqrt(g_22)`, given
      the `y` derivative: stricter location check, then every finite value
      times `sqrt(g_22)` is the derivative, and only points with `g_22 > 0`
      are finite. */
  function GradPar(sqrt: real -> real, location: Location, outloc: Location, varLoc: Location,
                   ddy: Field, g22: Field): (r: Result<Field, Error>)
    requires IsSqrt(sqrt)
    ensures r.Ok? <==> GradParAccepted(location, outloc, varLoc)
    ensures r.Err? ==> r.error == LocationMismatch
    ensures r.Ok? ==> SameShape(r.value, ddy)
    ensures r.Ok? ==> forall x, y :: InRange(ddy, x, y) ==>
      (Get(r.value, x, y).Val? <==> Get(ddy, x, y).Val? && Get(g22, x, y).Val? && Get(g22, x, y).v > 0.0)
    ensures r.Ok? ==> forall x, y :: Get(r.value, x, y).Val? ==>
      Get(g22, x, y).Val? && Get(ddy, x, y).Val? &&
      Get(r.value, x, y).v * sqrt(Get(g22, x, y).v) == Get(ddy, x, y).v
  {
    if !GradParAccepted(location, outloc, varLoc) then Err(LocationMismatch)
    else Ok(seq(|ddy|, x requires 0 <= x < |ddy| =>
              seq(|ddy[x]|, y requires 0 <= y < |ddy[x]| => OverRoot(sqrt, ddy[x][y], Get(g22, x, y)))))
  }
}
