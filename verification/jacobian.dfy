/** `Coordinates::jacobian`: from the contravariant metric, the Jacobian
    `J = 1/sqrt(det g^ij)` and the field magnitude `Bxy = sqrt(g_22)/J`,
    after four checks over the interior. Square roots come from a caller's
    function obeying the square-root law; a non-finite value (`1/sqrt(0)`,
    the root of a negative number) is the NaN cell. */
module Jacobians {
  import opened Cells
  import opened Metric
  import opened Tensors
  import opened Meshes
  import opened Results

  /** `sqrt` returns the non-negative root of every non-negative real. */
  ghost predicate IsSqrt(sqrt: real -> real) {
    forall x :: 0.0 <= x ==> 0.0 <= sqrt(x) && sqrt(x) * sqrt(x) == x
  }

  /** `|J|` below this is rejected. */
  const JacobianFloor: real := 0.0000000001

  /** The determinant of `g^ij` at one point. */
  function DetCell(p: Point): (d: Cell)
    ensures d.Val? <==> p.Defined?
  {
    if p.Defined? then Val(Det(p.m)) else NaN
  }

  lemma RootPositive(sqrt: real -> real, d: real)
    requires IsSqrt(sqrt) && d > 0.0
    ensures sqrt(d) > 0.0
  {
    assert sqrt(d) * sqrt(d) == d;
  }

  lemma PositiveProduct(x: real, y: real)
    requires x > 0.0 && y > 0.0
    ensures x * y > 0.0
  {
  }

  /** Squaring is monotone on non-negative reals. */
  lemma SquareMonotone(a: real, b: real)
    requires 0.0 <= a && 0.0 <= b
    ensures a <= b <==> a * a <= b * b
  {
    assert a * a - b * b == (a - b) * (a + b);
    if a <= b {
      assert (a - b) * (a + b) <= 0.0;
    } else {
      PositiveProduct(a - b, a + b);
    }
  }

  /** `1/sqrt(d)`: finite exactly when `d > 0`. */
  function JacobianCell(sqrt: real -> real, d: Cell): (j: Cell)
    requires IsSqrt(sqrt)
    ensures j.Val? <==> d.Val? && d.v > 0.0
    ensures j.Val? ==> j.v > 0.0 && j.v * j.v * d.v == 1.0
  {
    if d.Val? && d.v > 0.0 then
      RootPositive(sqrt, d.v);
      InverseRootLaw(sqrt(d.v), d.v);
      Val(1.0 / sqrt(d.v))
    else NaN
  }

  lemma InverseRootLaw(s: real, d: real)
    requires s > 0.0 && s * s == d
    ensures 1.0 / s > 0.0 && (1.0 / s) * (1.0 / s) * d == 1.0
  {
    calc {
      (1.0 / s) * (1.0 / s) * d;
      (1.0 / s) * (1.0 / s) * (s * s);
      ((1.0 / s) * s) * ((1.0 / s) * s);
      1.0;
    }
  }

  /** `sqrt(g_22)/J`: finite when `g_22 >= 0` and `J` is a non-zero number. */
  function BxyCell(sqrt: real -> real, g22: Cell, j: Cell): (b: Cell)
    requires IsSqrt(sqrt)
    ensures b.Val? <==> g22.Val? && g22.v >= 0.0 && j.Val? && j.v != 0.0
    ensures b.Val? && j.v > 0.0 ==> b.v >= 0.0
    ensures b.Val? ==> b.v * b.v * (j.v * j.v) == g22.v
  {
    if g22.Val? && g22.v >= 0.0 && j.Val? && j.v != 0.0 then
      RootOverLaw(sqrt(g22.v), g22.v, j.v);
      Val(sqrt(g22.v) / j.v)
    else NaN
  }

  lemma RootOverLaw(s: real, g: real, j: real)
    requires s >= 0.0 && s * s == g && j != 0.0
    ensures j > 0.0 ==> s / j >= 0.0
    ensures (s / j) * (s / j) * (j * j) == g
  {
    calc {
      (s / j) * (s / j) * (j * j);
      ((s / j) * j) * ((s / j) * j);
      s * s;
    }
  }

  /** `J` is below the floor exactly when the determinant exceeds `10^20`,
      so the third check is a bound on `det g^ij` itself. */
  lemma TooSmallIffLargeDeterminant(sqrt: real -> real, d: real)
    requires IsSqrt(sqrt) && d > 0.0
    ensures JacobianCell(sqrt, Val(d)).v < JacobianFloor <==> d > 100000000000000000000.0
  {
    var s := sqrt(d);
    RootPositive(sqrt, d);
    assert JacobianCell(sqrt, Val(d)).v == 1.0 / s;
    assert 1.0 / s < JacobianFloor <==> s > 10000000000.0;
    SquareMonotone(s, 10000000000.0);
  }

  /** The identity metric has determinant 1, Jacobian 1 and, with `g_22 = 1`,
      field magnitude 1. */
  lemma IdentityJacobian(sqrt: real -> real)
    requires IsSqrt(sqrt)
    ensures DetCell(Defined(Identity)) == Val(1.0)
    ensures JacobianCell(sqrt, Val(1.0)) == Val(1.0)
    ensures BxyCell(sqrt, Val(1.0), Val(1.0)) == Val(1.0)
  {
    var s := sqrt(1.0);
    assert s >= 0.0 && s * s == 1.0;
    SquareMonotone(s, 1.0);
    SquareMonotone(1.0, s);
  }

  /** `J^2` is the determinant of the covariant metric: the inverse of the
      contravariant point has determinant `1/det g^ij`. */
  lemma JacobianSquaredIsCovariantDeterminant(sqrt: real -> real, m: Sym3)
    requires IsSqrt(sqrt) && Det(m) > 0.0
    ensures Invert(m).Inverse?
    ensures JacobianCell(sqrt, Val(Det(m))).v * JacobianCell(sqrt, Val(Det(m))).v == Det(Invert(m).m)
  {
    var j := JacobianCell(sqrt, Val(Det(m))).v;
    DetOfInverse(m);
    RecipLaw(Det(m));
    assert j * j * Det(m) == 1.0;
    assert Times(Recip(Det(m)), Det(m)) == 1.0;
    assert j * j == Recip(Det(m));
  }

  /** The outputs of a successful `jacobian()`. */
  datatype JacobianFields = JacobianFields(j: Field, bxy: Field)

  /** At every local point `J` is finite exactly where the determinant is
      positive, and then `J > 0` with `J^2 det == 1`. */
  ghost predicate JacobianLaws(mesh: Mesh, contra: Tensor, j: Field) {
    && IsGrid(j, mesh.localNx, mesh.localNy)
    && forall x, y :: InLocal(mesh, x, y) ==>
         && (j[x][y].Val? <==> PointAt(contra, x, y).Defined? && Det(PointAt(contra, x, y).m) > 0.0)
         && (j[x][y].Val? ==> j[x][y].v > 0.0 && j[x][y].v * j[x][y].v * Det(PointAt(contra, x, y).m) == 1.0)
  }

  /** At every local point `Bxy` is finite exactly where `g_22 >= 0` and `J`
      is finite, and then `Bxy >= 0` with `Bxy^2 J^2 == g_22`. */
  ghost predicate BxyLaws(mesh: Mesh, g22: Field, j: Field, b: Field) {
    && IsGrid(j, mesh.localNx, mesh.localNy) && IsGrid(b, mesh.localNx, mesh.localNy)
    && forall x, y :: InLocal(mesh, x, y) ==>
         && (b[x][y].Val? <==> Get(g22, x, y).Val? && Get(g22, x, y).v >= 0.0 && j[x][y].Val?)
         && (b[x][y].Val? ==> b[x][y].v >= 0.0 && b[x][y].v * b[x][y].v * (j[x][y].v * j[x][y].v) == Get(g22, x, y).v)
  }

  function JacobianField(sqrt: real -> real, mesh: Mesh, contra: Tensor): (j: Field)
    requires IsSqrt(sqrt)
    ensures JacobianLaws(mesh, contra, j)
  {
    seq(mesh.localNx, x => seq(mesh.localNy, y => JacobianCell(sqrt, DetCell(PointAt(contra, x, y)))))
  }

  function BxyField(sqrt: real -> real, mesh: Mesh, contra: Tensor, g22: Field, j: Field): (b: Field)
    requires IsSqrt(sqrt) && JacobianLaws(mesh, contra, j)
    ensures BxyLaws(mesh, g22, j, b)
  {
    var b := seq(mesh.localNx, x => seq(mesh.localNy, y => BxyCell(sqrt, Get(g22, x, y), Get(j, x, y))));
    BxyPointwise(sqrt, mesh, contra, g22, j, b);
    b
  }

  lemma BxyPointwise(sqrt: real -> real, mesh: Mesh, contra: Tensor, g22: Field, j: Field, b: Field)
    requires IsSqrt(sqrt) && JacobianLaws(mesh, contra, j) && IsGrid(b, mesh.localNx, mesh.localNy)
    requires forall x, y :: InLocal(mesh, x, y) ==> b[x][y] == BxyCell(sqrt, Get(g22, x, y), Get(j, x, y))
    ensures BxyLaws(mesh, g22, j, b)
  {
    forall x, y | InLocal(mesh, x, y)
      ensures b[x][y].Val? <==> Get(g22, x, y).Val? && Get(g22, x, y).v >= 0.0 && j[x][y].Val?
      ensures b[x][y].Val? ==> b[x][y].v >= 0.0 && b[x][y].v * b[x][y].v * (j[x][y].v * j[x][y].v) == Get(g22, x, y).v
    {
      assert Get(j, x, y) == j[x][y];
      assert j[x][y].Val? ==> j[x][y].v > 0.0;
    }
  }

  /** First check: a point of the interior has a negative determinant. */
  ghost predicate DeterminantNegativeSomewhere(mesh: Mesh, contra: Tensor) {
    exists x, y :: Interior(mesh, x, y) && PointAt(contra, x, y).Defined? && Det(PointAt(contra, x, y).m) < 0.0
  }

  /** Second check: `J` is not finite at an interior point, because the
      metric there is NaN or has zero (or negative) determinant. */
  ghost predicate JacobianNotFiniteSomewhere(mesh: Mesh, contra: Tensor) {
    exists x, y :: Interior(mesh, x, y) && !(PointAt(contra, x, y).Defined? && Det(PointAt(contra, x, y).m) > 0.0)
  }

  /** Third check, stated through `TooSmallIffLargeDeterminant`. */
  ghost predicate DeterminantHugeSomewhere(mesh: Mesh, contra: Tensor) {
    exists x, y :: Interior(mesh, x, y) && PointAt(contra, x, y).Defined? &&
      Det(PointAt(contra, x, y).m) > 100000000000000000000.0
  }

  /** Fourth check: `g_22 < 0` at an interior point (a NaN is not less than 0). */
  ghost predicate CovariantG22NegativeSomewhere(mesh: Mesh, g22: Field) {
    exists x, y :: Interior(mesh, x, y) && Get(g22, x, y).Val? && Get(g22, x, y).v < 0.0
  }

  predicate NegativeAt(contra: Tensor, x: int, y: int) {
    PointAt(contra, x, y).Defined? && Det(PointAt(contra, x, y).m) < 0.0
  }

  predicate NotFiniteAt(j: Field, x: int, y: int) {
    Get(j, x, y).NaN?
  }

  predicate TooSmallAt(j: Field, x: int, y: int) {
    Get(j, x, y).Val? && Get(j, x, y).v < JacobianFloor
  }

  predicate G22NegativeAt(g22: Field, x: int, y: int) {
    Get(g22, x, y).Val? && Get(g22, x, y).v < 0.0
  }

  lemma NotFiniteGate(mesh: Mesh, contra: Tensor, j: Field)
    requires WellFormed(mesh) && JacobianLaws(mesh, contra, j)
    ensures (exists x, y :: Interior(mesh, x, y) && NotFiniteAt(j, x, y)) <==> JacobianNotFiniteSomewhere(mesh, contra)
  {
    if JacobianNotFiniteSomewhere(mesh, contra) {
      var x, y :| Interior(mesh, x, y) && !(PointAt(contra, x, y).Defined? && Det(PointAt(contra, x, y).m) > 0.0);
      assert NotFiniteAt(j, x, y);
    }
  }

  lemma TooSmallGate(sqrt: real -> real, mesh: Mesh, contra: Tensor, j: Field)
    requires IsSqrt(sqrt) && WellFormed(mesh) && j == JacobianField(sqrt, mesh, contra)
    requires !JacobianNotFiniteSomewhere(mesh, contra)
    ensures (exists x, y :: Interior(mesh, x, y) && TooSmallAt(j, x, y)) <==> DeterminantHugeSomewhere(mesh, contra)
    ensures forall x, y :: Interior(mesh, x, y) && !DeterminantHugeSomewhere(mesh, contra) ==>
      j[x][y].Val? && j[x][y].v >= JacobianFloor
  {
    forall x, y | Interior(mesh, x, y)
      ensures j[x][y].Val? && (j[x][y].v < JacobianFloor <==> Det(PointAt(contra, x, y).m) > 100000000000000000000.0)
    {
      TooSmallIffLargeDeterminant(sqrt, Det(PointAt(contra, x, y).m));
    }
  }

  method Jacobian(sqrt: real -> real, mesh: Mesh, contra: Tensor, g22: Field) returns (r: Result<JacobianFields, Error>)
    requires IsSqrt(sqrt) && WellFormed(mesh)
    requires Shaped(contra, mesh.localNx, mesh.localNy) && IsGrid(g22, mesh.localNx, mesh.localNy)
    ensures r == Err(DeterminantNegative) <==> DeterminantNegativeSomewhere(mesh, contra)
    ensures r == Err(JacobianNotFinite) <==>
      !DeterminantNegativeSomewhere(mesh, contra) && JacobianNotFiniteSomewhere(mesh, contra)
    ensures r == Err(JacobianTooSmall) <==>
      && !DeterminantNegativeSomewhere(mesh, contra) && !JacobianNotFiniteSomewhere(mesh, contra)
      && DeterminantHugeSomewhere(mesh, contra)
    ensures r == Err(CovariantG22Negative) <==>
      && !DeterminantNegativeSomewhere(mesh, contra) && !JacobianNotFiniteSomewhere(mesh, contra)
      && !DeterminantHugeSomewhere(mesh, contra) && CovariantG22NegativeSomewhere(mesh, g22)
    ensures r.Ok? || r.error in {DeterminantNegative, JacobianNotFinite, JacobianTooSmall, CovariantG22Negative}
    ensures r.Ok? ==> JacobianLaws(mesh, contra, r.value.j) && BxyLaws(mesh, g22, r.value.j, r.value.bxy)
    ensures r.Ok? ==> forall x, y :: Interior(mesh, x, y) ==>
      r.value.j[x][y].Val? && r.value.j[x][y].v >= JacobianFloor
  {
    var negative := AnyInterior(mesh, (x, y) => NegativeAt(contra, x, y));
    if negative {
      return Err(DeterminantNegative);
    }
    var j := JacobianField(sqrt, mesh, contra);
    var notFinite := AnyInterior(mesh, (x, y) => NotFiniteAt(j, x, y));
    NotFiniteGate(mesh, contra, j);
    if notFinite {
      return Err(JacobianNotFinite);
    }
    var tooSmall := AnyInterior(mesh, (x, y) => TooSmallAt(j, x, y));
    TooSmallGate(sqrt, mesh, contra, j);
    if tooSmall {
      return Err(JacobianTooSmall);
    }
    var g22Negative := AnyInterior(mesh, (x, y) => G22NegativeAt(g22, x, y));
    if g22Negative {
      return Err(CovariantG22Negative);
    }
    r := Ok(JacobianFields(j, BxyField(sqrt, mesh, contra, g22, j)));
  }
}
