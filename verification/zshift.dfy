/** The branch-cut correction of `zShift`: guard cells across a cut see the
    field line after one more toroidal turn, so `ShiftAngle` is subtracted
    below a lower cut and added above an upper one. The source applies it
    after reading `zShift` from the grid, after interpolating it to a
    staggered location, and after interpolating it to the XY corner. */
module ZShifts {
  import opened Cells
  import opened Meshes

  /** `ShiftAngle` is either absent (empty) or has an entry for every cut
      column the correction reads. */
  predicate Covers(mesh: Mesh, shift: seq<real>) {
    |shift| > 0 ==> forall x :: 0 <= x < mesh.localNx && (x in mesh.cutDown || x in mesh.cutUp) ==> x < |shift|
  }

  predicate LowerGuard(mesh: Mesh, x: int, y: int) {
    0 <= x < mesh.localNx && x in mesh.cutDown && 0 <= y < mesh.ystart
  }

  predicate UpperGuard(mesh: Mesh, x: int, y: int) {
    0 <= x < mesh.localNx && x in mesh.cutUp && mesh.yend + 1 <= y < mesh.localNy
  }

  /** The amount added to `zShift(x, y)`. */
  function Offset(mesh: Mesh, shift: seq<real>, x: int, y: int): real
    requires Covers(mesh, shift) && |shift| > 0
  {
    (if LowerGuard(mesh, x, y) then -shift[x] else 0.0) + (if UpperGuard(mesh, x, y) then shift[x] else 0.0)
  }

  /** `zShift(x, y) += d`; a NaN stays NaN. */
  function Shifted(c: Cell, d: real): (r: Cell)
    ensures r.Val? <==> c.Val?
    ensures r.Val? ==> r.v - d == c.v
  {
    if c.Val? then Val(c.v + d) else NaN
  }

  /** The correction loops over `0 <= x < LocalNx`. */
  function CorrectZShift(mesh: Mesh, z: Field, shift: seq<real>): (r: Field)
    requires Covers(mesh, shift)
    ensures SameShape(r, z)
    // Without a ShiftAngle nothing changes.
    ensures |shift| == 0 ==> r == z
    // The interior rows never change.
    ensures forall x, y :: mesh.ystart <= y <= mesh.yend ==> Get(r, x, y) == Get(z, x, y)
    // Neither do columns without a cut, or rows outside the guard cells.
    ensures forall x, y :: !LowerGuard(mesh, x, y) && !UpperGuard(mesh, x, y) ==> Get(r, x, y) == Get(z, x, y)
    // Below a lower cut the angle is subtracted, above an upper cut added.
    ensures forall x, y :: LowerGuard(mesh, x, y) && !UpperGuard(mesh, x, y) && |shift| > 0 ==>
      Get(r, x, y) == Shifted(Get(z, x, y), -shift[x])
    ensures forall x, y :: UpperGuard(mesh, x, y) && !LowerGuard(mesh, x, y) && |shift| > 0 ==>
      Get(r, x, y) == Shifted(Get(z, x, y), shift[x])
  {
    if |shift| == 0 then z
    else seq(|z|, x requires 0 <= x < |z| => seq(|z[x]|, y requires 0 <= y < |z[x]| => Shifted(z[x][y], Offset(mesh, shift, x, y))))
  }

  function Negated(shift: seq<real>): (r: seq<real>)
    ensures |r| == |shift| && forall x :: 0 <= x < |shift| ==> r[x] == -shift[x]
  {
    seq(|shift|, x requires 0 <= x < |shift| => -shift[x])
  }

  /** Applying the correction with the opposite angle undoes it. */
  lemma CorrectionUndone(mesh: Mesh, z: Field, shift: seq<real>)
    requires Covers(mesh, shift)
    ensures CorrectZShift(mesh, CorrectZShift(mesh, z, shift), Negated(shift)) == z
  {
    var once := CorrectZShift(mesh, z, shift);
    var back := CorrectZShift(mesh, once, Negated(shift));
    if |shift| > 0 {
      forall x, y
        ensures Get(back, x, y) == Get(z, x, y)
      {
        if InRange(z, x, y) {
          assert Offset(mesh, Negated(shift), x, y) == -Offset(mesh, shift, x, y);
          assert Get(once, x, y) == Shifted(Get(z, x, y), Offset(mesh, shift, x, y));
        }
      }
      FieldsEqual(back, z);
    }
  }
}
