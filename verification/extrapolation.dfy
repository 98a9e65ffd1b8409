/** The guard-cell filling of `interpolateAndExtrapolate`: after `interp_to`
    and `communicate` (not modelled: their output `interp` is an input), each
    boundary line is completed by the 4-point midpoint formula and cubic
    extrapolation, branch cuts are re-extrapolated, and the corner blocks are
    set to NaN. */
module Extrapolation {
  import opened Cells
  import opened Meshes
  import opened Results

  /** The boundary directions the mesh creates: one axis, one step. */
  predicate Unit(b: Boundary) {
    || (b.outX == 0 && (b.outY == 1 || b.outY == -1))
    || (b.outY == 0 && (b.outX == 1 || b.outX == -1))
  }

  /** The `i`-th cell of the line that starts at guard cell `(x, y)` and
      runs outwards; `i < 0` reaches back into the domain. The source
      writes `(x + i*bx, y + i*by)`; `AlongIsStep` shows it is the same cell. */
  function Along(b: Boundary, x: int, y: int, i: int): (int, int) {
    if b.outX > 0 then (x + i, y)
    else if b.outX < 0 then (x - i, y)
    else if b.outY > 0 then (x, y + i)
    else (x, y - i)
  }

  lemma AlongIsStep(b: Boundary, x: int, y: int, i: int)
    requires Unit(b)
    ensures Along(b, x, y, i) == (x + i * b.outX, y + i * b.outY)
  {
  }

  lemma AlongDistinct(b: Boundary, x: int, y: int, i: int, j: int)
    requires Unit(b) && i != j
    ensures Along(b, x, y, i) != Along(b, x, y, j)
  {
  }

  /** `extrap_start`: 1 when the missing staggered point lies on this
      boundary and must be interpolated first. */
  function ExtrapStart(loc: Location, b: Boundary): (s: int)
    ensures s == 0 || s == 1
    ensures s == 1 <==> (loc == XLow && b.outX > 0) || (loc == YLow && b.outY > 0)
  {
    if loc == XLow && b.outX > 0 then 1
    else if loc == YLow && b.outY > 0 then 1
    else 0
  }

  /** Enough points across the whole domain to extrapolate cubically. */
  predicate EnoughPoints(mesh: Mesh, b: Boundary) {
    || (b.outX != 0 && mesh.globalNx - 2 * b.width >= 3)
    || (b.outY != 0 && mesh.globalNy - 2 * b.width >= 3)
  }

  predicate TooFewLocalX(mesh: Mesh, b: Boundary) {
    b.outX != 0 && mesh.localNx == 1 && b.width == 1
  }

  predicate TooFewLocalY(mesh: Mesh, b: Boundary) {
    b.outY != 0 && mesh.localNy == 1 && b.width == 1
  }

  /** The error a boundary raises at its first point, if any. */
  function LineError(mesh: Mesh, b: Boundary): (e: Option<Error>)
    ensures e.Some? <==> EnoughPoints(mesh, b) && (TooFewLocalX(mesh, b) || TooFewLocalY(mesh, b))
    ensures e.Some? ==> e.value == (if TooFewLocalX(mesh, b) then NotEnoughPointsX else NotEnoughPointsY)
  {
    if EnoughPoints(mesh, b) && TooFewLocalX(mesh, b) then Some(NotEnoughPointsX)
    else if EnoughPoints(mesh, b) && TooFewLocalY(mesh, b) then Some(NotEnoughPointsY)
    else None
  }

  /** `(u, v)` is cell `i` of the line from `(x, y)` for some `lo <= i < hi`. */
  ghost predicate OnSegment(b: Boundary, x: int, y: int, lo: int, hi: int, u: int, v: int) {
    exists i :: lo <= i < hi && Along(b, x, y, i) == (u, v)
  }

  /** The cells one line writes: the guard cells, and the staggered point
      even when the boundary is zero cells wide. */
  function Reach(loc: Location, b: Boundary): int {
    Max(b.width, ExtrapStart(loc, b))
  }

  function GetAt(f: Field, p: (int, int)): Cell {
    Get(f, p.0, p.1)
  }

  function SetAt(f: Field, p: (int, int), c: Cell): (g: Field)
    ensures |g| == |f| && forall i :: 0 <= i < |f| ==> |g[i]| == |f[i]|
    ensures InRange(f, p.0, p.1) ==> GetAt(g, p) == c
    ensures forall q :: q != p ==> GetAt(g, q) == GetAt(f, q)
  {
    Set(f, p.0, p.1, c)
  }

  /** The midpoint value for the staggered boundary point `(x, y)`, from the
      source field on either side of the boundary face. */
  function BoundaryMidpoint(f: Field, b: Boundary, x: int, y: int): Cell {
    Midpoint(GetAt(f, Along(b, x, y, -1)), GetAt(f, Along(b, x, y, 0)),
             GetAt(f, Along(b, x, y, -2)), GetAt(f, Along(b, x, y, 1)))
  }

  lemma AlongDistinctFrom(b: Boundary, x: int, y: int, i: int)
    requires Unit(b)
    ensures forall k :: k != i ==> Along(b, x, y, k) != Along(b, x, y, i)
  {
    forall k | k != i
      ensures Along(b, x, y, k) != Along(b, x, y, i)
    {
      AlongDistinct(b, x, y, k, i);
    }
  }

  /** The cubic continuation of the three cells before cell `i`. */
  function NextCubic(f: Field, b: Boundary, x: int, y: int, i: int): Cell {
    Cubic(GetAt(f, Along(b, x, y, i - 1)), GetAt(f, Along(b, x, y, i - 2)), GetAt(f, Along(b, x, y, i - 3)))
  }

  /** Every in-range cell `lo <= k < hi` of the line is the cubic
      continuation of the three before it. */
  ghost predicate CubicFrom(f: Field, b: Boundary, x: int, y: int, lo: int, hi: int) {
    forall k :: lo <= k < hi && InRange(f, Along(b, x, y, k).0, Along(b, x, y, k).1) ==>
      GetAt(f, Along(b, x, y, k)) == NextCubic(f, b, x, y, k)
  }

  lemma CubicStep(f: Field, b: Boundary, x: int, y: int, lo: int, i: int)
    requires Unit(b) && lo <= i && CubicFrom(f, b, x, y, lo, i)
    ensures CubicFrom(SetAt(f, Along(b, x, y, i), NextCubic(f, b, x, y, i)), b, x, y, lo, i + 1)
  {
    var g := SetAt(f, Along(b, x, y, i), NextCubic(f, b, x, y, i));
    forall k | lo <= k < i + 1 && InRange(g, Along(b, x, y, k).0, Along(b, x, y, k).1)
      ensures GetAt(g, Along(b, x, y, k)) == NextCubic(g, b, x, y, k)
    {
      AlongDistinct(b, x, y, k - 1, i);
      AlongDistinct(b, x, y, k - 2, i);
      AlongDistinct(b, x, y, k - 3, i);
      if k < i {
        AlongDistinct(b, x, y, k, i);
        assert InRange(f, Along(b, x, y, k).0, Along(b, x, y, k).1);
      }
    }
  }

  /** `3*r[i-1] - 3*r[i-2] + r[i-3]` into cells `lo <= i < hi` of the line. */
  method ExtrapolateLine(start: Field, b: Boundary, x: int, y: int, lo: int, hi: int) returns (out: Field)
    requires Unit(b)
    ensures SameShape(out, start)
    ensures forall u, v :: !OnSegment(b, x, y, lo, hi, u, v) ==> Get(out, u, v) == Get(start, u, v)
    ensures CubicFrom(out, b, x, y, lo, hi)
  {
    out := start;
    var i := lo;
    while i < hi
      invariant lo <= i <= Max(lo, hi)
      invariant SameShape(out, start)
      invariant forall u, v :: !OnSegment(b, x, y, lo, i, u, v) ==> Get(out, u, v) == Get(start, u, v)
      invariant CubicFrom(out, b, x, y, lo, i)
    {
      CubicStep(out, b, x, y, lo, i);
      out := SetAt(out, Along(b, x, y, i), NextCubic(out, b, x, y, i));
      i := i + 1;
    }
  }

  /** On a rectangular field the in-range cells of a line are contiguous. */
  lemma LineConvex(f: Field, ny: int, b: Boundary, x: int, y: int, i: int, j: int, m: int)
    requires Unit(b) && IsGrid(f, |f|, ny) && i <= m <= j
    requires InRange(f, Along(b, x, y, i).0, Along(b, x, y, i).1)
    requires InRange(f, Along(b, x, y, j).0, Along(b, x, y, j).1)
    ensures InRange(f, Along(b, x, y, m).0, Along(b, x, y, m).1)
  {
  }

  /** Cubic extrapolation along a line continues the quadratic through its
      last three interior cells into every guard cell on the array. */
  lemma {:induction false} QuadraticContinues(f: Field, ny: int, b: Boundary, x: int, y: int, hi: int,
                                              p: real, q: real, r: real, k: int)
    requires Unit(b) && IsGrid(f, |f|, ny) && CubicFrom(f, b, x, y, 0, hi)
    requires forall j :: -3 <= j < 0 ==> GetAt(f, Along(b, x, y, j)) == Val(Quad(p, q, r, j as real))
    requires 0 <= k < hi && InRange(f, Along(b, x, y, k).0, Along(b, x, y, k).1)
    ensures GetAt(f, Along(b, x, y, k)) == Val(Quad(p, q, r, k as real))
    decreases k
  {
    assert GetAt(f, Along(b, x, y, -1)).Val?;
    forall j | k - 3 <= j < k
      ensures GetAt(f, Along(b, x, y, j)) == Val(Quad(p, q, r, j as real))
    {
      if j >= 0 {
        LineConvex(f, ny, b, x, y, -1, k, j);
        QuadraticContinues(f, ny, b, x, y, hi, p, q, r, j);
      }
    }
    QuadraticStep(f, b, x, y, p, q, r, k);
  }

  /** One step of `QuadraticContinues`: a cell that is the cubic
      continuation of three quadratic values continues the quadratic. */
  lemma QuadraticStep(f: Field, b: Boundary, x: int, y: int, p: real, q: real, r: real, k: int)
    requires GetAt(f, Along(b, x, y, k)) == NextCubic(f, b, x, y, k)
    requires GetAt(f, Along(b, x, y, k - 1)) == Val(Quad(p, q, r, (k - 1) as real))
    requires GetAt(f, Along(b, x, y, k - 2)) == Val(Quad(p, q, r, (k - 2) as real))
    requires GetAt(f, Along(b, x, y, k - 3)) == Val(Quad(p, q, r, (k - 3) as real))
    ensures GetAt(f, Along(b, x, y, k)) == Val(Quad(p, q, r, k as real))
  {
    var t := k as real;
    assert (k - 1) as real == t - 1.0 && (k - 2) as real == t - 2.0 && (k - 3) as real == t - 3.0;
    CubicContinuesQuadratic(p, q, r, t);
  }

  /** Cells `lo <= i < hi` of the line take the value of cell `-1`, the last
      interior cell. */
  method CopyLine(start: Field, b: Boundary, x: int, y: int, lo: int, hi: int) returns (out: Field)
    requires Unit(b) && 0 <= lo
    ensures SameShape(out, start)
    ensures forall u, v :: !OnSegment(b, x, y, lo, hi, u, v) ==> Get(out, u, v) == Get(start, u, v)
    ensures forall i :: lo <= i < hi && InRange(start, Along(b, x, y, i).0, Along(b, x, y, i).1) ==>
      GetAt(out, Along(b, x, y, i)) == GetAt(start, Along(b, x, y, -1))
  {
    out := start;
    AlongDistinctFrom(b, x, y, -1);
    var i := lo;
    while i < hi
      invariant lo <= i <= Max(lo, hi)
      invariant SameShape(out, start)
      invariant forall u, v :: !OnSegment(b, x, y, lo, i, u, v) ==> Get(out, u, v) == Get(start, u, v)
      invariant forall k :: lo <= k < i && InRange(start, Along(b, x, y, k).0, Along(b, x, y, k).1) ==>
        GetAt(out, Along(b, x, y, k)) == GetAt(start, Along(b, x, y, -1))
    {
      AlongDistinctFrom(b, x, y, i);
      out := SetAt(out, Along(b, x, y, i), GetAt(out, Along(b, x, y, -1)));
      i := i + 1;
    }
  }

  lemma SubSegment(b: Boundary, x: int, y: int, lo: int, hi: int, lo2: int, hi2: int)
    requires lo2 <= lo && hi <= hi2
    ensures forall u, v :: OnSegment(b, x, y, lo, hi, u, v) ==> OnSegment(b, x, y, lo2, hi2, u, v)
  {
    forall u, v | OnSegment(b, x, y, lo, hi, u, v)
      ensures OnSegment(b, x, y, lo2, hi2, u, v)
    {
      var i :| lo <= i < hi && Along(b, x, y, i) == (u, v);
    }
  }

  lemma SameShapeInRange(f: Field, g: Field)
    requires SameShape(f, g)
    ensures forall u, v :: InRange(f, u, v) <==> InRange(g, u, v)
  {
  }

  /** The staggered boundary point, when `extrap_start` is 1. */
  function InterpolateStart(f: Field, result: Field, loc: Location, b: Boundary, x: int, y: int): (mid: Field)
    requires Unit(b)
    ensures SameShape(mid, result)
    ensures forall u, v :: !OnSegment(b, x, y, 0, ExtrapStart(loc, b), u, v) ==> Get(mid, u, v) == Get(result, u, v)
    ensures ExtrapStart(loc, b) == 1 && InRange(result, x, y) ==> Get(mid, x, y) == BoundaryMidpoint(f, b, x, y)
  {
    if ExtrapStart(loc, b) == 1 then
      assert Along(b, x, y, 0) == (x, y);
      Set(result, x, y, BoundaryMidpoint(f, b, x, y))
    else result
  }

  /** What one iteration of the loop over a boundary's points leaves in
      `out`, reading the source field `f` and the field `before` it started
      from: the staggered point interpolated, then each guard cell the cubic
      continuation of the three before it, or, with too few points, a copy
      of the last interior cell. */
  ghost predicate LineFilled(mesh: Mesh, f: Field, before: Field, out: Field, loc: Location, b: Boundary, x: int, y: int) {
    && (ExtrapStart(loc, b) == 1 && InRange(before, x, y) ==> Get(out, x, y) == BoundaryMidpoint(f, b, x, y))
    && (EnoughPoints(mesh, b) ==> CubicFrom(out, b, x, y, ExtrapStart(loc, b), b.width))
    && (!EnoughPoints(mesh, b) ==>
          forall i :: ExtrapStart(loc, b) <= i < b.width && InRange(before, Along(b, x, y, i).0, Along(b, x, y, i).1) ==>
            GetAt(out, Along(b, x, y, i)) == GetAt(before, Along(b, x, y, -1)))
  }

  /** One iteration of the loop over a boundary's points: the guard cells
      `(x, y) + i * (bx, by)` for `0 <= i < width`. */
  method FillLine(mesh: Mesh, f: Field, result: Field, loc: Location, b: Boundary, x: int, y: int)
    returns (r: Result<Field, Error>)
    requires Unit(b)
    ensures r.Err? <==> LineError(mesh, b).Some?
    ensures r.Err? ==> r.error == LineError(mesh, b).value
    ensures r.Ok? ==> SameShape(r.value, result)
    // Only the line's own cells change.
    ensures r.Ok? ==> forall u, v :: !OnSegment(b, x, y, 0, Reach(loc, b), u, v) ==> Get(r.value, u, v) == Get(result, u, v)
    ensures r.Ok? ==> LineFilled(mesh, f, result, r.value, loc, b, x, y)
  {
    var s := ExtrapStart(loc, b);
    var mid := InterpolateStart(f, result, loc, b, x, y);
    if EnoughPoints(mesh, b) {
      if TooFewLocalX(mesh, b) {
        return Err(NotEnoughPointsX);
      }
      if TooFewLocalY(mesh, b) {
        return Err(NotEnoughPointsY);
      }
    }
    var out;
    if EnoughPoints(mesh, b) {
      out := ExtrapolateLine(mid, b, x, y, s, b.width);
    } else {
      out := CopyLine(mid, b, x, y, s, b.width);
      AlongDistinctFrom(b, x, y, -1);
      SubSegment(b, x, y, 0, s, 0, Reach(loc, b));
    }
    SameShapeInRange(mid, result);
    SubSegment(b, x, y, 0, s, 0, Reach(loc, b));
    SubSegment(b, x, y, s, b.width, 0, Reach(loc, b));
    assert Along(b, x, y, 0) == (x, y);
    AlongDistinctFrom(b, x, y, 0);
    r := Ok(out);
  }

  /** The row (for an x-boundary) or column (for a y-boundary) a cell lies on. */
  function CrossOf(b: Boundary, u: int, v: int): int {
    if b.outX != 0 then v else u
  }

  lemma OffSegment(b: Boundary, x: int, y: int, lo: int, hi: int, u: int, v: int)
    requires Unit(b) && CrossOf(b, u, v) != CrossOf(b, x, y)
    ensures !OnSegment(b, x, y, lo, hi, u, v)
  {
  }

  /** `f` and `g` agree on the row or column `c`. */
  ghost predicate AgreeOn(f: Field, g: Field, b: Boundary, c: int) {
    forall u, v :: CrossOf(b, u, v) == c ==> Get(f, u, v) == Get(g, u, v)
  }

  /** The cubic recurrence along a line depends only on the line's own row
      or column. */
  lemma CubicFromKept(f: Field, g: Field, b: Boundary, x: int, y: int, lo: int, hi: int)
    requires Unit(b) && SameShape(f, g) && AgreeOn(f, g, b, CrossOf(b, x, y))
    requires CubicFrom(f, b, x, y, lo, hi)
    ensures CubicFrom(g, b, x, y, lo, hi)
  {
    CubicFromKeptOn(f, g, b, x, y, lo, hi);
  }

  /** The same, when `g` agrees with `f` just on the cells `lo - 3 .. hi - 1`
      of the line that the recurrence reads and writes. */
  lemma CubicFromKeptOn(f: Field, g: Field, b: Boundary, x: int, y: int, lo: int, hi: int)
    requires SameShape(f, g)
    requires forall k :: lo - 3 <= k < hi ==> GetAt(g, Along(b, x, y, k)) == GetAt(f, Along(b, x, y, k))
    requires CubicFrom(f, b, x, y, lo, hi)
    ensures CubicFrom(g, b, x, y, lo, hi)
  {
    SameShapeInRange(f, g);
    forall k | lo <= k < hi && InRange(g, Along(b, x, y, k).0, Along(b, x, y, k).1)
      ensures GetAt(g, Along(b, x, y, k)) == NextCubic(g, b, x, y, k)
    {
      assert InRange(f, Along(b, x, y, k).0, Along(b, x, y, k).1);
      assert GetAt(g, Along(b, x, y, k - 1)) == GetAt(f, Along(b, x, y, k - 1));
      assert GetAt(g, Along(b, x, y, k - 2)) == GetAt(f, Along(b, x, y, k - 2));
      assert GetAt(g, Along(b, x, y, k - 3)) == GetAt(f, Along(b, x, y, k - 3));
    }
  }

  /** A line's values depend only on its own row or column. */
  lemma LineFilledKept(mesh: Mesh, f: Field, before: Field, before2: Field, out: Field, out2: Field,
                       loc: Location, b: Boundary, x: int, y: int)
    requires Unit(b) && SameShape(out, out2) && SameShape(before, before2)
    requires AgreeOn(out, out2, b, CrossOf(b, x, y)) && AgreeOn(before, before2, b, CrossOf(b, x, y))
    requires LineFilled(mesh, f, before, out, loc, b, x, y)
    ensures LineFilled(mesh, f, before2, out2, loc, b, x, y)
  {
    SameShapeInRange(before, before2);
    SameShapeInRange(out, out2);
    assert Get(out2, x, y) == Get(out, x, y);
    assert GetAt(before2, Along(b, x, y, -1)) == GetAt(before, Along(b, x, y, -1));
    if EnoughPoints(mesh, b) {
      CubicFromKept(out, out2, b, x, y, ExtrapStart(loc, b), b.width);
    } else {
      forall k | ExtrapStart(loc, b) <= k < b.width && InRange(before2, Along(b, x, y, k).0, Along(b, x, y, k).1)
        ensures GetAt(out2, Along(b, x, y, k)) == GetAt(before2, Along(b, x, y, -1))
      {
        assert InRange(before, Along(b, x, y, k).0, Along(b, x, y, k).1);
        assert GetAt(out2, Along(b, x, y, k)) == GetAt(out, Along(b, x, y, k));
      }
    }
  }

  function LineCross(b: Boundary, n: int): int
    requires 0 <= n < |b.points|
  {
    CrossOf(b, b.points[n].0, b.points[n].1)
  }

  /** The boundary's points lie on different rows (or columns), one line
      each, as the mesh's boundary regions do. */
  ghost predicate DistinctLines(b: Boundary) {
    forall m, n :: 0 <= m < n < |b.points| ==> LineCross(b, m) != LineCross(b, n)
  }

  /** `(u, v)` is a cell of one of the first `n` lines of the boundary. */
  ghost predicate OnBoundary(b: Boundary, loc: Location, n: int, u: int, v: int) {
    exists m :: 0 <= m < n && m < |b.points| && OnSegment(b, b.points[m].0, b.points[m].1, 0, Reach(loc, b), u, v)
  }

  /** The first `n` lines of the boundary are filled in `out`. */
  ghost predicate LinesFilled(mesh: Mesh, f: Field, result: Field, out: Field, loc: Location, b: Boundary, n: int) {
    forall m :: 0 <= m < n && m < |b.points| ==> LineFilled(mesh, f, result, out, loc, b, b.points[m].0, b.points[m].1)
  }

  lemma FillStep(mesh: Mesh, f: Field, result: Field, cur: Field, next: Field, loc: Location, b: Boundary, n: int)
    requires Unit(b) && DistinctLines(b) && 0 <= n < |b.points|
    requires SameShape(cur, result) && SameShape(next, cur)
    requires forall u, v :: !OnBoundary(b, loc, n, u, v) ==> Get(cur, u, v) == Get(result, u, v)
    requires forall u, v :: !OnSegment(b, b.points[n].0, b.points[n].1, 0, Reach(loc, b), u, v) ==> Get(next, u, v) == Get(cur, u, v)
    requires LinesFilled(mesh, f, result, cur, loc, b, n)
    requires LineFilled(mesh, f, cur, next, loc, b, b.points[n].0, b.points[n].1)
    ensures LinesFilled(mesh, f, result, next, loc, b, n + 1)
    ensures forall u, v :: !OnBoundary(b, loc, n + 1, u, v) ==> Get(next, u, v) == Get(result, u, v)
  {
    var p := b.points[n];
    forall m | 0 <= m < n + 1 && m < |b.points|
      ensures LineFilled(mesh, f, result, next, loc, b, b.points[m].0, b.points[m].1)
    {
      var q := b.points[m];
      if m < n {
        forall u, v | CrossOf(b, u, v) == LineCross(b, m)
          ensures Get(next, u, v) == Get(cur, u, v)
        {
          assert LineCross(b, m) != LineCross(b, n);
          OffSegment(b, p.0, p.1, 0, Reach(loc, b), u, v);
        }
        LineFilledKept(mesh, f, result, result, cur, next, loc, b, q.0, q.1);
      } else {
        forall u, v | CrossOf(b, u, v) == LineCross(b, n)
          ensures Get(cur, u, v) == Get(result, u, v)
        {
          forall k | 0 <= k < n
            ensures !OnSegment(b, b.points[k].0, b.points[k].1, 0, Reach(loc, b), u, v)
          {
            assert LineCross(b, k) != LineCross(b, n);
            OffSegment(b, b.points[k].0, b.points[k].1, 0, Reach(loc, b), u, v);
          }
        }
        LineFilledKept(mesh, f, cur, result, next, next, loc, b, p.0, p.1);
      }
    }
    forall u, v | !OnBoundary(b, loc, n + 1, u, v)
      ensures Get(next, u, v) == Get(result, u, v)
    {
      assert !OnSegment(b, p.0, p.1, 0, Reach(loc, b), u, v);
      assert !OnBoundary(b, loc, n, u, v);
    }
  }

  /** The loop over one boundary's points. The error is raised at the first
      point, so a boundary without points never raises it. */
  method FillBoundary(mesh: Mesh, f: Field, result: Field, loc: Location, b: Boundary)
    returns (r: Result<Field, Error>)
    requires Unit(b)
    ensures r.Err? <==> |b.points| > 0 && LineError(mesh, b).Some?
    ensures r.Err? ==> r.error == LineError(mesh, b).value
    ensures r.Ok? ==> SameShape(r.value, result)
    ensures r.Ok? ==> forall u, v :: !OnBoundary(b, loc, |b.points|, u, v) ==> Get(r.value, u, v) == Get(result, u, v)
    ensures r.Ok? && DistinctLines(b) ==> LinesFilled(mesh, f, result, r.value, loc, b, |b.points|)
  {
    var cur := result;
    var n := 0;
    while n < |b.points|
      invariant 0 <= n <= |b.points|
      invariant n > 0 ==> LineError(mesh, b).None?
      invariant SameShape(cur, result)
      invariant forall u, v :: !OnBoundary(b, loc, n, u, v) ==> Get(cur, u, v) == Get(result, u, v)
      invariant DistinctLines(b) ==> LinesFilled(mesh, f, result, cur, loc, b, n)
    {
      var p := b.points[n];
      var line := FillLine(mesh, f, cur, loc, b, p.0, p.1);
      if line.Err? {
        return Err(line.error);
      }
      if DistinctLines(b) {
        FillStep(mesh, f, result, cur, line.value, loc, b, n);
      } else {
        forall u, v | !OnBoundary(b, loc, n + 1, u, v)
          ensures Get(line.value, u, v) == Get(result, u, v)
        {
          assert !OnSegment(b, p.0, p.1, 0, Reach(loc, b), u, v);
          assert !OnBoundary(b, loc, n, u, v);
        }
      }
      cur := line.value;
      n := n + 1;
    }
    r := Ok(cur);
  }
}
