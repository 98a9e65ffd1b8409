/** `interpolateAndExtrapolate` as a whole: every boundary region's lines,
    then the branch cuts, then the corner blocks. */
module GuardCells {
  import opened Cells
  import opened Meshes
  import opened Results
  import opened Extrapolation
  import opened BranchCuts

  /** The error a boundary region raises: only at its first point. */
  function BoundaryError(mesh: Mesh, b: Boundary): (e: Option<Error>)
    ensures e.Some? <==> |b.points| > 0 && LineError(mesh, b).Some?
  {
    if |b.points| > 0 then LineError(mesh, b) else None
  }

  /** The error of the first region, in the mesh's order, that raises one. */
  function FirstError(mesh: Mesh, bs: seq<Boundary>): (e: Option<Error>)
    ensures e.None? <==> forall k :: 0 <= k < |bs| ==> BoundaryError(mesh, bs[k]).None?
    ensures e.Some? ==> exists k :: (0 <= k < |bs| && BoundaryError(mesh, bs[k]) == e &&
      forall m :: 0 <= m < k ==> BoundaryError(mesh, bs[m]).None?)
  {
    if |bs| == 0 then None
    else
      var e := FirstError(mesh, bs[..|bs| - 1]);
      assert forall k :: 0 <= k < |bs| - 1 ==> bs[..|bs| - 1][k] == bs[k];
      if e.Some? then e else BoundaryError(mesh, bs[|bs| - 1])
  }

  /** `(u, v)` is a cell of one of the lines of region `k`. */
  ghost predicate OnRegion(mesh: Mesh, loc: Location, k: int, u: int, v: int)
    requires 0 <= k < |mesh.boundaries|
  {
    OnBoundary(mesh.boundaries[k], loc, |mesh.boundaries[k].points|, u, v)
  }

  /** `(u, v)` is a cell of one of the lines of the first `n` regions. */
  ghost predicate OnRegions(mesh: Mesh, loc: Location, n: int, u: int, v: int) {
    exists k :: 0 <= k < n && k < |mesh.boundaries| && OnRegion(mesh, loc, k, u, v)
  }

  /** The mesh's regions step one cell along one axis. */
  predicate UnitRegions(mesh: Mesh) {
    forall k :: 0 <= k < |mesh.boundaries| ==> Unit(mesh.boundaries[k])
  }

  /** The loop over the mesh's boundary regions. */
  method FillBoundaries(mesh: Mesh, f: Field, result: Field, loc: Location) returns (r: Result<Field, Error>)
    requires UnitRegions(mesh)
    ensures r.Err? <==> FirstError(mesh, mesh.boundaries).Some?
    ensures r.Err? ==> r.error == FirstError(mesh, mesh.boundaries).value
    ensures r.Ok? ==> SameShape(r.value, result)
    ensures r.Ok? ==> forall u, v :: !OnRegions(mesh, loc, |mesh.boundaries|, u, v) ==> Get(r.value, u, v) == Get(result, u, v)
  {
    var bs := mesh.boundaries;
    var cur := result;
    var n := 0;
    while n < |bs|
      invariant 0 <= n <= |bs|
      invariant FirstError(mesh, bs[..n]).None?
      invariant SameShape(cur, result)
      invariant forall u, v :: !OnRegions(mesh, loc, n, u, v) ==> Get(cur, u, v) == Get(result, u, v)
    {
      assert bs[..n + 1][..n] == bs[..n];
      var step := FillBoundary(mesh, f, cur, loc, bs[n]);
      if step.Err? {
        assert FirstError(mesh, bs[..n + 1]) == BoundaryError(mesh, bs[n]);
        PrefixError(mesh, bs, n + 1);
        return Err(step.error);
      }
      forall u, v | !OnRegions(mesh, loc, n + 1, u, v)
        ensures Get(step.value, u, v) == Get(result, u, v)
      {
        assert !OnRegion(mesh, loc, n, u, v);
        assert !OnRegions(mesh, loc, n, u, v);
      }
      cur := step.value;
      n := n + 1;
    }
    assert bs[..n] == bs;
    r := Ok(cur);
  }

  /** A region raising an error decides the outcome over any longer list. */
  lemma PrefixError(mesh: Mesh, bs: seq<Boundary>, n: int)
    requires 0 <= n <= |bs| && FirstError(mesh, bs[..n]).Some?
    ensures FirstError(mesh, bs) == FirstError(mesh, bs[..n])
    decreases |bs| - n
  {
    if n < |bs| {
      assert bs[..n + 1][..n] == bs[..n];
      PrefixError(mesh, bs, n + 1);
    } else {
      assert bs[..n] == bs;
    }
  }

  /** `i` is one of the first `s` indices from either end of `0 .. n - 1`. */
  predicate NearEnd(i: int, s: int, n: int) {
    (0 <= i < s) || (0 <= n - 1 - i < s)
  }

  /** The corner blocks: within `xstart` of an x-end and `ystart` of a y-end. */
  predicate Corner(mesh: Mesh, u: int, v: int) {
    NearEnd(u, mesh.xstart, mesh.localNx) && NearEnd(v, mesh.ystart, mesh.localNy)
  }

  /** `(u, v)` is one of the four cells written at iteration `(i, j)`. */
  predicate Hit(mesh: Mesh, u: int, v: int, i: int, j: int) {
    (u == i || u == mesh.localNx - 1 - i) && (v == j || v == mesh.localNy - 1 - j)
  }

  /** `(u, v)` was written by an iteration before `(ii, jj)`. */
  ghost predicate Done(mesh: Mesh, u: int, v: int, ii: int, jj: int) {
    exists i, j :: 0 <= i < mesh.xstart && 0 <= j < mesh.ystart && (i < ii || (i == ii && j < jj)) && Hit(mesh, u, v, i, j)
  }

  lemma DoneStep(mesh: Mesh, u: int, v: int, i: int, j: int)
    requires 0 <= i < mesh.xstart && 0 <= j < mesh.ystart
    ensures Done(mesh, u, v, i, j + 1) <==> Done(mesh, u, v, i, j) || Hit(mesh, u, v, i, j)
  {
    if Done(mesh, u, v, i, j + 1) && !Hit(mesh, u, v, i, j) {
      var i', j' :| 0 <= i' < mesh.xstart && 0 <= j' < mesh.ystart && (i' < i || (i' == i && j' < j + 1)) && Hit(mesh, u, v, i', j');
      assert (i', j') != (i, j);
    }
  }

  lemma DoneRow(mesh: Mesh, u: int, v: int, i: int)
    requires 0 <= i < mesh.xstart
    ensures Done(mesh, u, v, i + 1, 0) <==> Done(mesh, u, v, i, Max(mesh.ystart, 0))
  {
    if Done(mesh, u, v, i + 1, 0) {
      var i', j' :| 0 <= i' < mesh.xstart && 0 <= j' < mesh.ystart && (i' < i + 1 || (i' == i + 1 && j' < 0)) && Hit(mesh, u, v, i', j');
      assert Done(mesh, u, v, i, Max(mesh.ystart, 0));
    }
    if Done(mesh, u, v, i, Max(mesh.ystart, 0)) {
      var i', j' :| 0 <= i' < mesh.xstart && 0 <= j' < mesh.ystart && (i' < i || (i' == i && j' < Max(mesh.ystart, 0))) && Hit(mesh, u, v, i', j');
      assert Done(mesh, u, v, i + 1, 0);
    }
  }

  lemma DoneAll(mesh: Mesh, u: int, v: int)
    ensures Done(mesh, u, v, Max(mesh.xstart, 0), 0) <==> Corner(mesh, u, v)
  {
    if Corner(mesh, u, v) {
      var i := if 0 <= u < mesh.xstart then u else mesh.localNx - 1 - u;
      var j := if 0 <= v < mesh.ystart then v else mesh.localNy - 1 - v;
      assert Hit(mesh, u, v, i, j);
    }
  }

  /** The corner loops: each corner block of `xstart * ystart` cells becomes
      NaN, whatever communication or extrapolation left there. */
  method SetCorners(mesh: Mesh, result: Field) returns (out: Field)
    ensures SameShape(out, result)
    ensures forall u, v :: Get(out, u, v) == if Corner(mesh, u, v) then NaN else Get(result, u, v)
  {
    out := result;
    var i := 0;
    while i < mesh.xstart
      invariant 0 <= i <= Max(mesh.xstart, 0)
      invariant SameShape(out, result)
      invariant forall u, v :: Get(out, u, v) == if Done(mesh, u, v, i, 0) then NaN else Get(result, u, v)
    {
      var j := 0;
      while j < mesh.ystart
        invariant 0 <= j <= Max(mesh.ystart, 0)
        invariant SameShape(out, result)
        invariant forall u, v :: Get(out, u, v) == if Done(mesh, u, v, i, j) then NaN else Get(result, u, v)
      {
        out := Set(out, i, j, NaN);
        out := Set(out, i, mesh.localNy - 1 - j, NaN);
        out := Set(out, mesh.localNx - 1 - i, j, NaN);
        out := Set(out, mesh.localNx - 1 - i, mesh.localNy - 1 - j, NaN);
        forall u, v
          ensures Get(out, u, v) == if Done(mesh, u, v, i, j + 1) then NaN else Get(result, u, v)
        {
          DoneStep(mesh, u, v, i, j);
        }
        j := j + 1;
      }
      forall u, v
        ensures Get(out, u, v) == if Done(mesh, u, v, i + 1, 0) then NaN else Get(result, u, v)
      {
        DoneRow(mesh, u, v, i);
      }
      i := i + 1;
    }
    forall u, v
      ensures Get(out, u, v) == if Corner(mesh, u, v) then NaN else Get(result, u, v)
    {
      DoneAll(mesh, u, v);
    }
  }

  /** A region's points are guard cells on its own side of the interior, so
      its lines run away from the interior. */
  predicate Outward(mesh: Mesh, b: Boundary) {
    forall n :: 0 <= n < |b.points| ==>
      && (b.outX > 0 ==> b.points[n].0 > mesh.xend)
      && (b.outX < 0 ==> b.points[n].0 < mesh.xstart)
      && (b.outY > 0 ==> b.points[n].1 > mesh.yend)
      && (b.outY < 0 ==> b.points[n].1 < mesh.ystart)
  }

  predicate OutwardRegions(mesh: Mesh) {
    forall k :: 0 <= k < |mesh.boundaries| ==> Outward(mesh, mesh.boundaries[k])
  }

  lemma RegionsMissInterior(mesh: Mesh, loc: Location, u: int, v: int)
    requires UnitRegions(mesh) && OutwardRegions(mesh) && Interior(mesh, u, v)
    ensures !OnRegions(mesh, loc, |mesh.boundaries|, u, v)
  {
    forall k | 0 <= k < |mesh.boundaries|
      ensures !OnRegion(mesh, loc, k, u, v)
    {
      var b := mesh.boundaries[k];
      forall n | 0 <= n < |b.points|
        ensures !OnSegment(b, b.points[n].0, b.points[n].1, 0, Reach(loc, b), u, v)
      {
        forall i | 0 <= i < Reach(loc, b)
          ensures Along(b, b.points[n].0, b.points[n].1, i) != (u, v)
        {
        }
      }
    }
  }

  /** The three steps of `interpolateAndExtrapolate` in order, with the rows
      of the branch-cut step as a parameter. */
  method Assemble(mesh: Mesh, f: Field, interp: Field, loc: Location, extrapAtCut: bool, rows: CutRows)
    returns (r: Result<Field, Error>)
    requires UnitRegions(mesh)
    requires loc == YLow ==> rows.midRow < rows.firstUp
    ensures r.Err? <==> FirstError(mesh, mesh.boundaries).Some?
    ensures r.Err? ==> r.error == FirstError(mesh, mesh.boundaries).value
    ensures r.Ok? ==> SameShape(r.value, interp)
    // The corner blocks are NaN.
    ensures r.Ok? ==> forall u, v :: Corner(mesh, u, v) ==> Get(r.value, u, v) == NaN
    // Only boundary lines, cut cells and corners change.
    ensures r.Ok? ==> forall u, v ::
      !Corner(mesh, u, v) && !OnRegions(mesh, loc, |mesh.boundaries|, u, v) &&
      !(extrapAtCut && CutCell(mesh, loc, rows, u, v)) ==>
        Get(r.value, u, v) == Get(interp, u, v)
  {
    var filled := FillBoundaries(mesh, f, interp, loc);
    if filled.Err? {
      return Err(filled.error);
    }
    var cut := filled.value;
    if extrapAtCut {
      cut := BranchCut(mesh, f, cut, loc, rows);
    }
    var out := SetCorners(mesh, cut);
    r := Ok(out);
  }

  /** `interpolateAndExtrapolate(f, location, extrap_at_branch_cut)`, given
      `interp`, the interpolated and communicated field, with the branch-cut
      rows the source writes. Of the interior, only row `yend` of an
      upper-cut column can change (see Findings). */
  method InterpolateAndExtrapolate(mesh: Mesh, f: Field, interp: Field, loc: Location, extrapAtCut: bool)
    returns (r: Result<Field, Error>)
    requires UnitRegions(mesh)
    ensures r.Err? <==> FirstError(mesh, mesh.boundaries).Some?
    ensures r.Err? ==> r.error == FirstError(mesh, mesh.boundaries).value
    ensures r.Ok? ==> SameShape(r.value, interp)
    ensures r.Ok? ==> forall u, v :: Corner(mesh, u, v) ==> Get(r.value, u, v) == NaN
    ensures r.Ok? ==> forall u, v ::
      !Corner(mesh, u, v) && !OnRegions(mesh, loc, |mesh.boundaries|, u, v) &&
      !(extrapAtCut && CutCell(mesh, loc, AsWrittenRows(mesh, loc), u, v)) ==>
        Get(r.value, u, v) == Get(interp, u, v)
    ensures r.Ok? && OutwardRegions(mesh) ==> forall u, v ::
      Interior(mesh, u, v) && !Corner(mesh, u, v) && !(extrapAtCut && u in mesh.cutUp && v == mesh.yend) ==>
        Get(r.value, u, v) == Get(interp, u, v)
  {
    r := Assemble(mesh, f, interp, loc, extrapAtCut, AsWrittenRows(mesh, loc));
    if r.Ok? && OutwardRegions(mesh) {
      forall u, v | Interior(mesh, u, v) && !Corner(mesh, u, v) && !(extrapAtCut && u in mesh.cutUp && v == mesh.yend)
        ensures Get(r.value, u, v) == Get(interp, u, v)
      {
        RegionsMissInterior(mesh, loc, u, v);
        if CutCell(mesh, loc, AsWrittenRows(mesh, loc), u, v) {
          AsWrittenCutInterior(mesh, loc, u, v);
        }
      }
    }
  }

  /** `interpolateAndExtrapolate` with the branch-cut rows mirrored from the
      lower side: the whole interior keeps the interpolated values. */
  method InterpolateAndExtrapolateCorrected(mesh: Mesh, f: Field, interp: Field, loc: Location, extrapAtCut: bool)
    returns (r: Result<Field, Error>)
    requires UnitRegions(mesh)
    ensures r.Err? <==> FirstError(mesh, mesh.boundaries).Some?
    ensures r.Err? ==> r.error == FirstError(mesh, mesh.boundaries).value
    ensures r.Ok? ==> SameShape(r.value, interp)
    ensures r.Ok? ==> forall u, v :: Corner(mesh, u, v) ==> Get(r.value, u, v) == NaN
    ensures r.Ok? ==> forall u, v ::
      !Corner(mesh, u, v) && !OnRegions(mesh, loc, |mesh.boundaries|, u, v) &&
      !(extrapAtCut && CutCell(mesh, loc, CorrectedRows(mesh, loc), u, v)) ==>
        Get(r.value, u, v) == Get(interp, u, v)
    ensures r.Ok? && OutwardRegions(mesh) ==> forall u, v ::
      Interior(mesh, u, v) && !Corner(mesh, u, v) ==> Get(r.value, u, v) == Get(interp, u, v)
  {
    r := Assemble(mesh, f, interp, loc, extrapAtCut, CorrectedRows(mesh, loc));
    if r.Ok? && OutwardRegions(mesh) {
      forall u, v | Interior(mesh, u, v) && !Corner(mesh, u, v)
        ensures Get(r.value, u, v) == Get(interp, u, v)
      {
        RegionsMissInterior(mesh, loc, u, v);
        CorrectedCutKeepsInterior(mesh, loc, u, v);
      }
    }
  }
}
