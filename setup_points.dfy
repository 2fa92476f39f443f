/** The point-list side of `fracture_cell_setup.py`: limiting a point source,
    random points inside the bounding box, anchoring grease-pencil stroke
    points, and the empty-list check in front of the cell builder.

    Randomness is a parameter: `random.shuffle` is the permuted list it leaves
    behind, and every `random()` draw behind `uniform` is a given fraction in
    [0, 1]. */
module SetupPoints {
  import opened Wrappers
  import opened Geometry
  import opened Sorting
  import opened CellCalc

  // ---------------------------------------------------------------------------
  // `_limit_source`

  /** `_limit_source(points, limit)`, where `shuffled` is `points` after
      `random.shuffle`: a non-zero limit below the length truncates the
      shuffled list to exactly `limit` entries, all taken from the input;
      anything else returns the list untouched. */
  function LimitSource<T>(points: seq<T>, limit: nat, shuffled: seq<T>): (r: seq<T>)
    requires multiset(shuffled) == multiset(points)
    ensures |r| == if limit != 0 && limit < |points| then limit else |points|
    ensures multiset(r) <= multiset(points)
    ensures limit == 0 || |points| <= limit ==> r == points
  {
    if limit != 0 && limit < |points| then
      assert |shuffled| == |points| by {
        assert |multiset(shuffled)| == |multiset(points)|;
      }
      assert shuffled == shuffled[..limit] + shuffled[limit..];
      shuffled[..limit]
    else points
  }

  // ---------------------------------------------------------------------------
  // `points_from_random`

  /** `random.uniform(a, b)` for the draw `t` of `random()`. */
  function Uniform(a: real, b: real, t: real): real
  {
    a + (b - a) * t
  }

  /** A draw in [0, 1] lands between the bounds. */
  lemma UniformWithin(a: real, b: real, t: real)
    requires a <= b && 0.0 <= t <= 1.0
    ensures a <= Uniform(a, b, t) <= b
  {
    MulMonotone(b - a, 0.0, t);
    MulMonotone(b - a, t, 1.0);
  }

  predicate UnitDraw(f: Vec3)
  {
    0.0 <= f.x <= 1.0 && 0.0 <= f.y <= 1.0 && 0.0 <= f.z <= 1.0
  }

  /** The random point of draw `f` in the box `b`. */
  function RandomPoint(b: Box, f: Vec3): SeedPoint
  {
    SeedPoint(Vec3(Uniform(b.lo.x, b.hi.x, f.x), Uniform(b.lo.y, b.hi.y, f.y),
                   Uniform(b.lo.z, b.hi.z, f.z)), Random)
  }

  /** A draw in the unit cube lands in the box. */
  lemma RandomPointInBox(b: Box, f: Vec3)
    requires b.lo.x <= b.hi.x && b.lo.y <= b.hi.y && b.lo.z <= b.hi.z
    requires UnitDraw(f)
    ensures InBox(RandomPoint(b, f).pos, b) && RandomPoint(b, f).origin == Random
  {
    UniformWithin(b.lo.x, b.hi.x, f.x);
    UniformWithin(b.lo.y, b.hi.y, f.y);
    UniformWithin(b.lo.z, b.hi.z, f.z);
  }

  /** `points_from_random(obj, verts)` with `count` = `source_random`: exactly
      `count` points tagged `Random`, each inside the per-axis [min, max] of
      `verts`; `min` of no vertices raises. */
  method RandomPoints(verts: seq<Vec3>, count: nat, draws: seq<Vec3>)
    returns (r: Result<seq<SeedPoint>, FractureError>)
    requires |draws| == count
    requires forall k :: 0 <= k < |draws| ==> UnitDraw(draws[k])
    ensures r.Err? <==> verts == []
    ensures r.Err? ==> r.error == EmptyVertices
    ensures r.Ok? ==> var b := Bounds(verts, 0.0).value;
      && |r.value| == count
      && forall k :: 0 <= k < count ==>
           r.value[k] == RandomPoint(b, draws[k]) && r.value[k].origin == Random
           && InBox(r.value[k].pos, b)
  {
    var bounds := Bounds(verts, 0.0);
    if bounds.Err? {
      return Err(bounds.error);
    }
    var b := bounds.value;
    BoundsOrdered(verts, 0.0);
    var p := DrawPoints(b, draws);
    forall k | 0 <= k < count
      ensures InBox(p[k].pos, b) && p[k].origin == Random
    {
      RandomPointInBox(b, draws[k]);
    }
    return Ok(p);
  }

  /** The loop of `points_from_random`: one point per draw, in draw order. */
  method DrawPoints(b: Box, draws: seq<Vec3>) returns (p: seq<SeedPoint>)
    ensures |p| == |draws|
    ensures forall k :: 0 <= k < |draws| ==> p[k] == RandomPoint(b, draws[k])
  {
    p := [];
    for i := 0 to |draws|
      invariant |p| == i
      invariant forall k :: 0 <= k < i ==> p[k] == RandomPoint(b, draws[k])
    {
      p := p + [RandomPoint(b, draws[i])];
    }
  }

  // ---------------------------------------------------------------------------
  // Grease-pencil anchoring

  /** The point a stroke point `lp` becomes once `c` is its nearest point:
      pushed away from `c` by half the gap between them. */
  function AnchorPoint(lp: SeedPoint, c: SeedPoint): SeedPoint
  {
    SeedPoint(Add(lp.pos, Scale(Sub(lp.pos, c.pos), 0.5)), lp.origin)
  }

  /** The point list after anchoring the stroke points `line` one by one:
      each re-sorts the list by distance to the stroke point and appends the
      anchored point. */
  function Anchored(points: seq<SeedPoint>, line: seq<SeedPoint>): (r: seq<SeedPoint>)
    requires points != []
    decreases |line|
  {
    if line == [] then points
    else
      var sorted := SortBy(points, DistanceKey(line[0].pos));
      Anchored(sorted + [AnchorPoint(line[0], sorted[0])], line[1..])
  }

  /** The grease-pencil step: with no points yet the stroke points are taken
      as they are, otherwise they are anchored. */
  function PencilPoints(points: seq<SeedPoint>, line: seq<SeedPoint>): seq<SeedPoint>
  {
    if points == [] then line else Anchored(points, line)
  }

  /** Anchoring adds exactly one point per stroke point and loses none of the
      points already there. */
  lemma {:induction false} AnchoredGrows(points: seq<SeedPoint>, line: seq<SeedPoint>)
    requires points != []
    ensures |Anchored(points, line)| == |points| + |line|
    ensures multiset(points) <= multiset(Anchored(points, line))
    decreases |line|
  {
    if line != [] {
      var sorted := SortBy(points, DistanceKey(line[0].pos));
      SortBySortsAndPermutes(points, DistanceKey(line[0].pos));
      var next := sorted + [AnchorPoint(line[0], sorted[0])];
      AnchoredGrows(next, line[1..]);
      assert multiset(next) == multiset(points) + multiset{AnchorPoint(line[0], sorted[0])};
    }
  }

  /** The point list after the grease-pencil step holds the earlier points
      plus one point per stroke point. */
  lemma PencilPointsGrow(points: seq<SeedPoint>, line: seq<SeedPoint>)
    ensures |PencilPoints(points, line)| == |points| + |line|
    ensures multiset(points) <= multiset(PencilPoints(points, line))
    ensures points == [] ==> PencilPoints(points, line) == line
  {
    if points != [] {
      AnchoredGrows(points, line);
    }
  }

  /** One anchoring step: the reference point `c` is an entry of the current
      list with no entry nearer to the stroke point, and the anchored point
      lies on the ray from `c` through the stroke point, at one and a half
      times the stroke point's distance, with the stroke point's tag. */
  lemma AnchorMovesAway(points: seq<SeedPoint>, lp: SeedPoint)
    requires points != []
    ensures var sorted := SortBy(points, DistanceKey(lp.pos));
      var c := sorted[0];
      var a := AnchorPoint(lp, c);
      && c in points
      && (forall q :: q in points ==> LengthSq(Sub(c.pos, lp.pos)) <= LengthSq(Sub(q.pos, lp.pos)))
      && Sub(a.pos, c.pos) == Scale(Sub(lp.pos, c.pos), 1.5)
      && a.origin == lp.origin
  {
    var key := DistanceKey(lp.pos);
    var sorted := SortBy(points, key);
    SortBySortsAndPermutes(points, key);
    var c := sorted[0];
    assert c in multiset(points) by {
      assert c in multiset(sorted);
    }
    forall q | q in points
      ensures LengthSq(Sub(c.pos, lp.pos)) <= LengthSq(Sub(q.pos, lp.pos))
    {
      assert q in multiset(sorted) by {
        assert q in multiset(points);
      }
      var k := PositionOf(sorted, q);
      SortedFirstIsLeast(sorted, key, k);
      DistanceKeyIsLengthSq(lp.pos, c);
      DistanceKeyIsLengthSq(lp.pos, q);
    }
  }

  /** The anchoring loop of `_points_from_object`: `points` is re-sorted by
      distance to each stroke point in turn and the anchored point appended. */
  method AnchorPencil(points: seq<SeedPoint>, line: seq<SeedPoint>) returns (out: seq<SeedPoint>)
    ensures out == PencilPoints(points, line)
  {
    if points == [] {
      return line;
    }
    out := points;
    for i := 0 to |line|
      invariant out != []
      invariant Anchored(out, line[i..]) == Anchored(points, line)
    {
      var lp := line[i];
      assert line[i..][0] == lp && line[i..][1..] == line[i + 1..];
      out := SortBy(out, DistanceKey(lp.pos));
      var closest := out[0];
      out := out + [AnchorPoint(lp, closest)];
    }
    assert line[|line|..] == [];
  }

  // ---------------------------------------------------------------------------
  // `cell_fracture_objects`

  /** The cells `cell_fracture_objects` turns into fragments: an empty point
      list fails with "No points found"; otherwise the cell builder runs with
      the default bounds margin, `cell_scale` and `margin` as the cell margin.
      Every cell is centred on one of the points. */
  function CellFractureCells(h: Host, verts: seq<Vec3>, points: seq<SeedPoint>, cellScale: Vec3,
                             margin: real): (r: Result<seq<Cell>, FractureError>)
    ensures points == [] ==> r == Err(NoPointsFound)
    ensures points != [] ==> (r.Err? <==> verts == [])
    ensures r.Ok? ==> forall c :: c in r.value ==> exists k :: 0 <= k < |points| && c.center == points[k].pos
  {
    if points == [] then Err(NoPointsFound)
    else
      var r := PointsAsCells(h, verts, points, Some(cellScale), DefaultMarginBounds, margin);
      CellsCentredOnPoints(h, verts, points, cellScale, margin);
      r
  }

  lemma CentresFromIndex(cells: seq<Cell>, idx: seq<nat>, points: seq<SeedPoint>)
    requires IndexedBy(cells, idx, points, 0)
    ensures forall c :: c in cells ==> exists k :: 0 <= k < |points| && c.center == points[k].pos
  {
    forall c | c in cells
      ensures exists k :: 0 <= k < |points| && c.center == points[k].pos
    {
      var m :| 0 <= m < |cells| && cells[m] == c;
      assert c.center == points[idx[m]].pos;
    }
  }

  /** Every cell of the builder is centred on one of its points, and it fails
      exactly when there are no vertices. */
  lemma CellsCentredOnPoints(h: Host, verts: seq<Vec3>, points: seq<SeedPoint>, cellScale: Vec3,
                             margin: real)
    ensures var r := PointsAsCells(h, verts, points, Some(cellScale), DefaultMarginBounds, margin);
      && (r.Err? <==> verts == [])
      && (r.Ok? ==> forall c :: c in r.value ==> exists k :: 0 <= k < |points| && c.center == points[k].pos)
  {
    var bounds := Bounds(verts, DefaultMarginBounds);
    if bounds.Ok? {
      var cells := CellsFrom(h, EffectiveScale(Some(cellScale)), margin, bounds.value, points, 0, points);
      assert PointsAsCells(h, verts, points, Some(cellScale), DefaultMarginBounds, margin) == Ok(cells);
      var idx := CellsFollowSeeds(h, EffectiveScale(Some(cellScale)), margin, bounds.value, points, 0, points);
      CentresFromIndex(cells, idx, points);
    }
  }
}
