/** The cell builder of object_fracture_cell/fracture_cell_calc.py
    (`points_as_bmesh_cells`): for every seed point, start from the six planes
    of the expanded bounding box, walk the other seeds nearest first, add one
    bisector plane per neighbour, ask the host's plane-intersection kernel for
    the cell's vertices, keep only the planes the kernel used, and tighten the
    pruning bound.

    The kernel (`mathutils.geometry.points_in_planes`) and `math.sqrt` are host
    code: they are parameters here (`Host`), and nothing is assumed about the
    vertices the kernel returns. */
module CellCalc {
  import opened Wrappers
  import opened Geometry
  import opened Sorting

  /** The tag the add-on pairs with every point ('VERTS', 'PARTICLE', 'PENCIL', 'RANDOM'). */
  datatype Origin = Verts | Particle | Pencil | Random

  datatype SeedPoint = SeedPoint(pos: Vec3, origin: Origin)

  /** The half-space `dot(normal, x) + offset <= 0`, a 4D vector in the add-on. */
  datatype Plane = Plane(normal: Vec3, offset: real)

  /** What `points_in_planes` returns: the vertices of the intersection and the
      indices of the planes that bound it. */
  datatype KernelResult = KernelResult(vertices: seq<Vec3>, used: seq<int>)

  /** The host code the cell builder calls. */
  datatype Host = Host(sqrt: real -> real, pointsInPlanes: seq<Plane> -> KernelResult)

  /** An axis-aligned box, `lo` the minimum corner and `hi` the maximum one. */
  datatype Box = Box(lo: Vec3, hi: Vec3)

  /** One entry of the returned list: the seed and the cell's vertices, in the
      seed's local frame. */
  datatype Cell = Cell(center: Vec3, vertices: seq<Vec3>)

  /** The used-plane indices are in range and strictly increasing, as the
      kernel reports them. */
  predicate UsedIndicesValid(used: seq<int>, n: int)
  {
    && (forall k :: 0 <= k < |used| ==> 0 <= used[k] < n)
    && (forall a, b :: 0 <= a < b < |used| ==> used[a] < used[b])
  }

  /** The kernel reports valid used-plane indices for `planes`. */
  ghost predicate KernelOk(kernel: seq<Plane> -> KernelResult, planes: seq<Plane>)
  {
    UsedIndicesValid(kernel(planes).used, |planes|)
  }

  /** The kernel reports valid used-plane indices for every plane list. */
  ghost predicate ValidKernel(kernel: seq<Plane> -> KernelResult)
  {
    forall planes :: KernelOk(kernel, planes)
  }

  ghost predicate ValidHost(h: Host)
  {
    IsSqrt(h.sqrt) && ValidKernel(h.pointsInPlanes)
  }

  /** The start and reset value of the pruning bound `distance_max`. */
  const DistanceSentinel: real := 10000000000.0

  /** The pruning bound never drops below twice the square root of the sentinel. */
  const PruneFloor: real := 200000.0

  /** `margin_bounds` keeps its default value: the caller never passes it. */
  const DefaultMarginBounds: real := 0.05

  // ---------------------------------------------------------------------------
  // Bounding box and boundary planes

  function Project(vs: seq<Vec3>, f: Vec3 -> real): (r: seq<real>)
    ensures |r| == |vs|
    ensures forall k :: 0 <= k < |vs| ==> r[k] == f(vs[k])
  {
    seq(|vs|, k requires 0 <= k < |vs| => f(vs[k]))
  }

  /** Python's `min` of a non-empty list. */
  function MinOf(xs: seq<real>): (m: real)
    requires |xs| > 0
    ensures forall k :: 0 <= k < |xs| ==> m <= xs[k]
    ensures exists k :: 0 <= k < |xs| && m == xs[k]
  {
    if |xs| == 1 then xs[0]
    else
      var rest := MinOf(xs[1..]);
      assert forall k :: 1 <= k < |xs| ==> xs[k] == xs[1..][k - 1];
      if xs[0] <= rest then xs[0] else rest
  }

  /** Python's `max` of a non-empty list. */
  function MaxOf(xs: seq<real>): (m: real)
    requires |xs| > 0
    ensures forall k :: 0 <= k < |xs| ==> xs[k] <= m
    ensures exists k :: 0 <= k < |xs| && m == xs[k]
  {
    if |xs| == 1 then xs[0]
    else
      var rest := MaxOf(xs[1..]);
      assert forall k :: 1 <= k < |xs| ==> xs[k] == xs[1..][k - 1];
      if xs[0] >= rest then xs[0] else rest
  }

  /** Every vertex lies inside the box shrunk back by `margin` on every side. */
  ghost predicate Encloses(b: Box, verts: seq<Vec3>, margin: real)
  {
    forall k :: 0 <= k < |verts| ==>
      && b.lo.x + margin <= verts[k].x <= b.hi.x - margin
      && b.lo.y + margin <= verts[k].y <= b.hi.y - margin
      && b.lo.z + margin <= verts[k].z <= b.hi.z - margin
  }

  /** Every face of the shrunk box is touched by some vertex. */
  ghost predicate Tight(b: Box, verts: seq<Vec3>, margin: real)
  {
    && (exists k :: 0 <= k < |verts| && verts[k].x == b.lo.x + margin)
    && (exists k :: 0 <= k < |verts| && verts[k].x == b.hi.x - margin)
    && (exists k :: 0 <= k < |verts| && verts[k].y == b.lo.y + margin)
    && (exists k :: 0 <= k < |verts| && verts[k].y == b.hi.y - margin)
    && (exists k :: 0 <= k < |verts| && verts[k].z == b.lo.z + margin)
    && (exists k :: 0 <= k < |verts| && verts[k].z == b.hi.z - margin)
  }

  /** The bounding box of `verts` grown by `margin`; `min` of an empty list
      raises. */
  function Bounds(verts: seq<Vec3>, margin: real): (r: Result<Box, FractureError>)
    ensures r.Err? <==> verts == []
    ensures r.Err? ==> r.error == EmptyVertices
    ensures r.Ok? ==> Encloses(r.value, verts, margin) && Tight(r.value, verts, margin)
  {
    if verts == [] then Err(EmptyVertices)
    else
      var xa := Project(verts, (v: Vec3) => v.x);
      var ya := Project(verts, (v: Vec3) => v.y);
      var za := Project(verts, (v: Vec3) => v.z);
      Ok(Box(Vec3(MinOf(xa) - margin, MinOf(ya) - margin, MinOf(za) - margin),
             Vec3(MaxOf(xa) + margin, MaxOf(ya) + margin, MaxOf(za) + margin)))
  }

  predicate InBox(p: Vec3, b: Box)
  {
    b.lo.x <= p.x <= b.hi.x && b.lo.y <= p.y <= b.hi.y && b.lo.z <= p.z <= b.hi.z
  }

  /** With a non-negative margin the box is never inverted, and it holds every
      vertex. */
  lemma {:induction false} BoundsOrdered(verts: seq<Vec3>, margin: real)
    requires margin >= 0.0
    requires Bounds(verts, margin).Ok?
    ensures var b := Bounds(verts, margin).value;
      b.lo.x <= b.hi.x && b.lo.y <= b.hi.y && b.lo.z <= b.hi.z
      && forall k :: 0 <= k < |verts| ==> InBox(verts[k], b)
  {
    var b := Bounds(verts, margin).value;
    assert Encloses(b, verts, margin);
    assert b.lo.x + margin <= verts[0].x <= b.hi.x - margin;
  }

  /** `x` lies in the half-space of `pl`. */
  predicate Inside(pl: Plane, x: Vec3)
  {
    Dot(pl.normal, x) + pl.offset <= 0.0
  }

  /** `r` is 1 or -1. */
  predicate Unit(r: real)
  {
    r == 1.0 || r == -1.0
  }

  /** `v` is a unit vector along one coordinate axis. */
  predicate UnitAxis(v: Vec3)
  {
    || (Unit(v.x) && v.y == 0.0 && v.z == 0.0)
    || (v.x == 0.0 && Unit(v.y) && v.z == 0.0)
    || (v.x == 0.0 && v.y == 0.0 && Unit(v.z))
  }

  /** `convexPlanes`: the six axis planes of the box, with unit axis normals
      pointing out of it; a point lies in all six half-spaces exactly when it
      lies in the box. */
  function BoundaryPlanes(b: Box): (ps: seq<Plane>)
    ensures |ps| == 6
    ensures forall k :: 0 <= k < 6 ==> UnitAxis(ps[k].normal)
    ensures forall x :: (forall k :: 0 <= k < 6 ==> Inside(ps[k], x)) <==> InBox(x, b)
  {
    var ps := [ Plane(Vec3(1.0, 0.0, 0.0), -b.hi.x),
                Plane(Vec3(-1.0, 0.0, 0.0), b.lo.x),
                Plane(Vec3(0.0, 1.0, 0.0), -b.hi.y),
                Plane(Vec3(0.0, -1.0, 0.0), b.lo.y),
                Plane(Vec3(0.0, 0.0, 1.0), -b.hi.z),
                Plane(Vec3(0.0, 0.0, -1.0), b.lo.z) ];
    assert forall x :: (forall k :: 0 <= k < 6 ==> Inside(ps[k], x)) <==> InBox(x, b) by {
      forall x
        ensures (forall k :: 0 <= k < 6 ==> Inside(ps[k], x)) <==> InBox(x, b)
      {
        assert Inside(ps[0], x) <==> x.x <= b.hi.x;
        assert Inside(ps[1], x) <==> b.lo.x <= x.x;
        assert Inside(ps[2], x) <==> x.y <= b.hi.y;
        assert Inside(ps[3], x) <==> b.lo.y <= x.y;
        assert Inside(ps[4], x) <==> x.z <= b.hi.z;
        assert Inside(ps[5], x) <==> b.lo.z <= x.z;
      }
    }
    ps
  }

  /** A plane moved into the frame whose origin is `p`. */
  function ToLocal(pl: Plane, p: Vec3): Plane
  {
    Plane(pl.normal, pl.offset + Dot(pl.normal, p))
  }

  /** The boundary planes in the seed's local frame: the seed (the local
      origin) is on the inner side of all six exactly when it lies in the box. */
  function SeedPlanes(b: Box, p: Vec3): (ps: seq<Plane>)
    ensures |ps| == 6
    ensures forall k :: 0 <= k < 6 ==> ps[k].normal == BoundaryPlanes(b)[k].normal
    ensures (forall k :: 0 <= k < 6 ==> ps[k].offset <= 0.0) <==> InBox(p, b)
  {
    var cp := BoundaryPlanes(b);
    var ps := seq(6, k requires 0 <= k < 6 => ToLocal(cp[k], p));
    assert ps[0].offset == p.x - b.hi.x && ps[1].offset == b.lo.x - p.x;
    assert ps[2].offset == p.y - b.hi.y && ps[3].offset == b.lo.y - p.y;
    assert ps[4].offset == p.z - b.hi.z && ps[5].offset == b.lo.z - p.z;
    ps
  }

  // ---------------------------------------------------------------------------
  // Bisector planes

  /** `points_scale`: `None` stays `None`, and so does a scale of (1, 1, 1). */
  function EffectiveScale(scale: Option<Vec3>): (r: Option<Vec3>)
    ensures r.None? <==> (scale.None? || scale == Some(Vec3(1.0, 1.0, 1.0)))
    ensures r.Some? ==> r == scale
  {
    if scale == Some(Vec3(1.0, 1.0, 1.0)) then None else scale
  }

  datatype Bisector = Bisector(plane: Plane, nlength: real)

  /** The plane between the seed `p` (the local origin) and its neighbour `q`:
      its normal is the normalised direction to `q` (re-weighted by `scale`),
      its offset `-nlength / 2 + marginCell`, where `nlength` is the distance to
      `q` (scaled by how far the scale turns the direction). */
  function BisectorOf(h: Host, scale: Option<Vec3>, marginCell: real, p: Vec3, q: Vec3): (r: Bisector)
    ensures scale.None? ==>
      r.nlength == h.sqrt(LengthSq(Sub(q, p))) && r.plane.normal == Normalized(h.sqrt, Sub(q, p))
    ensures scale.Some? ==>
      r.plane.normal == Normalized(h.sqrt, Mul(Sub(q, p), scale.value))
    ensures r.plane.offset == -r.nlength / 2.0 + marginCell
  {
    var normal := Sub(q, p);
    var nlength := h.sqrt(LengthSq(normal));
    var scaled :=
      match scale
      case None => Bisector(Plane(normal, 0.0), nlength)
      case Some(s) =>
        var alt := Mul(normal, s);
        var scalar := Dot(Normalized(h.sqrt, alt), Normalized(h.sqrt, normal));
        Bisector(Plane(alt, 0.0), nlength * scalar);
    Bisector(Plane(Normalized(h.sqrt, scaled.plane.normal), -scaled.nlength / 2.0 + marginCell),
             scaled.nlength)
  }

  /** Without a scale, the plane is the perpendicular bisector between the
      seed `p` (the local origin) and a distinct neighbour `q`, moved by
      `marginCell`: its normal has length one and, for every point `x` of the
      local frame, its plane value is `marginCell` plus how much farther `x`
      is from the seed than from the neighbour (in squared distances, over
      twice the distance between them). So the midpoint lies at `marginCell`
      and the neighbour at `nlength / 2 + marginCell`. */
  lemma BisectorEquidistant(h: Host, marginCell: real, p: Vec3, q: Vec3)
    requires IsSqrt(h.sqrt) && q != p
    ensures var b := BisectorOf(h, None, marginCell, p, q);
      && b.nlength > 0.0
      && LengthSq(b.plane.normal) == 1.0
      && (forall x :: Dot(b.plane.normal, x) + b.plane.offset
                      == marginCell + (LengthSq(x) - LengthSq(Sub(x, Sub(q, p)))) / (2.0 * b.nlength))
      && Dot(b.plane.normal, Scale(Sub(q, p), 0.5)) + b.plane.offset == marginCell
      && Dot(b.plane.normal, Sub(q, p)) + b.plane.offset == b.nlength / 2.0 + marginCell
  {
    var b := BisectorOf(h, None, marginCell, p, q);
    var v := Sub(q, p);
    assert v != Zero;
    NormalizedUnit(h.sqrt, v);
    var n := b.nlength;
    assert n * n == LengthSq(v) by { assert SqrtAt(h.sqrt, LengthSq(v)); }
    assert b.plane == Plane(Scale(v, 1.0 / n), -n / 2.0 + marginCell);
    forall x
      ensures Dot(b.plane.normal, x) + b.plane.offset
              == marginCell + (LengthSq(x) - LengthSq(Sub(x, v))) / (2.0 * n)
    {
      BisectorValue(v, n, marginCell, x);
    }
    BisectorAtPoints(v, n, marginCell);
  }

  /** With a margin of zero, a point of the local frame is on the inner side
      of the bisector exactly when it is no farther from the seed than from
      the neighbour. */
  lemma BisectorSeparates(h: Host, p: Vec3, q: Vec3, x: Vec3)
    requires IsSqrt(h.sqrt) && q != p
    ensures Inside(BisectorOf(h, None, 0.0, p, q).plane, x) <==> LengthSq(x) <= LengthSq(Sub(x, Sub(q, p)))
  {
    var b := BisectorOf(h, None, 0.0, p, q);
    BisectorEquidistant(h, 0.0, p, q);
    var d := LengthSq(x) - LengthSq(Sub(x, Sub(q, p)));
    var w := 2.0 * b.nlength;
    assert Dot(b.plane.normal, x) + b.plane.offset == d / w;
    QuotientSign(d, w);
  }

  /** With a scale whose re-weighted direction is not zero, the plane normal
      still has length one. */
  lemma ScaledBisectorUnit(h: Host, s: Vec3, marginCell: real, p: Vec3, q: Vec3)
    requires IsSqrt(h.sqrt) && Mul(Sub(q, p), s) != Zero
    ensures LengthSq(BisectorOf(h, Some(s), marginCell, p, q).plane.normal) == 1.0
  {
    NormalizedUnit(h.sqrt, Mul(Sub(q, p), s));
  }

  /** The bisector of every entry of the sorted list; the walk reads them in
      order, from position 1 on. */
  function Bisectors(h: Host, scale: Option<Vec3>, marginCell: real, p: Vec3,
                     sorted: seq<SeedPoint>): (bs: seq<Bisector>)
    ensures |bs| == |sorted|
    ensures forall k :: 0 <= k < |sorted| ==> bs[k] == BisectorOf(h, scale, marginCell, p, sorted[k].pos)
  {
    seq(|sorted|, k requires 0 <= k < |sorted| => BisectorOf(h, scale, marginCell, p, sorted[k].pos))
  }

  // ---------------------------------------------------------------------------
  // The neighbour walk of one seed

  /** The filtered plane list: the planes at the used indices, in
      order. */
  function Pick(planes: seq<Plane>, used: seq<int>): (r: seq<Plane>)
    requires UsedIndicesValid(used, |planes|)
    ensures |r| == |used| <= |planes|
    ensures forall k :: 0 <= k < |r| ==> r[k] == planes[used[k]]
  {
    if |used| == 0 then []
    else
      IncreasingSpread(used, 0, |used| - 1);
      seq(|used|, k requires 0 <= k < |used| => planes[used[k]])
  }

  /** Strictly increasing integers spread at least one apart per position. */
  lemma {:induction false} IncreasingSpread(used: seq<int>, a: nat, b: nat)
    requires forall i, j :: 0 <= i < j < |used| ==> used[i] < used[j]
    requires a <= b < |used|
    ensures used[b] - used[a] >= b - a
  {
    if a < b {
      IncreasingSpread(used, a, b - 1);
    }
  }

  /** When every plane is used, picking the used planes changes nothing: the
      `len(plane_indices) != len(planes)` test only saves work. */
  lemma {:induction false} PickAllIsIdentity(planes: seq<Plane>, used: seq<int>)
    requires UsedIndicesValid(used, |planes|)
    requires |used| == |planes|
    ensures Pick(planes, used) == planes
  {
    forall k | 0 <= k < |used| ensures used[k] == k {
      IncreasingSpread(used, 0, k);
      IncreasingSpread(used, k, |used| - 1);
    }
  }

  /** The largest squared vertex distance, starting from the sentinel, scanned
      left to right. */
  function MaxLengthSq(vs: seq<Vec3>): (m: real)
    ensures m >= DistanceSentinel
    ensures forall k :: 0 <= k < |vs| ==> LengthSq(vs[k]) <= m
    ensures m == DistanceSentinel || exists k :: 0 <= k < |vs| && m == LengthSq(vs[k])
  {
    if vs == [] then DistanceSentinel
    else
      var init := vs[..|vs| - 1];
      var rest := MaxLengthSq(init);
      assert forall k :: 0 <= k < |init| ==> init[k] == vs[k];
      var d := LengthSq(vs[|vs| - 1]);
      if rest < d then d else rest
  }

  /** The pruning bound `2 * sqrt(max(1e10, max |v|^2))` is at least 2e5. */
  lemma PruneBoundFloor(h: Host, vs: seq<Vec3>)
    requires IsSqrt(h.sqrt)
    ensures PruneBound(h.sqrt, vs) >= PruneFloor
  {
    SqrtLowerBound(h.sqrt, MaxLengthSq(vs));
  }

  /** Why a walk ended. */
  datatype Stop = Running | Exhausted | Pruned | Degenerate

  /** The per-seed loop state: the active planes, the last kernel vertices,
      `distance_max`, and how many neighbour planes have been appended. */
  datatype WalkState = WalkState(planes: seq<Plane>, vertices: seq<Vec3>, distanceMax: real,
                                 added: nat, stop: Stop)

  /** `distance_max` after a non-empty kernel result: twice the root of the
      largest squared vertex distance (at least the sentinel). */
  function PruneBound(sqrt: real -> real, vertices: seq<Vec3>): real
  {
    2.0 * sqrt(MaxLengthSq(vertices))
  }

  /** The planes kept after a kernel call: the used ones when fewer than all
      are used. The validity test always passes for a kernel that keeps its
      contract (`ValidKernel`); it keeps this function total. */
  function KeptPlanes(planes: seq<Plane>, used: seq<int>): (r: seq<Plane>)
    ensures |r| <= |planes|
  {
    if |used| != |planes| && UsedIndicesValid(used, |planes|) then Pick(planes, used) else planes
  }

  /** The neighbour loop `for j in range(1, len(points))` from sorted position
      `j` on; `bis[j]` is the bisector of the `j`-th nearest entry. */
  function Walk(h: Host, bis: seq<Bisector>, j: nat, st: WalkState): (r: WalkState)
    decreases |bis| - j
  {
    if j >= |bis| then st.(stop := Exhausted)
    else if bis[j].nlength > st.distanceMax then st.(stop := Pruned)
    else
      var planes := st.planes + [bis[j].plane];
      var res := h.pointsInPlanes(planes);
      if |res.vertices| == 0 then WalkState(planes, res.vertices, st.distanceMax, st.added + 1, Degenerate)
      else
        Walk(h, bis, j + 1, WalkState(KeptPlanes(planes, res.used), res.vertices,
                                      PruneBound(h.sqrt, res.vertices), st.added + 1, Running))
  }

  /** What the walk guarantees about its final state `r`, started at
      neighbour `j` from a state reached after `j - 1` neighbours: the bound
      stays at least 2e5; the plane list holds at most six planes more than
      neighbours processed; with no neighbour left nothing more is processed,
      and at most `|bis| - 1` neighbours are processed in all; neighbour `j`
      is processed exactly when its `nlength` is within the bound in force,
      so the walk prunes at the first neighbour beyond it; the walk stops
      only when the next neighbour is farther than the bound, the kernel
      returns no vertices, or the neighbours run out; and the vertices are
      non-empty exactly when the last kernel call returned some. */
  ghost predicate WalkOutcome(bis: seq<Bisector>, j: nat, st: WalkState, r: WalkState)
  {
    && r.distanceMax >= PruneFloor
    && |r.planes| <= 6 + r.added
    && st.added <= r.added
    && (r.added == st.added ==> r.vertices == st.vertices && r.stop != Degenerate)
    && (r.added > st.added ==> (r.vertices != [] <==> r.stop != Degenerate))
    && (j >= |bis| ==> r.added == st.added)
    && (j < |bis| ==> r.added <= |bis| - 1)
    && (j < |bis| ==> (r.added > st.added <==> bis[j].nlength <= st.distanceMax))
    && r.stop != Running
    && (r.stop == Exhausted ==> r.added + 1 >= |bis|)
    && (r.stop == Pruned ==> r.added + 1 < |bis| && bis[r.added + 1].nlength > r.distanceMax)
    && (r.stop == Degenerate ==> r.vertices == [] && r.added >= 1)
  }

  /** A successful kernel call at neighbour `j` passes the outcome of the
      rest of the walk back to the state before it. */
  lemma WalkOutcomeStep(bis: seq<Bisector>, j: nat, st: WalkState, next: WalkState, r: WalkState)
    requires 1 <= j < |bis| && st.added == j - 1
    requires bis[j].nlength <= st.distanceMax
    requires next.added == st.added + 1 && next.vertices != []
    requires WalkOutcome(bis, j + 1, next, r)
    ensures WalkOutcome(bis, j, st, r)
  {
  }

  /** The walk from a state reached after `j - 1` neighbours has the outcome
      `WalkOutcome` describes. */
  lemma {:induction false} WalkFacts(h: Host, bis: seq<Bisector>, j: nat, st: WalkState)
    requires IsSqrt(h.sqrt)
    requires 1 <= j && st.added == j - 1
    requires st.distanceMax >= PruneFloor
    requires |st.planes| <= 6 + st.added
    decreases |bis| - j
    ensures WalkOutcome(bis, j, st, Walk(h, bis, j, st))
  {
    var r := Walk(h, bis, j, st);
    if j >= |bis| {
      assert r == st.(stop := Exhausted);
    } else if bis[j].nlength > st.distanceMax {
      assert r == st.(stop := Pruned);
    } else {
      var planes := st.planes + [bis[j].plane];
      var res := h.pointsInPlanes(planes);
      if |res.vertices| == 0 {
        assert r == WalkState(planes, res.vertices, st.distanceMax, st.added + 1, Degenerate);
      } else {
        var kept := KeptPlanes(planes, res.used);
        PruneBoundFloor(h, res.vertices);
        var next := WalkState(kept, res.vertices, PruneBound(h.sqrt, res.vertices), st.added + 1, Running);
        assert r == Walk(h, bis, j + 1, next);
        WalkFacts(h, bis, j + 1, next);
        WalkOutcomeStep(bis, j, st, next, r);
      }
    }
  }

  // ---------------------------------------------------------------------------
  // All seeds

  /** The key `points_dist_sorted` is sorted by: squared distance to `p`. */
  function DistanceKey(p: Vec3): SeedPoint -> real
  {
    (q: SeedPoint) => LengthSq(Sub(q.pos, p))
  }

  lemma DistanceKeyIsLengthSq(p: Vec3, q: SeedPoint)
    ensures DistanceKey(p)(q) == LengthSq(Sub(q.pos, p))
  {
  }

  function InitialState(b: Box, p: Vec3): WalkState
  {
    WalkState(SeedPlanes(b, p), [], DistanceSentinel, 0, Running)
  }

  /** The walk of the seed at `p` over its sorted neighbour list. */
  function SeedWalk(h: Host, scale: Option<Vec3>, marginCell: real, b: Box, p: Vec3,
                    sorted: seq<SeedPoint>): WalkState
  {
    Walk(h, Bisectors(h, scale, marginCell, p, sorted), 1, InitialState(b, p))
  }

  /** The cells of seeds `i..` when `points_dist_sorted` is in order `order`. */
  function CellsFrom(h: Host, scale: Option<Vec3>, marginCell: real, b: Box,
                     points: seq<SeedPoint>, i: nat, order: seq<SeedPoint>): seq<Cell>
    requires i <= |points|
    decreases |points| - i
  {
    if i == |points| then []
    else
      var p := points[i].pos;
      var sorted := SortBy(order, DistanceKey(p));
      var w := SeedWalk(h, scale, marginCell, b, p, sorted);
      (if w.vertices == [] then [] else [Cell(p, w.vertices)])
        + CellsFrom(h, scale, marginCell, b, points, i + 1, sorted)
  }

  /** One seed of the seed loop: if `cells` followed by the cells of seeds
      `i..` is the result, then so is `cells` with seed `i`'s cell, if any,
      followed by the cells of seeds `i + 1..` over the re-sorted list. */
  lemma SeedLoopStep(h: Host, scale: Option<Vec3>, marginCell: real, b: Box,
                     points: seq<SeedPoint>, i: nat, order: seq<SeedPoint>,
                     cells: seq<Cell>, result: seq<Cell>)
    requires i < |points|
    requires cells + CellsFrom(h, scale, marginCell, b, points, i, order) == result
    ensures var p := points[i].pos;
      var sorted := SortBy(order, DistanceKey(p));
      var w := SeedWalk(h, scale, marginCell, b, p, sorted);
      (if w.vertices == [] then cells else cells + [Cell(p, w.vertices)])
        + CellsFrom(h, scale, marginCell, b, points, i + 1, sorted) == result
  {
    var p := points[i].pos;
    var sorted := SortBy(order, DistanceKey(p));
    var w := SeedWalk(h, scale, marginCell, b, p, sorted);
    var tail := CellsFrom(h, scale, marginCell, b, points, i + 1, sorted);
    if w.vertices == [] {
      assert CellsFrom(h, scale, marginCell, b, points, i, order) == tail;
    } else {
      assert CellsFrom(h, scale, marginCell, b, points, i, order) == [Cell(p, w.vertices)] + tail;
      assert (cells + [Cell(p, w.vertices)]) + tail == cells + ([Cell(p, w.vertices)] + tail);
    }
  }

  /** `points_as_bmesh_cells(verts, points, points_scale, margin_bounds, margin_cell)`. */
  function PointsAsCells(h: Host, verts: seq<Vec3>, points: seq<SeedPoint>, scale: Option<Vec3>,
                         marginBounds: real, marginCell: real): Result<seq<Cell>, FractureError>
  {
    match Bounds(verts, marginBounds)
    case Err(e) => Err(e)
    case Ok(b) => Ok(CellsFrom(h, EffectiveScale(scale), marginCell, b, points, 0, points))
  }

  /** The walk of one seed: it yields vertices exactly when at least one
      neighbour plane was added and the last kernel result was non-empty, so a
      seed without neighbours yields nothing; and the bound and plane-count
      facts of `WalkFacts` hold for it. */
  lemma SeedCellNeedsNeighbour(h: Host, scale: Option<Vec3>, marginCell: real, b: Box, p: Vec3,
                               sorted: seq<SeedPoint>)
    requires IsSqrt(h.sqrt)
    ensures var w := SeedWalk(h, scale, marginCell, b, p, sorted);
      && (w.vertices != [] <==> w.added >= 1 && w.stop != Degenerate)
      && (|sorted| <= 1 ==> w.vertices == [])
      && w.added + 1 <= |sorted| + (if |sorted| == 0 then 1 else 0)
      && |w.planes| <= 6 + w.added
      && w.distanceMax >= PruneFloor
  {
    WalkFacts(h, Bisectors(h, scale, marginCell, p, sorted), 1, InitialState(b, p));
  }

  /** `cells[k]` is the cell of seed `idx[k]`, the seeds taken from `lo` on in
      increasing order, every cell centred on its seed and non-empty. */
  ghost predicate IndexedBy(cells: seq<Cell>, idx: seq<nat>, points: seq<SeedPoint>, lo: nat)
  {
    && |idx| == |cells|
    && (forall k :: 0 <= k < |idx| ==>
          lo <= idx[k] < |points| && cells[k].center == points[idx[k]].pos && cells[k].vertices != [])
    && (forall a, c :: 0 <= a < c < |idx| ==> idx[a] < idx[c])
  }

  lemma IndexedCons(c: Cell, cells: seq<Cell>, i: nat, idx: seq<nat>, points: seq<SeedPoint>)
    requires i < |points| && c.center == points[i].pos && c.vertices != []
    requires IndexedBy(cells, idx, points, i + 1)
    ensures IndexedBy([c] + cells, [i] + idx, points, i)
  {
    var cs, ix := [c] + cells, [i] + idx;
    forall k | 1 <= k < |ix|
      ensures i < ix[k] < |points| && cs[k].center == points[ix[k]].pos && cs[k].vertices != []
    {
      assert ix[k] == idx[k - 1] && cs[k] == cells[k - 1];
    }
  }

  /** Cells come in seed order, one at most per seed, each centred on its seed
      and with at least one vertex. */
  lemma {:induction false} CellsFollowSeeds(h: Host, scale: Option<Vec3>, marginCell: real, b: Box,
                                            points: seq<SeedPoint>, i: nat, order: seq<SeedPoint>)
    returns (idx: seq<nat>)
    requires i <= |points|
    ensures IndexedBy(CellsFrom(h, scale, marginCell, b, points, i, order), idx, points, i)
    ensures |idx| <= |points| - i
    decreases |points| - i
  {
    if i == |points| {
      idx := [];
    } else {
      var p := points[i].pos;
      var sorted := SortBy(order, DistanceKey(p));
      var w := SeedWalk(h, scale, marginCell, b, p, sorted);
      var rest := CellsFollowSeeds(h, scale, marginCell, b, points, i + 1, sorted);
      var tail := CellsFrom(h, scale, marginCell, b, points, i + 1, sorted);
      if w.vertices == [] {
        assert CellsFrom(h, scale, marginCell, b, points, i, order) == tail;
        idx := rest;
      } else {
        assert CellsFrom(h, scale, marginCell, b, points, i, order) == [Cell(p, w.vertices)] + tail;
        IndexedCons(Cell(p, w.vertices), tail, i, rest, points);
        idx := [i] + rest;
      }
    }
  }

  /** A single input point has no neighbour, so it yields no cell. */
  lemma SinglePointNoCells(h: Host, verts: seq<Vec3>, points: seq<SeedPoint>, scale: Option<Vec3>,
                           marginBounds: real, marginCell: real)
    requires IsSqrt(h.sqrt)
    requires |points| == 1 && verts != []
    ensures PointsAsCells(h, verts, points, scale, marginBounds, marginCell) == Ok([])
  {
    var s := EffectiveScale(scale);
    var b := Bounds(verts, marginBounds).value;
    var p := points[0].pos;
    var sorted := SortBy(points, DistanceKey(p));
    SeedCellNeedsNeighbour(h, s, marginCell, b, p, sorted);
    assert SeedWalk(h, s, marginCell, b, p, sorted).vertices == [];
    assert CellsFrom(h, s, marginCell, b, points, 1, sorted) == [];
    assert CellsFrom(h, s, marginCell, b, points, 0, points) == [];
  }

  /** The neighbours are visited nearest first, and the sorted list is a
      permutation of the seeds. */
  lemma NeighboursNearestFirst(p: Vec3, order: seq<SeedPoint>)
    ensures var sorted := SortBy(order, DistanceKey(p));
      && multiset(sorted) == multiset(order)
      && (forall a, c :: 0 <= a < c < |sorted| ==>
            LengthSq(Sub(sorted[a].pos, p)) <= LengthSq(Sub(sorted[c].pos, p)))
  {
    var key := DistanceKey(p);
    var sorted := SortBy(order, key);
    SortBySortsAndPermutes(order, key);
  }

  /** The entry the walk skips, at sorted position 0, is at distance zero from
      the seed: the seed itself or a coincident copy of it. */
  lemma FirstNeighbourIsSeed(p: SeedPoint, order: seq<SeedPoint>)
    requires p in order
    ensures var sorted := SortBy(order, DistanceKey(p.pos));
      |sorted| > 0 && LengthSq(Sub(sorted[0].pos, p.pos)) == 0.0
  {
    var key := DistanceKey(p.pos);
    var sorted := SortBy(order, key);
    SortBySortsAndPermutes(order, key);
    assert p in multiset(sorted) by {
      assert p in multiset(order);
    }
    var k := PositionOf(sorted, p);
    SortedFirstIsLeast(sorted, key, k);
    DistanceKeyIsLengthSq(p.pos, p);
    LengthSqSelf(p.pos);
    DistanceKeyIsLengthSq(p.pos, sorted[0]);
  }

  // ---------------------------------------------------------------------------
  // The imperative cell builder

  /** The `distance_max` update after a non-empty kernel result. */
  method FarthestVertexBound(h: Host, vertices: seq<Vec3>) returns (distanceMax: real)
    requires IsSqrt(h.sqrt)
    ensures distanceMax == PruneBound(h.sqrt, vertices)
    ensures distanceMax >= PruneFloor
  {
    distanceMax := DistanceSentinel;
    for k := 0 to |vertices|
      invariant distanceMax == MaxLengthSq(vertices[..k])
    {
      assert vertices[..k + 1][..k] == vertices[..k];
      var distance := LengthSq(vertices[k]);
      if distanceMax < distance {
        distanceMax := distance;
      }
    }
    assert vertices[..|vertices|] == vertices;
    PruneBoundFloor(h, vertices);
    distanceMax := h.sqrt(distanceMax);
    distanceMax := distanceMax * 2.0;
  }

  /** The copy of the boundary planes for one seed, each offset raised by
      the dot product of its normal with the seed: the
      planes moved into the seed's frame one by one. */
  method LocalPlanes(convexPlanes: seq<Plane>, p: Vec3) returns (planes: seq<Plane>)
    ensures |planes| == |convexPlanes|
    ensures forall m :: 0 <= m < |planes| ==> planes[m] == ToLocal(convexPlanes[m], p)
  {
    planes := [];
    for k := 0 to |convexPlanes|
      invariant |planes| == k
      invariant forall m :: 0 <= m < k ==> planes[m] == ToLocal(convexPlanes[m], p)
    {
      planes := planes + [Plane(convexPlanes[k].normal, convexPlanes[k].offset + Dot(convexPlanes[k].normal, p))];
    }
  }

  /** The body of the seed loop: copy the boundary planes into the seed's frame,
      re-sort the shared neighbour list by distance to the seed, then walk the
      neighbours. `vertices` is the list the add-on shares across seeds. */
  method BuildCell(h: Host, scale: Option<Vec3>, marginCell: real, convexPlanes: seq<Plane>,
                   b: Box, p: Vec3, order: seq<SeedPoint>, vertices: seq<Vec3>)
    returns (sorted: seq<SeedPoint>, verticesOut: seq<Vec3>)
    requires ValidHost(h)
    requires convexPlanes == BoundaryPlanes(b)
    ensures sorted == SortBy(order, DistanceKey(p))
    ensures verticesOut == Walk(h, Bisectors(h, scale, marginCell, p, sorted), 1,
                                InitialState(b, p).(vertices := vertices)).vertices
  {
    var planes := LocalPlanes(convexPlanes, p);
    sorted := SortBy(order, DistanceKey(p));
    assert planes == SeedPlanes(b, p);
    verticesOut := WalkNeighbours(h, scale, marginCell, p, sorted, planes, vertices);
  }

  /** The neighbour loop of one seed, from its local planes and the shared
      vertex list. */
  method WalkNeighbours(h: Host, scale: Option<Vec3>, marginCell: real, p: Vec3, sorted: seq<SeedPoint>,
                        planes0: seq<Plane>, vertices: seq<Vec3>)
    returns (verticesOut: seq<Vec3>)
    requires ValidHost(h)
    ensures verticesOut == Walk(h, Bisectors(h, scale, marginCell, p, sorted), 1,
                                WalkState(planes0, vertices, DistanceSentinel, 0, Running)).vertices
  {
    var planes := planes0;
    var distanceMax := DistanceSentinel;
    verticesOut := vertices;
    ghost var bs := Bisectors(h, scale, marginCell, p, sorted);
    ghost var start := WalkState(planes0, vertices, DistanceSentinel, 0, Running);
    var j := 1;
    while j < |sorted|
      invariant 1 <= j
      invariant Walk(h, bs, 1, start) == Walk(h, bs, j, WalkState(planes, verticesOut, distanceMax, j - 1, Running))
      decreases |sorted| - j
    {
      ghost var st := WalkState(planes, verticesOut, distanceMax, j - 1, Running);
      var bis := BisectorOf(h, scale, marginCell, p, sorted[j].pos);
      assert bis == bs[j];
      if bis.nlength > distanceMax {
        assert Walk(h, bs, j, st) == st.(stop := Pruned);
        break;
      }
      planes := planes + [bis.plane];
      var res := h.pointsInPlanes(planes);
      verticesOut := res.vertices;
      if |verticesOut| == 0 {
        assert Walk(h, bs, j, st).vertices == verticesOut;
        break;
      }
      assert KernelOk(h.pointsInPlanes, planes);
      if |res.used| != |planes| {
        planes := Pick(planes, res.used);
      }
      distanceMax := FarthestVertexBound(h, verticesOut);
      assert Walk(h, bs, j, st) == Walk(h, bs, j + 1, WalkState(planes, verticesOut, distanceMax, j, Running));
      j := j + 1;
    }
  }

  /** The loop over the seeds in input order: the cell of
      every seed in turn, sharing one neighbour list and one vertex list. */
  method SeedLoop(h: Host, s: Option<Vec3>, marginCell: real, b: Box, points: seq<SeedPoint>)
    returns (cells: seq<Cell>)
    requires ValidHost(h)
    ensures cells == CellsFrom(h, s, marginCell, b, points, 0, points)
  {
    var convexPlanes := BoundaryPlanes(b);
    var sorted := points;
    cells := [];
    var vertices: seq<Vec3> := [];
    ghost var result := CellsFrom(h, s, marginCell, b, points, 0, points);
    for i := 0 to |points|
      invariant vertices == []
      invariant cells + CellsFrom(h, s, marginCell, b, points, i, sorted) == result
    {
      var p := points[i].pos;
      SeedLoopStep(h, s, marginCell, b, points, i, sorted, cells, result);
      assert InitialState(b, p).(vertices := vertices) == InitialState(b, p);
      sorted, vertices := BuildCell(h, s, marginCell, convexPlanes, b, p, sorted, vertices);
      if |vertices| == 0 {
        continue;
      }
      cells := cells + [Cell(p, vertices)];
      vertices := [];
    }
    assert cells + [] == cells;
  }

  /** `points_as_bmesh_cells`: the cells of all seeds, in seed order; a box
      over no vertices fails. */
  method PointsAsBmeshCells(h: Host, verts: seq<Vec3>, points: seq<SeedPoint>, scale: Option<Vec3>,
                            marginBounds: real, marginCell: real)
    returns (r: Result<seq<Cell>, FractureError>)
    requires ValidHost(h)
    ensures r == PointsAsCells(h, verts, points, scale, marginBounds, marginCell)
  {
    var s := EffectiveScale(scale);
    var bounds := Bounds(verts, marginBounds);
    if bounds.Err? {
      return Err(bounds.error);
    }
    var cells := SeedLoop(h, s, marginCell, bounds.value, points);
    return Ok(cells);
  }
}
