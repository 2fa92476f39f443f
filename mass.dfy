/** The mass part of `cell_fracture_post_process`: every fragment gets the
    same mass, or a share of the mass proportional to the volume of its
    world-space bounding box. A fragment's mass is the value its custom
    property is set to; `None` leaves the property as it was. */
module Mass {
  import opened Wrappers
  import opened Geometry

  /** `mass_mode`; any value besides the two the add-on knows fails its
      assertion. */
  datatype MassMode = UniformMass | VolumeMass | OtherMode

  /** The start of the corner loop: `min_co` is (1e6, 1e6, 1e6) and `max_co`
      its negation. */
  const CornerStart: real := 1000000.0

  function Min(a: real, b: real): real { if a <= b then a else b }

  function Max(a: real, b: real): real { if a >= b then a else b }

  /** `min_co` after the corners `cs`. */
  function LowCorner(cs: seq<Vec3>): Vec3
  {
    if cs == [] then Vec3(CornerStart, CornerStart, CornerStart)
    else
      var lo := LowCorner(cs[..|cs| - 1]);
      var c := cs[|cs| - 1];
      Vec3(Min(c.x, lo.x), Min(c.y, lo.y), Min(c.z, lo.z))
  }

  /** `max_co` after the corners `cs`. */
  function HighCorner(cs: seq<Vec3>): Vec3
  {
    if cs == [] then Vec3(-CornerStart, -CornerStart, -CornerStart)
    else
      var hi := HighCorner(cs[..|cs| - 1]);
      var c := cs[|cs| - 1];
      Vec3(Max(c.x, hi.x), Max(c.y, hi.y), Max(c.z, hi.z))
  }

  /** The product of `xs`, left to right: `x * y * z` for three extents. */
  function Product(xs: seq<real>): real
  {
    if xs == [] then 1.0 else Product(xs[..|xs| - 1]) * xs[|xs| - 1]
  }

  /** `_getObjectVolume`: the product of the three extents. */
  function BoxVolume(cs: seq<Vec3>): real
  {
    var lo, hi := LowCorner(cs), HighCorner(cs);
    Product([hi.x - lo.x, hi.y - lo.y, hi.z - lo.z])
  }

  /** `min_co` is at most 1e6 and every corner's coordinate, and is 1e6 or
      one of them, per axis. */
  lemma {:induction false} LowCornerBounds(cs: seq<Vec3>)
    ensures var lo := LowCorner(cs);
      && lo.x <= CornerStart && lo.y <= CornerStart && lo.z <= CornerStart
      && (forall k :: 0 <= k < |cs| ==> lo.x <= cs[k].x && lo.y <= cs[k].y && lo.z <= cs[k].z)
      && (lo.x == CornerStart || exists k :: 0 <= k < |cs| && lo.x == cs[k].x)
      && (lo.y == CornerStart || exists k :: 0 <= k < |cs| && lo.y == cs[k].y)
      && (lo.z == CornerStart || exists k :: 0 <= k < |cs| && lo.z == cs[k].z)
  {
    if cs != [] {
      var init := cs[..|cs| - 1];
      LowCornerBounds(init);
      var lo := LowCorner(init);
      assert forall k :: 0 <= k < |init| ==> init[k] == cs[k];
      if lo.x != CornerStart && LowCorner(cs).x == lo.x {
        var k :| 0 <= k < |init| && lo.x == init[k].x;
        assert LowCorner(cs).x == cs[k].x;
      }
      if lo.y != CornerStart && LowCorner(cs).y == lo.y {
        var k :| 0 <= k < |init| && lo.y == init[k].y;
        assert LowCorner(cs).y == cs[k].y;
      }
      if lo.z != CornerStart && LowCorner(cs).z == lo.z {
        var k :| 0 <= k < |init| && lo.z == init[k].z;
        assert LowCorner(cs).z == cs[k].z;
      }
    }
  }

  /** `max_co` is at least -1e6 and every corner's coordinate, and is -1e6
      or one of them, per axis. */
  lemma {:induction false} HighCornerBounds(cs: seq<Vec3>)
    ensures var hi := HighCorner(cs);
      && hi.x >= -CornerStart && hi.y >= -CornerStart && hi.z >= -CornerStart
      && (forall k :: 0 <= k < |cs| ==> cs[k].x <= hi.x && cs[k].y <= hi.y && cs[k].z <= hi.z)
      && (hi.x == -CornerStart || exists k :: 0 <= k < |cs| && hi.x == cs[k].x)
      && (hi.y == -CornerStart || exists k :: 0 <= k < |cs| && hi.y == cs[k].y)
      && (hi.z == -CornerStart || exists k :: 0 <= k < |cs| && hi.z == cs[k].z)
  {
    if cs != [] {
      var init := cs[..|cs| - 1];
      HighCornerBounds(init);
      var hi := HighCorner(init);
      assert forall k :: 0 <= k < |init| ==> init[k] == cs[k];
      if hi.x != -CornerStart && HighCorner(cs).x == hi.x {
        var k :| 0 <= k < |init| && hi.x == init[k].x;
        assert HighCorner(cs).x == cs[k].x;
      }
      if hi.y != -CornerStart && HighCorner(cs).y == hi.y {
        var k :| 0 <= k < |init| && hi.y == init[k].y;
        assert HighCorner(cs).y == cs[k].y;
      }
      if hi.z != -CornerStart && HighCorner(cs).z == hi.z {
        var k :| 0 <= k < |init| && hi.z == init[k].z;
        assert HighCorner(cs).z == cs[k].z;
      }
    }
  }

  /** A product of non-negative factors is non-negative. */
  lemma {:induction false} ProductNonNegative(xs: seq<real>)
    requires forall k :: 0 <= k < |xs| ==> xs[k] >= 0.0
    ensures Product(xs) >= 0.0
  {
    if xs != [] {
      ProductNonNegative(xs[..|xs| - 1]);
      MulMonotone(Product(xs[..|xs| - 1]), 0.0, xs[|xs| - 1]);
    }
  }

  lemma ThreeFactors(x: real, y: real, z: real)
    ensures Product([x, y, z]) == x * y * z
  {
    assert [x][..0] == [];
    assert Product([x]) == 1.0 * x;
    assert [x, y][..1] == [x];
    assert Product([x, y]) == x * y;
    assert [x, y, z][..2] == [x, y];
  }

  /** With at least one corner every extent is non-negative, so the volume is
      too. */
  lemma VolumeNonNegative(cs: seq<Vec3>)
    requires |cs| >= 1
    ensures BoxVolume(cs) >= 0.0
  {
    LowCornerBounds(cs);
    HighCornerBounds(cs);
    var lo, hi := LowCorner(cs), HighCorner(cs);
    assert lo.x <= cs[0].x <= hi.x && lo.y <= cs[0].y <= hi.y && lo.z <= cs[0].z <= hi.z;
    ProductNonNegative([hi.x - lo.x, hi.y - lo.y, hi.z - lo.z]);
  }

  /** `_get_volume(obj_cell)` over the eight world-space corners of the
      object's `bound_box`: the corner loop, then the extent product. */
  method ObjectVolume(corners: seq<Vec3>) returns (volume: real)
    requires |corners| >= 8
    ensures volume == BoxVolume(corners[..8])
    ensures volume >= 0.0
  {
    var minCo := Vec3(CornerStart, CornerStart, CornerStart);
    var maxCo := Vec3(-CornerStart, -CornerStart, -CornerStart);
    for i := 0 to 8
      invariant minCo == LowCorner(corners[..i]) && maxCo == HighCorner(corners[..i])
    {
      var bb := corners[i];
      assert corners[..i + 1][..i] == corners[..i];
      minCo := Vec3(Min(bb.x, minCo.x), Min(bb.y, minCo.y), Min(bb.z, minCo.z));
      maxCo := Vec3(Max(bb.x, maxCo.x), Max(bb.y, maxCo.y), Max(bb.z, maxCo.z));
    }
    var x, y, z := maxCo.x - minCo.x, maxCo.y - minCo.y, maxCo.z - minCo.z;
    volume := x * y * z;
    ThreeFactors(x, y, z);
    VolumeNonNegative(corners[..8]);
  }

  // ---------------------------------------------------------------------------
  // Masses

  /** Python's `sum`. */
  function Sum(xs: seq<real>): real
  {
    if xs == [] then 0.0 else xs[0] + Sum(xs[1..])
  }

  /** Each volume's share of `mass`: `volume * (mass / total)`. */
  function VolumeShares(volumes: seq<real>, mass: real): (r: seq<real>)
    requires Sum(volumes) != 0.0
  {
    seq(|volumes|, i requires 0 <= i < |volumes| => volumes[i] * (mass / Sum(volumes)))
  }

  function Scaled(xs: seq<real>, f: real): (r: seq<real>)
  {
    seq(|xs|, i requires 0 <= i < |xs| => xs[i] * f)
  }

  lemma Distribute(a: real, s: real, f: real)
    ensures (a + s) * f == a * f + s * f
  {
  }

  lemma DivCancel(v: real, m: real, t: real)
    requires t != 0.0
    ensures t * (m / t) == m
    ensures v * (m / t) * t == v * m
  {
  }

  lemma {:induction false} SumScaled(xs: seq<real>, f: real)
    ensures Sum(Scaled(xs, f)) == Sum(xs) * f
  {
    if xs != [] {
      var ys := Scaled(xs, f);
      assert ys[1..] == Scaled(xs[1..], f) by {
        forall i | 0 <= i < |xs| - 1
          ensures ys[1..][i] == Scaled(xs[1..], f)[i]
        {
        }
      }
      calc {
        Sum(ys);
      ==
        ys[0] + Sum(ys[1..]);
      ==
        xs[0] * f + Sum(Scaled(xs[1..], f));
      == { SumScaled(xs[1..], f); }
        xs[0] * f + Sum(xs[1..]) * f;
      == { Distribute(xs[0], Sum(xs[1..]), f); }
        (xs[0] + Sum(xs[1..])) * f;
      }
    }
  }

  /** The shares add up to the whole mass. */
  lemma SharesSumToMass(volumes: seq<real>, mass: real)
    requires Sum(volumes) > 0.0
    ensures Sum(VolumeShares(volumes, mass)) == mass
  {
    var total := Sum(volumes);
    var f := mass / total;
    calc {
      Sum(VolumeShares(volumes, mass));
    == { assert VolumeShares(volumes, mass) == Scaled(volumes, f); }
      Sum(Scaled(volumes, f));
    == { SumScaled(volumes, f); }
      total * f;
    == { DivCancel(0.0, mass, total); }
      mass;
    }
  }

  /** Each share is proportional to its volume. */
  lemma SharesProportional(volumes: seq<real>, mass: real, i: nat)
    requires Sum(volumes) > 0.0 && i < |volumes|
    ensures VolumeShares(volumes, mass)[i] * Sum(volumes) == volumes[i] * mass
  {
    DivCancel(volumes[i], mass, Sum(volumes));
  }

  /** The values `cell_fracture_post_process` gives the mass property of
      each fragment, from the fragments' volumes. */
  function Masses(useMass: bool, mode: MassMode, mass: real, volumes: seq<real>)
    : (r: Result<seq<Option<real>>, FractureError>)
    ensures r.Err? <==> useMass && mode == OtherMode
    ensures r.Err? ==> r.error == UnknownMassMode
    ensures r.Ok? ==> |r.value| == |volumes|
    ensures r.Ok? && !useMass ==> forall i :: 0 <= i < |volumes| ==> r.value[i] == None
    ensures r.Ok? && useMass && mode == UniformMass ==> forall i :: 0 <= i < |volumes| ==> r.value[i] == Some(mass)
    ensures r.Ok? && useMass && mode == VolumeMass && Sum(volumes) <= 0.0 ==>
      forall i :: 0 <= i < |volumes| ==> r.value[i] == None
    ensures r.Ok? && useMass && mode == VolumeMass && Sum(volumes) > 0.0 ==>
      forall i :: 0 <= i < |volumes| ==> r.value[i] == Some(VolumeShares(volumes, mass)[i])
  {
    if !useMass then Ok(seq(|volumes|, _ => None))
    else match mode
      case UniformMass => Ok(seq(|volumes|, _ => Some(mass)))
      case VolumeMass =>
        if Sum(volumes) > 0.0 then
          var shares := VolumeShares(volumes, mass);
          Ok(seq(|volumes|, i requires 0 <= i < |volumes| => Some(shares[i])))
        else Ok(seq(|volumes|, _ => None))
      case OtherMode => Err(UnknownMassMode)
  }

  /** With volume mode and a positive total the assigned masses add up to
      `mass`. */
  lemma VolumeMassesSum(mass: real, volumes: seq<real>)
    requires Sum(volumes) > 0.0
    ensures var r := Masses(true, VolumeMass, mass, volumes);
      r.Ok? && Sum(seq(|volumes|, i requires 0 <= i < |volumes| => r.value[i].value)) == mass
  {
    var r := Masses(true, VolumeMass, mass, volumes);
    assert seq(|volumes|, i requires 0 <= i < |volumes| => r.value[i].value) == VolumeShares(volumes, mass);
    SharesSumToMass(volumes, mass);
  }

  /** The volume branch: with a positive total every fragment gets its
      share, otherwise nothing is assigned. */
  method VolumeProps(volumes: seq<real>, mass: real) returns (props: seq<Option<real>>)
    ensures props == Masses(true, VolumeMass, mass, volumes).value
  {
    var total := Sum(volumes);
    props := seq(|volumes|, _ => None);
    if total > 0.0 {
      var massFac := mass / total;
      ghost var shares := VolumeShares(volumes, mass);
      for i := 0 to |volumes|
        invariant |props| == |volumes|
        invariant forall k :: 0 <= k < |volumes| ==> props[k] == if k < i then Some(shares[k]) else None
      {
        assert shares[i] == volumes[i] * massFac;
        props := props[i := Some(volumes[i] * massFac)];
      }
    }
  }

  /** The mass step of `cell_fracture_post_process`, for fragments with the
      world-space bounding-box corners `corners`: the volumes are taken one
      fragment at a time, then the property of each is set. */
  method AssignMasses(useMass: bool, mode: MassMode, mass: real, corners: seq<seq<Vec3>>)
    returns (r: Result<seq<Option<real>>, FractureError>)
    requires forall i :: 0 <= i < |corners| ==> |corners[i]| >= 8
    ensures r == Masses(useMass, mode, mass, seq(|corners|, i requires 0 <= i < |corners| => BoxVolume(corners[i][..8])))
  {
    var volumes: seq<real> := [];
    for i := 0 to |corners|
      invariant volumes == seq(i, k requires 0 <= k < i => BoxVolume(corners[k][..8]))
    {
      var v := ObjectVolume(corners[i]);
      volumes := volumes + [v];
    }
    if !useMass {
      return Ok(seq(|volumes|, _ => None));
    }
    match mode {
      case UniformMass =>
        var props: seq<Option<real>> := [];
        for i := 0 to |volumes|
          invariant props == seq(i, _ => Some(mass))
        {
          props := props + [Some(mass)];
        }
        return Ok(props);
      case VolumeMass =>
        var props := VolumeProps(volumes, mass);
        return Ok(props);
      case OtherMode =>
        return Err(UnknownMassMode);
    }
  }
}
