/** Three-component vectors over the reals, as mathutils.Vector is used by the
    add-on, and the square root the add-on takes from the host. */
module Geometry {

  datatype Vec3 = Vec3(x: real, y: real, z: real)

  const Zero := Vec3(0.0, 0.0, 0.0)

  function Add(a: Vec3, b: Vec3): Vec3 { Vec3(a.x + b.x, a.y + b.y, a.z + b.z) }

  function Sub(a: Vec3, b: Vec3): Vec3 { Vec3(a.x - b.x, a.y - b.y, a.z - b.z) }

  function Scale(a: Vec3, k: real): Vec3 { Vec3(a.x * k, a.y * k, a.z * k) }

  /** Component-wise product, as the scaled neighbour direction uses it. */
  function Mul(a: Vec3, b: Vec3): Vec3 { Vec3(a.x * b.x, a.y * b.y, a.z * b.z) }

  function Dot(a: Vec3, b: Vec3): real { a.x * b.x + a.y * b.y + a.z * b.z }

  lemma PositiveProduct(r: real, s: real)
    requires r > 0.0 && s > 0.0
    ensures r * s > 0.0
  {
  }

  lemma NegativeProduct(r: real, s: real)
    requires r < 0.0 && s < 0.0
    ensures r * s > 0.0
  {
    PositiveProduct(-r, -s);
  }

  /** The identity on reals. `Square` multiplies by it so that the solver
      treats a square as a product of two terms rather than a power, which
      its arithmetic cannot bound. */
  function Same(r: real): real { r }

  function Square(r: real): real { r * Same(r) }

  /** A square is never negative, and is positive unless its root is zero. */
  lemma SquareSign(r: real)
    ensures Square(r) >= 0.0
    ensures r != 0.0 ==> Square(r) > 0.0
  {
    if r > 0.0 {
      PositiveProduct(r, Same(r));
    } else if r < 0.0 {
      NegativeProduct(r, Same(r));
    }
  }

  /** `Vector.length_squared`, never negative. */
  function LengthSq(a: Vec3): (r: real)
    ensures r >= 0.0
  {
    SquareSign(a.x);
    SquareSign(a.y);
    SquareSign(a.z);
    Square(a.x) + Square(a.y) + Square(a.z)
  }

  /** A vector minus itself has length zero. */
  lemma LengthSqSelf(v: Vec3)
    ensures LengthSq(Sub(v, v)) == 0.0
  {
    assert Sub(v, v) == Zero;
  }

  /** `sqrt` is the host's square root: the non-negative root of every
      non-negative argument. */
  ghost predicate IsSqrt(sqrt: real -> real)
  {
    forall x :: SqrtAt(sqrt, x)
  }

  /** `sqrt(x)` is the non-negative root of `x`, for a non-negative `x`. */
  ghost predicate SqrtAt(sqrt: real -> real, x: real)
  {
    0.0 <= x ==> 0.0 <= sqrt(x) && sqrt(x) * sqrt(x) == x
  }

  /** `Vector.normalized()`: the vector divided by its length; a vector of
      length zero becomes the zero vector. */
  function Normalized(sqrt: real -> real, v: Vec3): Vec3
  {
    var len := sqrt(LengthSq(v));
    if len == 0.0 then Zero else Scale(v, 1.0 / len)
  }

  /** The squared length is the dot product of a vector with itself. */
  lemma LengthSqIsDot(a: Vec3)
    ensures LengthSq(a) == Dot(a, a)
  {
  }

  /** Only the zero vector has squared length zero. */
  lemma LengthSqPositive(a: Vec3)
    requires a != Zero
    ensures LengthSq(a) > 0.0
  {
    SquareSign(a.x);
    SquareSign(a.y);
    SquareSign(a.z);
  }

  lemma DotScale(a: Vec3, k: real, b: Vec3)
    ensures Dot(Scale(a, k), b) == k * Dot(a, b)
  {
  }

  /** `normalized()` of a non-zero vector is the vector over its length, and
      has length one. */
  lemma NormalizedUnit(sqrt: real -> real, v: Vec3)
    requires IsSqrt(sqrt) && v != Zero
    ensures sqrt(LengthSq(v)) > 0.0
    ensures Normalized(sqrt, v) == Scale(v, 1.0 / sqrt(LengthSq(v)))
    ensures LengthSq(Normalized(sqrt, v)) == 1.0
  {
    var l := LengthSq(v);
    LengthSqPositive(v);
    assert SqrtAt(sqrt, l);
    var n := sqrt(l);
    assert n * n == l;
    var k := 1.0 / n;
    var u := Scale(v, k);
    LengthSqIsDot(v);
    LengthSqIsDot(u);
    DotScale(v, k, u);
    DotScale(v, k, v);
    assert Dot(v, u) == Dot(u, v);
    calc {
      LengthSq(u);
      k * (k * Dot(v, v));
      k * k * (n * n);
      (k * n) * (k * n);
      { assert k * n == 1.0; }
      1.0;
    }
  }

  /** The squared distance from `x` to `v`, expanded. */
  lemma LengthSqSub(x: Vec3, v: Vec3)
    ensures LengthSq(Sub(x, v)) == LengthSq(x) - 2.0 * Dot(v, x) + LengthSq(v)
  {
    LengthSqIsDot(x);
    LengthSqIsDot(v);
    LengthSqIsDot(Sub(x, v));
  }

  /** Dividing by a positive number keeps the sign. */
  lemma QuotientSign(d: real, w: real)
    requires w > 0.0
    ensures d / w <= 0.0 <==> d <= 0.0
  {
    var r := d / w;
    assert r * w == d;
    if r > 0.0 {
      PositiveProduct(r, w);
    } else {
      MulMonotone(w, r, 0.0);
    }
  }

  /** The plane with normal `v / n` and offset `-n / 2 + m`, where `n` is the
      length of `v`: at every point `x` its value is `m` plus the difference
      of the squared distances from `x` to the origin and to `v`, over `2 * n`. */
  lemma BisectorValue(v: Vec3, n: real, m: real, x: Vec3)
    requires n > 0.0 && n * n == LengthSq(v)
    ensures Dot(Scale(v, 1.0 / n), x) + (-n / 2.0 + m)
            == m + (LengthSq(x) - LengthSq(Sub(x, v))) / (2.0 * n)
  {
    var k := 1.0 / n;
    var a := Dot(Scale(v, k), x);
    var d := Dot(v, x);
    var diff := LengthSq(x) - LengthSq(Sub(x, v));
    DistanceDifference(x, v, n);
    DotScale(v, k, x);
    BisectorValueReals(a, k, d, diff, n, m);
  }

  /** On the same plane, the midpoint `v / 2` has value `m` and `v` itself
      the value `n / 2 + m`. */
  lemma BisectorAtPoints(v: Vec3, n: real, m: real)
    requires n > 0.0 && n * n == LengthSq(v)
    ensures Dot(Scale(v, 1.0 / n), Scale(v, 0.5)) + (-n / 2.0 + m) == m
    ensures Dot(Scale(v, 1.0 / n), v) + (-n / 2.0 + m) == n / 2.0 + m
  {
    var k := 1.0 / n;
    LengthSqIsDot(v);
    DotScale(v, k, v);
    DotScale(v, k, Scale(v, 0.5));
    DotScale(v, 0.5, v);
    assert Dot(v, Scale(v, 0.5)) == Dot(Scale(v, 0.5), v);
    HalfLength(Dot(Scale(v, k), v), Dot(Scale(v, k), Scale(v, 0.5)), k, Dot(v, v), n);
  }

  /** The step of `BisectorAtPoints` on plain reals. */
  lemma HalfLength(a: real, b: real, k: real, d: real, n: real)
    requires n > 0.0 && k == 1.0 / n && d == n * n && a == k * d && b == k * (0.5 * d)
    ensures a == n && b == n / 2.0
  {
  }

  lemma DistanceDifference(x: Vec3, v: Vec3, n: real)
    requires n * n == LengthSq(v)
    ensures LengthSq(x) - LengthSq(Sub(x, v)) == 2.0 * Dot(v, x) - n * n
  {
    LengthSqSub(x, v);
  }

  /** The step of `BisectorValue` on plain reals. */
  lemma BisectorValueReals(a: real, k: real, d: real, diff: real, n: real, m: real)
    requires n > 0.0 && k == 1.0 / n && a == k * d && diff == 2.0 * d - n * n
    ensures a + (-n / 2.0 + m) == m + diff / (2.0 * n)
  {
  }

  lemma MulMonotone(a: real, b: real, c: real)
    requires 0.0 <= a && b <= c
    ensures a * b <= a * c
  {
  }

  /** A square root of at least 10^10 is at least 10^5. */
  lemma SqrtLowerBound(sqrt: real -> real, x: real)
    requires IsSqrt(sqrt)
    requires x >= 10000000000.0
    ensures sqrt(x) >= 100000.0
  {
    assert SqrtAt(sqrt, x);
    var s := sqrt(x);
    assert s >= 0.0 && s * s == x;
    if s < 100000.0 {
      MulMonotone(s, s, 100000.0);
    }
  }
}
