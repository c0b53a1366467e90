/** World positions and the shared range test `Range::within` of
    src/towers.rs. Positions are exact reals; floating-point rounding is not
    modelled. */
module Geometry {
  import opened Common

  datatype Vec3 = Vec3(x: real, y: real, z: real)

  /** Squared Euclidean distance (`Vec3::distance_squared`). */
  function DistSq(a: Vec3, b: Vec3): real
  {
    (a.x - b.x) * (a.x - b.x) + (a.y - b.y) * (a.y - b.y) + (a.z - b.z) * (a.z - b.z)
  }

  lemma DistSqNonNegative(a: Vec3, b: Vec3)
    ensures DistSq(a, b) >= 0.0
  {
    SquareNonNegative(a.x - b.x);
    SquareNonNegative(a.y - b.y);
    SquareNonNegative(a.z - b.z);
  }

  lemma SquareNonNegative(x: real)
    ensures x * x >= 0.0
  {
    if x < 0.0 {
      assert x * x == (-x) * (-x);
    }
  }

  /** `a.distance(b) <= r`, written without the square root. */
  predicate DistanceAtMost(a: Vec3, b: Vec3, r: real)
  {
    0.0 <= r && DistSq(a, b) <= r * r
  }

  /** The square-root-free test agrees with comparing the true distance `d`
      (the non-negative root of the squared distance) against `r`. */
  lemma {:induction false} DistanceAtMostIsDistance(a: Vec3, b: Vec3, r: real, d: real)
    requires 0.0 <= d && d * d == DistSq(a, b)
    ensures d <= r <==> DistanceAtMost(a, b, r)
  {
    if d <= r {
      assert 0.0 <= r;
      MonotoneSquare(d, r);
    } else if 0.0 <= r {
      MonotoneSquare(r, d);
      assert r * r < d * d by { StrictSquare(r, d); }
    }
  }

  lemma MonotoneSquare(a: real, b: real)
    requires 0.0 <= a <= b
    ensures a * a <= b * b
  {
    assert a * a <= a * b;
    assert a * b <= b * b;
  }

  lemma StrictSquare(a: real, b: real)
    requires 0.0 <= a < b
    ensures a * a < b * b
  {
    var d := b - a;
    assert b * b == a * a + 2.0 * a * d + d * d;
    assert 0.0 <= a * d;
    assert 0.0 < d * d;
  }

  /** The bounding-box half of `Range::within`: `|dx| <= r/2` and `|dz| <= r/2`. */
  predicate InBox(r: real, target: Vec3, origin: Vec3)
  {
    && target.x >= origin.x - r / 2.0
    && target.x <= origin.x + r / 2.0
    && target.z >= origin.z - r / 2.0
    && target.z <= origin.z + r / 2.0
  }

  /** `Range(r).within(target, origin)`: the box test, then the 3-D distance test. */
  predicate Within(r: real, target: Vec3, origin: Vec3)
  {
    InBox(r, target, origin) && DistanceAtMost(target, origin, r)
  }

  /** The two clauses of `within` read as absolute differences. */
  lemma WithinMeaning(r: real, t: Vec3, o: Vec3)
    ensures Within(r, t, o) <==>
      && Abs(t.x - o.x) <= r / 2.0
      && Abs(t.z - o.z) <= r / 2.0
      && 0.0 <= r && DistSq(t, o) <= r * r
  {
  }

  /** Swapping target and origin never changes the verdict. */
  lemma WithinSymmetric(r: real, t: Vec3, o: Vec3)
    ensures Within(r, t, o) <==> Within(r, o, t)
  {
    assert DistSq(t, o) == DistSq(o, t);
  }

  /** On the ground plane (no height difference) the box already implies the
      distance test, so `within` is just the half-width box. */
  lemma {:induction false} PlanarBoxSuffices(r: real, t: Vec3, o: Vec3)
    requires t.y == o.y && 0.0 <= r
    ensures Within(r, t, o) <==> InBox(r, t, o)
  {
    if InBox(r, t, o) {
      var dx, dz := t.x - o.x, t.z - o.z;
      HalfSquare(dx, r);
      HalfSquare(dz, r);
      assert DistSq(t, o) == dx * dx + dz * dz;
      assert dx * dx + dz * dz <= r * r / 2.0;
    }
  }

  lemma HalfSquare(d: real, r: real)
    requires 0.0 <= r && -(r / 2.0) <= d <= r / 2.0
    ensures d * d <= r * r / 4.0
  {
    var h := r / 2.0;
    if d >= 0.0 {
      MonotoneSquare(d, h);
    } else {
      MonotoneSquare(-d, h);
      assert d * d == (-d) * (-d);
    }
    assert h * h == r * r / 4.0;
  }

  /** A point exactly half the range away along the x axis is accepted. */
  lemma AxisHalfRangeAccepted(r: real, o: Vec3)
    requires 0.0 <= r
    ensures Within(r, Vec3(o.x + r / 2.0, o.y, o.z), o)
  {
    PlanarBoxSuffices(r, Vec3(o.x + r / 2.0, o.y, o.z), o);
  }

  /** A point a full range away along the x axis is rejected by the box,
      although its true distance is exactly `r`. */
  lemma AxisFullRangeRejected(r: real, o: Vec3)
    requires 0.0 < r
    ensures !Within(r, Vec3(o.x + r, o.y, o.z), o)
    ensures DistanceAtMost(Vec3(o.x + r, o.y, o.z), o, r)
  {
  }

  /** A negative range contains nothing, not even the origin itself. */
  lemma NegativeRangeIsEmpty(r: real, t: Vec3, o: Vec3)
    requires r < 0.0
    ensures !Within(r, t, o)
  {
  }

  /** Every point is within any non-negative range of itself. */
  lemma WithinReflexive(r: real, o: Vec3)
    requires 0.0 <= r
    ensures Within(r, o, o)
  {
  }
}
