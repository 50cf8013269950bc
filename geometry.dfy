// Geometric predicates of simplicial.js: the affine rescaling helper, the
// squared distance between two points and the closed disk-intersection test.
// Coordinates and radii are exact reals; floating-point rounding is not modelled.
module Geometry {

  /** Maps `value` from the interval [x0, x1] onto the interval [y0, y1]. */
  function LinearMap(value: real, x0: real, x1: real, y0: real, y1: real): (r: real)
    requires x0 != x1
    ensures value == x0 ==> r == y0
    ensures value == x1 ==> r == y1
  {
    QuotientFacts(value - x0, x1 - x0);
    (value - x0) / (x1 - x0) * (y1 - y0) + y0
  }

  /** The squared Euclidean distance between (x0, y0) and (x1, y1). */
  function Distance2(x0: real, y0: real, x1: real, y1: real): (d: real)
    ensures d >= 0.0
    ensures x0 == x1 && y0 == y1 ==> d == 0.0
  {
    var x := x0 - x1;
    var y := y0 - y1;
    SquareNonNegative(x);
    SquareNonNegative(y);
    x * x + y * y
  }

  /**
   * Whether the closed disks of radius `radius0` about (x0, y0) and of radius
   * `radius1` about (x1, y1) meet. Tangent disks count as meeting.
   */
  predicate DoCircleIntersects(x0: real, y0: real, radius0: real, x1: real, y1: real, radius1: real)
  {
    var radius := radius0 + radius1;
    Distance2(x0, y0, x1, y1) <= radius * radius
  }

  lemma ProductNonNegative(a: real, b: real)
    requires 0.0 <= a && 0.0 <= b
    ensures 0.0 <= a * b
  {
  }

  lemma ProductPositive(a: real, b: real)
    requires 0.0 < a && 0.0 < b
    ensures 0.0 < a * b
  {
  }

  lemma SquareNonNegative(x: real)
    ensures x * x >= 0.0
  {
    if x < 0.0 {
      ProductPositive(-x, -x);
    } else if x > 0.0 {
      ProductPositive(x, x);
    }
  }

  /** A quotient n / d with 0 <= n <= d lies in the unit interval. */
  lemma FractionInUnit(n: real, d: real)
    requires 0.0 < d && 0.0 <= n <= d
    ensures 0.0 <= n / d <= 1.0
  {
    var t := n / d;
    assert t * d == n;
  }

  /** For non-negative a and b, a <= b exactly when a * a <= b * b. */
  lemma SquareMonotone(a: real, b: real)
    requires 0.0 <= a && 0.0 <= b
    ensures a <= b <==> a * a <= b * b
  {
    if a <= b {
      ProductNonNegative(a, b - a);
      ProductNonNegative(b, b - a);
    } else {
      ProductNonNegative(b, a - b);
      ProductPositive(a, a - b);
    }
  }

  // ---------------------------------------------------------------------------
  // linearMap

  /** Quotient facts linearMap relies on: 0 / d = 0, d / d = 1, (n / d) * d = n. */
  lemma QuotientFacts(n: real, d: real)
    requires d != 0.0
    ensures n == 0.0 ==> n / d == 0.0
    ensures n == d ==> n / d == 1.0
    ensures n / d * d == n
  {
  }

  /** Inside [x0, x1] with y0 <= y1 the result stays inside [y0, y1]. */
  lemma LinearMapBounded(value: real, x0: real, x1: real, y0: real, y1: real)
    requires x0 < x1 && y0 <= y1
    requires x0 <= value <= x1
    ensures y0 <= LinearMap(value, x0, x1, y0, y1) <= y1
  {
    var t := (value - x0) / (x1 - x0);
    var h := y1 - y0;
    FractionInUnit(value - x0, x1 - x0);
    ProductNonNegative(t, h);
    ProductNonNegative(1.0 - t, h);
    assert (1.0 - t) * h == h - t * h;
  }

  /** linearMap is order preserving when both intervals point the same way. */
  lemma LinearMapMonotone(v: real, w: real, x0: real, x1: real, y0: real, y1: real)
    requires x0 < x1 && y0 <= y1
    requires v <= w
    ensures LinearMap(v, x0, x1, y0, y1) <= LinearMap(w, x0, x1, y0, y1)
  {
    var d := x1 - x0;
    var h := y1 - y0;
    var s := (v - x0) / d;
    var t := (w - x0) / d;
    assert t - s == (w - v) / d;
    assert (w - v) / d >= 0.0;
    ProductNonNegative(t - s, h);
    assert (t - s) * h == t * h - s * h;
  }

  /** Mapping [x0, x1] onto [y0, y1] and back gives the value back. */
  lemma LinearMapRoundTrip(value: real, x0: real, x1: real, y0: real, y1: real)
    requires x0 != x1 && y0 != y1
    ensures LinearMap(LinearMap(value, x0, x1, y0, y1), y0, y1, x0, x1) == value
  {
    var t := (value - x0) / (x1 - x0);
    var h := y1 - y0;
    var m := LinearMap(value, x0, x1, y0, y1);
    assert m - y0 == t * h;
    assert t * h / h == t;
    QuotientFacts(value - x0, x1 - x0);
  }

  // ---------------------------------------------------------------------------
  // distance2 and doCircleIntersects

  /** distance2 does not depend on the order of its two points. */
  lemma Distance2Symmetric(x0: real, y0: real, x1: real, y1: real)
    ensures Distance2(x0, y0, x1, y1) == Distance2(x1, y1, x0, y0)
  {
    assert (x0 - x1) * (x0 - x1) == (x1 - x0) * (x1 - x0);
    assert (y0 - y1) * (y0 - y1) == (y1 - y0) * (y1 - y0);
  }

  /** The intersection test is symmetric in its two circles. */
  lemma IntersectsSymmetric(x0: real, y0: real, radius0: real, x1: real, y1: real, radius1: real)
    ensures DoCircleIntersects(x0, y0, radius0, x1, y1, radius1)
        <==> DoCircleIntersects(x1, y1, radius1, x0, y0, radius0)
  {
    Distance2Symmetric(x0, y0, x1, y1);
  }

  /**
   * Geometric meaning of the test: for non-negative radii, the disks meet
   * exactly when the distance d between the centres is at most the sum of the
   * radii (d is any non-negative number whose square is distance2).
   */
  lemma IntersectsIffWithinSumOfRadii(x0: real, y0: real, radius0: real, x1: real, y1: real, radius1: real, d: real)
    requires 0.0 <= radius0 && 0.0 <= radius1
    requires 0.0 <= d && d * d == Distance2(x0, y0, x1, y1)
    ensures DoCircleIntersects(x0, y0, radius0, x1, y1, radius1) <==> d <= radius0 + radius1
  {
    SquareMonotone(d, radius0 + radius1);
  }

  /** Growing the radii never separates two disks that already meet. */
  lemma IntersectsMonotone(x0: real, y0: real, x1: real, y1: real, r0: real, r1: real, s0: real, s1: real)
    requires 0.0 <= r0 + r1 <= s0 + s1
    requires DoCircleIntersects(x0, y0, r0, x1, y1, r1)
    ensures DoCircleIntersects(x0, y0, s0, x1, y1, s1)
  {
    SquareMonotone(r0 + r1, s0 + s1);
  }

  /** Disks whose centres are exactly the sum of the radii apart (tangent) meet. */
  lemma TangentCirclesIntersect(x0: real, y0: real, radius0: real, x1: real, y1: real, radius1: real)
    requires Distance2(x0, y0, x1, y1) == (radius0 + radius1) * (radius0 + radius1)
    ensures DoCircleIntersects(x0, y0, radius0, x1, y1, radius1)
  {
  }

  /** Coincident centres always meet, whatever the radii. */
  lemma CoincidentCirclesIntersect(x: real, y: real, radius0: real, radius1: real)
    ensures DoCircleIntersects(x, y, radius0, x, y, radius1)
  {
    SquareNonNegative(radius0 + radius1);
  }
}
