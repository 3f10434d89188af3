/** Plane geometry used to score helix arrangements: points, the loop
    crossing predicate lineSegmentIntersection, and the facts that make it
    usable without a square root. Coordinates are exact reals; the
    floating-point rounding of the original is not modelled. */
module Geometry {

  datatype Point = Point(x: real, y: real)

  function Sub(p: Point, q: Point): Point {
    Point(p.x - q.x, p.y - q.y)
  }

  /** z-component of the cross product of u and v */
  function Cross(u: Point, v: Point): real {
    u.x * v.y - u.y * v.x
  }

  function Dot(u: Point, v: Point): real {
    u.x * v.x + u.y * v.y
  }

  /** squared Euclidean length */
  function Norm2(u: Point): real {
    Dot(u, u)
  }

  /** the point p + t * (q - p) on the line through p and q */
  function Lerp(p: Point, q: Point, t: real): Point {
    Point(p.x + t * (q.x - p.x), p.y + t * (q.y - p.y))
  }

  predicate SharesEndpoint(a: Point, b: Point, c: Point, d: Point) {
    a == c || b == c || a == d || b == d
  }

  /** Segments AB and CD have a common point, at fraction t along AB and s along CD. */
  predicate MeetAt(a: Point, b: Point, c: Point, d: Point, t: real, s: real) {
    0.0 <= t <= 1.0 && 0.0 <= s <= 1.0 && Lerp(a, b, t) == Lerp(c, d, s)
  }

  lemma SquareNonNegative(r: real)
    ensures r * r >= 0.0
    ensures r != 0.0 ==> r * r > 0.0
  {
    if r < 0.0 {
      assert r * r == (-r) * (-r);
    }
  }

  lemma SumOfSquaresPositive(p: real, q: real)
    requires p != 0.0 || q != 0.0
    ensures p * p + q * q > 0.0
  {
    SquareNonNegative(p);
    SquareNonNegative(q);
    if p != 0.0 {
      assert p * p > 0.0;
    } else {
      assert q * q > 0.0;
    }
  }

  lemma NormPositive(u: Point)
    requires u != Point(0.0, 0.0)
    ensures Norm2(u) > 0.0
  {
    assert u == Point(u.x, u.y);
    SumOfSquaresPositive(u.x, u.y);
    calc {
      Norm2(u);
    ==
      u.x * u.x + u.y * u.y;
    >
      0.0;
    }
  }

  /** A non-negative root of a positive number is positive. */
  lemma RootPositive(a: Point, b: Point, k: real)
    requires a != b && k >= 0.0 && k * k == Norm2(Sub(b, a))
    ensures k > 0.0
  {
    NormPositive(Sub(b, a));
    SquareNonNegative(k);
  }

  /** v in the frame whose x axis has direction (cos, sin) */
  function Rotate(v: Point, cos: real, sin: real): Point {
    Point(v.x * cos + v.y * sin, v.y * cos - v.x * sin)
  }

  /**
   * The test the source applies in the rotated frame, where B lies at
   * (distAB, 0): C and D on different sides of the x axis (one strictly
   * below, the other on or above it), and the crossing point of CD with the
   * axis within [0, distAB].
   */
  predicate AxisTest(c: Point, d: Point, distAB: real) {
    if (c.y < 0.0 && d.y < 0.0) || (c.y >= 0.0 && d.y >= 0.0) then
      false
    else
      var abPos := AxisCrossing(c.x, c.y, d.x, d.y);
      !(abPos < 0.0 || abPos > distAB)
  }

  /** x coordinate at which the line through (cx, cy) and (dx, dy) meets the x axis */
  function AxisCrossing(cx: real, cy: real, dx: real, dy: real): real
    requires cy != dy
  {
    dx + (cx - dx) * dy / (dy - cy)
  }

  /**
   * lineSegmentIntersection as the source computes it. `distAB` stands for
   * the one square root the source takes, sqrt(|B - A|^2); the caller
   * supplies it, and it is only used once both early exits have failed.
   */
  function LineSegmentIntersection(a: Point, b: Point, c: Point, d: Point, distAB: real): (r: bool)
    requires distAB >= 0.0 && distAB * distAB == Norm2(Sub(b, a))
    ensures a == b || c == d ==> !r
    ensures SharesEndpoint(a, b, c, d) ==> !r
  {
    if a == b || c == d then
      false
    else if SharesEndpoint(a, b, c, d) then
      false
    else
      // translate so that A is at the origin, then rotate B onto the positive x axis
      var u := Sub(b, a);
      RootPositive(a, b, distAB);
      var theCos := u.x / distAB;
      var theSin := u.y / distAB;
      AxisTest(Rotate(Sub(c, a), theCos, theSin), Rotate(Sub(d, a), theCos, theSin), distAB)
  }

  /** Position, scaled by |AB|^2, at which line CD crosses line AB, measured from A. */
  function ScaledCrossing(a: Point, b: Point, c: Point, d: Point): real
    requires Cross(Sub(b, a), Sub(c, a)) != Cross(Sub(b, a), Sub(d, a))
  {
    var u := Sub(b, a);
    AxisCrossing(Dot(u, Sub(c, a)), Cross(u, Sub(c, a)), Dot(u, Sub(d, a)), Cross(u, Sub(d, a)))
  }

  /** C and D are split by line AB: one strictly to its right, the other on it or to its left. */
  predicate SplitByLine(a: Point, b: Point, c: Point, d: Point) {
    var u := Sub(b, a);
    (Cross(u, Sub(c, a)) < 0.0) != (Cross(u, Sub(d, a)) < 0.0)
  }

  /**
   * The same decision as LineSegmentIntersection, stated with cross and dot
   * products only, so that no square root is needed.
   */
  predicate SegmentsCross(a: Point, b: Point, c: Point, d: Point) {
    && a != b && c != d
    && !SharesEndpoint(a, b, c, d)
    && SplitByLine(a, b, c, d)
    && 0.0 <= ScaledCrossing(a, b, c, d) <= Norm2(Sub(b, a))
  }

  /** Rotating by the direction of u divides dot and cross products with u by |u|. */
  lemma RotateByDirection(u: Point, v: Point, k: real)
    requires k != 0.0
    ensures Rotate(v, u.x / k, u.y / k) == Point(Dot(u, v) / k, Cross(u, v) / k)
  {
    assert v.x * (u.x / k) + v.y * (u.y / k) == (u.x * v.x + u.y * v.y) / k;
    assert v.y * (u.x / k) - v.x * (u.y / k) == (u.x * v.y - u.y * v.x) / k;
  }

  lemma ScaledQuotient(x: real, y: real, z: real, k: real)
    requires k != 0.0 && z != 0.0
    ensures (x / k) * (y / k) / (z / k) == (x * y / z) / k
  {
    var a, b, c := x / k, y / k, z / k;
    var lhs := a * b / c;
    var r := x * y / z;
    assert a * k == x && b * k == y && c * k == z;
    assert lhs * c == a * b;
    assert (lhs * k) * z == (lhs * c) * (k * k);
    assert (a * b) * (k * k) == (a * k) * (b * k);
    assert r * z == x * y;
    CancelFactor(lhs * k, r, z);
    assert lhs == r / k;
  }

  lemma ScaledPosition(dc: real, dd: real, sc: real, sd: real, k: real)
    requires k > 0.0 && sd != sc
    ensures AxisCrossing(dc / k, sc / k, dd / k, sd / k) == AxisCrossing(dc, sc, dd, sd) / k
  {
    assert dc / k - dd / k == (dc - dd) / k;
    assert sd / k - sc / k == (sd - sc) / k;
    ScaledQuotient(dc - dd, sd, sd - sc, k);
  }

  lemma DivBounds(p: real, k: real, n: real)
    requires k > 0.0 && k * k == n
    ensures p / k < 0.0 <==> p < 0.0
    ensures p / k > k <==> p > n
  {
    assert (p / k) * k == p;
    if p / k > k {
      assert (p / k) * k > k * k;
    }
    if p > k * k {
      assert (p / k) * k > k * k;
    }
  }

  /** The axis test on coordinates scaled by 1/k is the unscaled test against k^2. */
  lemma AxisTestScaled(dc: real, sc: real, dd: real, sd: real, k: real, n: real)
    requires k > 0.0 && k * k == n
    ensures AxisTest(Point(dc / k, sc / k), Point(dd / k, sd / k), k)
         == (((sc < 0.0) != (sd < 0.0)) && 0.0 <= AxisCrossing(dc, sc, dd, sd) <= n)
  {
    DivBounds(sc, k, n);
    DivBounds(sd, k, n);
    if (sc < 0.0) != (sd < 0.0) {
      ScaledPosition(dc, dd, sc, sd, k);
      DivBounds(AxisCrossing(dc, sc, dd, sd), k, n);
    }
  }

  /**
   * The source's rotated-frame computation decides exactly what the
   * root-free predicate decides, whatever value the square root has.
   */
  lemma LineSegmentIntersectionIsRootFree(a: Point, b: Point, c: Point, d: Point, distAB: real)
    requires distAB >= 0.0 && distAB * distAB == Norm2(Sub(b, a))
    ensures LineSegmentIntersection(a, b, c, d, distAB) == SegmentsCross(a, b, c, d)
  {
    if a != b && c != d && !SharesEndpoint(a, b, c, d) {
      var u := Sub(b, a);
      RootPositive(a, b, distAB);
      var k := distAB;
      RotateByDirection(u, Sub(c, a), k);
      RotateByDirection(u, Sub(d, a), k);
      var dc, sc, dd, sd := Dot(u, Sub(c, a)), Cross(u, Sub(c, a)), Dot(u, Sub(d, a)), Cross(u, Sub(d, a));
      AxisTestScaled(dc, sc, dd, sd, k, Norm2(u));
      assert LineSegmentIntersection(a, b, c, d, distAB) == SegmentsCross(a, b, c, d);
    } else {
      assert !SegmentsCross(a, b, c, d);
      assert !LineSegmentIntersection(a, b, c, d, distAB);
    }
  }

  /** Two vectors with zero cross product: v is a multiple of u. */
  lemma ParallelIsMultiple(u: Point, v: Point)
    requires Norm2(u) > 0.0 && Cross(u, v) == 0.0
    ensures v.x == (Dot(u, v) / Norm2(u)) * u.x
    ensures v.y == (Dot(u, v) / Norm2(u)) * u.y
  {
    var n := Norm2(u);
    assert v.x * n == u.x * Dot(u, v) - u.y * Cross(u, v);
    assert v.y * n == u.y * Dot(u, v) + u.x * Cross(u, v);
  }

  lemma SplitParameter(sc: real, sd: real)
    requires (sc < 0.0) != (sd < 0.0)
    ensures sc != sd
    ensures 0.0 <= sc / (sc - sd) <= 1.0
  {
    var s := sc / (sc - sd);
    assert s * (sc - sd) == sc;
    if sc < 0.0 {
      assert sc - sd < 0.0;
    } else {
      assert sc - sd > 0.0;
    }
  }

  lemma FractionInUnit(p: real, n: real)
    requires n > 0.0 && 0.0 <= p <= n
    ensures 0.0 <= p / n <= 1.0
  {
    assert (p / n) * n == p;
  }

  lemma StrictFraction(p: real, n: real)
    requires 0.0 < p < n
    ensures 0.0 < p / n < 1.0
  {
    var q := p / n;
    assert q * n == p;
    assert (1.0 - q) * n == n - p;
    MulSign(q, n);
    MulSign(1.0 - q, n);
  }

  lemma MulSign(x: real, y: real)
    requires y > 0.0
    ensures x * y > 0.0 ==> x > 0.0
    ensures x > 0.0 ==> x * y > 0.0
  {
  }

  lemma CancelFactor(x: real, y: real, z: real)
    requires z != 0.0 && x * z == y * z
    ensures x == y
  {
    assert x == (x * z) / z;
    assert y == (y * z) / z;
  }

  /**
   * Walking from C towards D by the fraction sc / (sc - sd) reaches, in
   * projection onto AB, the position the source computes for the crossing.
   */
  lemma CrossingPositions(dc: real, dd: real, sc: real, sd: real)
    requires sc != sd
    ensures dc + (sc / (sc - sd)) * (dd - dc) == AxisCrossing(dc, sc, dd, sd)
  {
    var z := sc - sd;
    var s := sc / z;
    assert s * z == sc;
    var lhs := dc + s * (dd - dc);
    assert lhs * z == dc * z + (s * z) * (dd - dc);
    assert lhs * z == sc * dd - dc * sd;
    var q := (dc - dd) * sd / (sd - sc);
    assert q * (sd - sc) == (dc - dd) * sd;
    assert q * z == (dd - dc) * sd;
    var rhs := dd + q;
    assert rhs * z == dd * z + q * z;
    assert rhs * z == sc * dd - dc * sd;
    CancelFactor(lhs, rhs, z);
  }

  /** The crossing fraction in terms of the four products alone. */
  lemma FractionFacts(dc: real, dd: real, sc: real, sd: real)
    requires (sc < 0.0) != (sd < 0.0)
    ensures sc != sd
    ensures 0.0 <= sc / (sc - sd) <= 1.0
    ensures sc + (sc / (sc - sd)) * (sd - sc) == 0.0
    ensures dc + (sc / (sc - sd)) * (dd - dc) == AxisCrossing(dc, sc, dd, sd)
  {
    SplitParameter(sc, sd);
    var s := sc / (sc - sd);
    assert s * (sc - sd) == sc;
    CrossingPositions(dc, dd, sc, sd);
  }

  /** Cross and dot products with u change linearly along segment CD. */
  lemma AlongSegment(a: Point, u: Point, c: Point, d: Point, s: real)
    ensures Cross(u, Sub(Lerp(c, d, s), a)) == Cross(u, Sub(c, a)) + s * (Cross(u, Sub(d, a)) - Cross(u, Sub(c, a)))
    ensures Dot(u, Sub(Lerp(c, d, s), a)) == Dot(u, Sub(c, a)) + s * (Dot(u, Sub(d, a)) - Dot(u, Sub(c, a)))
  {
  }

  lemma LerpStart(p: Point, q: Point)
    ensures Lerp(p, q, 0.0) == p
  {
  }

  lemma OffsetIsLerp(a: Point, b: Point, x: Point, t: real)
    requires Sub(x, a) == Point(t * (b.x - a.x), t * (b.y - a.y))
    ensures Lerp(a, b, t) == x
  {
  }

  /** Fraction of the way from C to D at which CD crosses line AB. */
  function CrossingFraction(a: Point, b: Point, c: Point, d: Point): real
    requires SplitByLine(a, b, c, d)
  {
    var u := Sub(b, a);
    var sc := Cross(u, Sub(c, a));
    var sd := Cross(u, Sub(d, a));
    sc / (sc - sd)
  }

  /** The point of CD at CrossingFraction lies on line AB, at ScaledCrossing along it. */
  lemma CrossingPointOnLine(a: Point, b: Point, c: Point, d: Point)
    requires SplitByLine(a, b, c, d)
    ensures 0.0 <= CrossingFraction(a, b, c, d) <= 1.0
    ensures Cross(Sub(b, a), Sub(Lerp(c, d, CrossingFraction(a, b, c, d)), a)) == 0.0
    ensures Dot(Sub(b, a), Sub(Lerp(c, d, CrossingFraction(a, b, c, d)), a)) == ScaledCrossing(a, b, c, d)
  {
    var u := Sub(b, a);
    AlongSegment(a, u, c, d, CrossingFraction(a, b, c, d));
    FractionFacts(Dot(u, Sub(c, a)), Dot(u, Sub(d, a)), Cross(u, Sub(c, a)), Cross(u, Sub(d, a)));
  }

  /**
   * Soundness: when the predicate answers true, the two segments really do
   * have a common point, at fraction ScaledCrossing / |AB|^2 along AB.
   */
  lemma SegmentsCrossMeet(a: Point, b: Point, c: Point, d: Point) returns (t: real, s: real)
    requires SegmentsCross(a, b, c, d)
    ensures MeetAt(a, b, c, d, t, s)
  {
    var u := Sub(b, a);
    NormPositive(u);
    CrossingPointOnLine(a, b, c, d);
    s := CrossingFraction(a, b, c, d);
    var w := Sub(Lerp(c, d, s), a);
    FractionInUnit(ScaledCrossing(a, b, c, d), Norm2(u));
    t := ScaledCrossing(a, b, c, d) / Norm2(u);
    ParallelIsMultiple(u, w);
    OffsetIsLerp(a, b, Lerp(c, d, s), t);
  }

  /** C lies on segment AB: on line AB, and between A and B along it. */
  predicate OnSegment(a: Point, b: Point, c: Point) {
    Cross(Sub(b, a), Sub(c, a)) == 0.0 && 0.0 <= Dot(Sub(b, a), Sub(c, a)) <= Norm2(Sub(b, a))
  }

  /** A point of segment AB is Lerp(A, B, t) for some t in [0, 1]. */
  lemma OnSegmentFraction(a: Point, b: Point, c: Point) returns (t: real)
    requires a != b && OnSegment(a, b, c)
    ensures 0.0 <= t <= 1.0 && Lerp(a, b, t) == c
  {
    var u := Sub(b, a);
    NormPositive(u);
    t := Dot(u, Sub(c, a)) / Norm2(u);
    FractionInUnit(Dot(u, Sub(c, a)), Norm2(u));
    ParallelIsMultiple(u, Sub(c, a));
    OffsetIsLerp(a, b, c, t);
  }

  /** Segment AB and any segment CD starting at a point C of AB meet at C. */
  lemma TouchPoint(a: Point, b: Point, c: Point, d: Point) returns (t: real)
    requires a != b && OnSegment(a, b, c)
    ensures MeetAt(a, b, c, d, t, 0.0)
  {
    t := OnSegmentFraction(a, b, c);
    LerpStart(c, d);
  }

  /**
   * Exact touching is not counted: when C lies on line AB and D on its
   * non-negative side, neither end of CD is strictly below AB, so the
   * predicate answers false even where TouchPoint shows that the segments meet.
   */
  lemma TouchingIsMissed(a: Point, b: Point, c: Point, d: Point)
    requires Cross(Sub(b, a), Sub(c, a)) == 0.0 && Cross(Sub(b, a), Sub(d, a)) >= 0.0
    ensures !SegmentsCross(a, b, c, d)
  {
  }

  /** C lies strictly between A and B on line AB. */
  predicate StrictlyInside(a: Point, b: Point, c: Point) {
    Cross(Sub(b, a), Sub(c, a)) == 0.0 && 0.0 < Dot(Sub(b, a), Sub(c, a)) < Norm2(Sub(b, a))
  }

  function Scale(t: real, u: Point): Point {
    Point(t * u.x, t * u.y)
  }

  lemma ScaleProducts(v: Point, t: real, u: Point)
    ensures Cross(v, Scale(t, u)) == t * Cross(v, u)
    ensures Dot(v, Scale(t, u)) == t * Dot(v, u)
  {
  }

  /** An interior point C splits AB into A - C = -t (B - A) and B - C = (1 - t) (B - A). */
  lemma InsideOffsets(a: Point, b: Point, c: Point) returns (t: real)
    requires a != b && StrictlyInside(a, b, c)
    ensures 0.0 < t < 1.0
    ensures Sub(a, c) == Scale(-t, Sub(b, a)) && Sub(b, c) == Scale(1.0 - t, Sub(b, a))
  {
    var u := Sub(b, a);
    NormPositive(u);
    t := Dot(u, Sub(c, a)) / Norm2(u);
    StrictFraction(Dot(u, Sub(c, a)), Norm2(u));
    ParallelIsMultiple(u, Sub(c, a));
  }

  /** The axis crossing of two points on opposite sides of the origin along one line is 0. */
  lemma CrossingAtOrigin(dv: real, sv: real, t: real)
    requires sv != 0.0 && 0.0 < t < 1.0
    ensures -t * sv != (1.0 - t) * sv
    ensures AxisCrossing(-t * dv, -t * sv, (1.0 - t) * dv, (1.0 - t) * sv) == 0.0
  {
    var sa, sb := -t * sv, (1.0 - t) * sv;
    assert sb - sa == sv;
    var q := (-t * dv - (1.0 - t) * dv) * sb / (sb - sa);
    assert q * sv == (-dv) * ((1.0 - t) * sv);
    CancelFactor(q, -(1.0 - t) * dv, sv);
  }

  lemma OppositeSides(sv: real, t: real)
    requires sv < 0.0 && 0.0 < t < 1.0
    ensures -t * sv > 0.0 && (1.0 - t) * sv < 0.0
  {
    assert -t * sv == t * (-sv);
    assert (1.0 - t) * sv == -((1.0 - t) * (-sv));
  }

  /** Cross product is linear in its second argument and antisymmetric. */
  lemma CrossFacts(u: Point, p: Point, q: Point)
    ensures Cross(u, Sub(p, q)) == Cross(u, p) - Cross(u, q)
    ensures Cross(p, u) == -Cross(u, p)
  {
  }

  /** The lines of AB and CD are not parallel and no two of the four points coincide. */
  lemma TouchingPointsDistinct(a: Point, b: Point, c: Point, d: Point)
    requires a != b && StrictlyInside(a, b, c) && Cross(Sub(b, a), Sub(d, a)) > 0.0
    ensures c != a && c != b && d != a && d != b && c != d
    ensures Cross(Sub(d, c), Sub(b, a)) < 0.0
  {
    var u, v := Sub(b, a), Sub(d, c);
    assert Cross(u, Sub(a, a)) == 0.0 && Cross(u, Sub(b, a)) == 0.0 && Dot(u, Sub(a, a)) == 0.0;
    CrossFacts(u, Sub(d, a), Sub(c, a));
    assert Sub(Sub(d, a), Sub(c, a)) == v;
    CrossFacts(u, v, v);
  }

  /** Products with D - C of the offsets from C to A and to B, in terms of those with B - A. */
  lemma TouchingProducts(a: Point, b: Point, c: Point, d: Point) returns (t: real, dv: real, sv: real)
    requires a != b && StrictlyInside(a, b, c) && Cross(Sub(b, a), Sub(d, a)) > 0.0
    ensures 0.0 < t < 1.0 && sv < 0.0
    ensures Cross(Sub(d, c), Sub(a, c)) == -t * sv && Dot(Sub(d, c), Sub(a, c)) == -t * dv
    ensures Cross(Sub(d, c), Sub(b, c)) == (1.0 - t) * sv && Dot(Sub(d, c), Sub(b, c)) == (1.0 - t) * dv
  {
    var u, v := Sub(b, a), Sub(d, c);
    t := InsideOffsets(a, b, c);
    TouchingPointsDistinct(a, b, c, d);
    dv, sv := Dot(v, u), Cross(v, u);
    ScaleProducts(v, -t, u);
    ScaleProducts(v, 1.0 - t, u);
  }

  /** Seen from CD, the ends of AB lie on opposite sides and line AB passes through C. */
  lemma TouchingFromInside(a: Point, b: Point, c: Point, d: Point)
    requires a != b && StrictlyInside(a, b, c) && Cross(Sub(b, a), Sub(d, a)) > 0.0
    ensures SplitByLine(c, d, a, b)
    ensures ScaledCrossing(c, d, a, b) == 0.0
  {
    var t, dv, sv := TouchingProducts(a, b, c, d);
    OppositeSides(sv, t);
    CrossingAtOrigin(dv, sv, t);
  }

  /**
   * Touching counts in one direction only: when C lies strictly inside AB and
   * D strictly on the positive side of line AB, segment CD is judged to cross
   * AB, but AB is not judged to cross CD.
   */
  lemma TouchingIsAsymmetric(a: Point, b: Point, c: Point, d: Point)
    requires a != b && StrictlyInside(a, b, c) && Cross(Sub(b, a), Sub(d, a)) > 0.0
    ensures SegmentsCross(c, d, a, b)
    ensures !SegmentsCross(a, b, c, d)
  {
    TouchingPointsDistinct(a, b, c, d);
    TouchingFromInside(a, b, c, d);
    var v := Sub(d, c);
    assert Norm2(v) >= 0.0 by {
      SquareNonNegative(v.x);
      SquareNonNegative(v.y);
    }
    TouchingIsMissed(a, b, c, d);
  }
}
