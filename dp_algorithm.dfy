// The Ramer-Douglas-Peucker polyline simplifier of class DPAlgorithm.
//
// Coordinates are reals. The square root that generate.py imports from
// Python's math library is a parameter `sqrt`, required to return the
// non-negative root of every non-negative real (IsSqrt); no other property
// of it is assumed.
//
// The simplification itself is stated for any distance-to-chord function
// `dist`; what it promises about which points are kept holds whatever that
// function is. Rdp, the model of DPAlgorithm.rdp, uses PointLineDistance.
//
// Lemmas about the recursive definitions switch automatic induction off:
// the hypotheses it would add about Simplification keep instantiating each
// other.

module DPAlgorithm {
  import opened Subsequence

  datatype Point = Point(x: real, y: real)

  /** sqrt is a square root: the non-negative root of every non-negative real. */
  ghost predicate IsSqrt(sqrt: real -> real) {
    forall v: real :: 0.0 <= v ==> 0.0 <= sqrt(v) && sqrt(v) * sqrt(v) == v
  }

  /** The root is zero exactly at zero. */
  lemma RootSign(sqrt: real -> real, v: real)
    requires IsSqrt(sqrt) && 0.0 <= v
    ensures v == 0.0 ==> sqrt(v) == 0.0
    ensures 0.0 < v ==> 0.0 < sqrt(v)
  {
    var d := sqrt(v);
    if v == 0.0 && d != 0.0 {
      calc {
        0.0;
        == d * d;
        > 0.0;
      }
    }
  }

  function Abs(v: real): (r: real)
    ensures 0.0 <= r && (r == v || r == -v)
  {
    if v < 0.0 then -v else v
  }

  lemma SumOfSquaresPositive(u: real, v: real)
    requires u != 0.0 || v != 0.0
    ensures 0.0 < u * u + v * v
  {
  }

  /** The sum of the squared coordinate differences of a and b. */
  function SquaredDistance(a: Point, b: Point): (s: real)
    ensures 0.0 <= s
  {
    (a.x - b.x) * (a.x - b.x) + (a.y - b.y) * (a.y - b.y)
  }

  lemma SquaredDistancePositive(a: Point, b: Point)
    ensures a != b ==> 0.0 < SquaredDistance(a, b)
  {
    if a != b {
      var u, v := a.x - b.x, a.y - b.y;
      calc {
        SquaredDistance(a, b);
        == u * u + v * v;
        > { SumOfSquaresPositive(u, v); }
        0.0;
      }
    }
  }

  /** Euclidean distance between a and b: zero exactly when they coincide. */
  function Distance(sqrt: real -> real, a: Point, b: Point): (d: real)
    requires IsSqrt(sqrt)
    ensures 0.0 <= d
    ensures a == b ==> d == 0.0
    ensures a != b ==> 0.0 < d
  {
    SquaredDistancePositive(a, b);
    RootSign(sqrt, SquaredDistance(a, b));
    sqrt(SquaredDistance(a, b))
  }

  lemma DistanceSymmetric(sqrt: real -> real, a: Point, b: Point)
    requires IsSqrt(sqrt)
    ensures Distance(sqrt, a, b) == Distance(sqrt, b, a)
  {
    assert SquaredDistance(a, b) == SquaredDistance(b, a);
  }

  /** The distance is the non-negative root of the squared distance. */
  lemma DistanceSquared(sqrt: real -> real, a: Point, b: Point)
    requires IsSqrt(sqrt)
    ensures Distance(sqrt, a, b) * Distance(sqrt, a, b) == SquaredDistance(a, b)
  {
  }

  /** Twice the signed area of the triangle start, end, point. */
  function Cross(point: Point, start: Point, end: Point): real {
    (end.x - start.x) * (start.y - point.y) - (start.x - point.x) * (end.y - start.y)
  }

  /**
   * Distance from point to the line through start and end; when start and
   * end coincide there is no line and it is the distance to start.
   * Otherwise it is the height of the triangle over the base start-end:
   * height times base is twice the triangle's area.
   */
  function PointLineDistance(sqrt: real -> real, point: Point, start: Point, end: Point): (r: real)
    requires IsSqrt(sqrt)
    ensures 0.0 <= r
    ensures start == end ==> r == Distance(sqrt, point, start)
    ensures point == start || point == end ==> r == 0.0
  {
    if start == end then
      Distance(sqrt, point, start)
    else
      var n := Abs(Cross(point, start, end));
      var d := Distance(sqrt, end, start);  // point_line_distance writes this root out inline
      n / d
  }

  /** Squaring is strictly increasing on the non-negative reals. */
  lemma SquareLess(a: real, b: real)
    requires 0.0 <= a < b
    ensures a * a < b * b
  {
    calc {
      a * a;
      <= a * b;
      < b * b;
    }
  }

  /** Non-negative reals with equal squares are equal. */
  lemma SquareInjective(a: real, b: real)
    requires 0.0 <= a && 0.0 <= b && a * a == b * b
    ensures a == b
  {
    if a < b {
      SquareLess(a, b);
    } else if b < a {
      SquareLess(b, a);
    }
  }

  /** Non-negative reals are ordered as their squares. */
  lemma SquareMonotone(a: real, b: real)
    requires 0.0 <= a && 0.0 <= b && a * a <= b * b
    ensures a <= b
  {
    if b < a {
      SquareLess(b, a);
    }
  }

  /** The point at parameter t on the line through start and end. */
  function OnLine(start: Point, end: Point, t: real): (q: Point)
    ensures t == 0.0 ==> q == start
    ensures t == 1.0 ==> q == end
  {
    Point(start.x + t * (end.x - start.x), start.y + t * (end.y - start.y))
  }

  /**
   * The dot product of point - q with end - start. It is zero when the
   * segment from q to point is perpendicular to the line.
   */
  function Along(point: Point, q: Point, start: Point, end: Point): real {
    (point.x - q.x) * (end.x - start.x) + (point.y - q.y) * (end.y - start.y)
  }

  /** A square is not negative, and it is zero at zero. */
  lemma SquareNonNegative(g: real)
    ensures 0.0 <= g * g
    ensures g == 0.0 ==> g * g == 0.0
  {
  }

  /** Lagrange's identity in the plane: |a|^2 |b|^2 = (a x b)^2 + (a . b)^2. */
  lemma Lagrange(a1: real, a2: real, b1: real, b2: real)
    ensures (a1 * a1 + a2 * a2) * (b1 * b1 + b2 * b2)
         == (a1 * b2 - a2 * b1) * (a1 * b2 - a2 * b1) + (a1 * b1 + a2 * b2) * (a1 * b1 + a2 * b2)
  {
  }

  /** Every point OnLine(start, end, t) is collinear with start and end. */
  lemma OnLineIsCollinear(start: Point, end: Point, t: real)
    ensures Cross(OnLine(start, end, t), start, end) == 0.0
  {
  }

  /** Moving q from start by t along the line lowers the dot product by t times the squared length. */
  lemma AlongOnLine(point: Point, start: Point, end: Point, t: real)
    ensures Along(point, OnLine(start, end, t), start, end)
         == Along(point, start, start, end) - t * SquaredDistance(end, start)
  {
  }

  /** The foot of the perpendicular from point to the line through start and end. */
  function Foot(point: Point, start: Point, end: Point): (f: Point)
    requires start != end
    ensures Cross(f, start, end) == 0.0
    ensures Along(point, f, start, end) == 0.0
  {
    SquaredDistancePositive(end, start);
    var t := Along(point, start, start, end) / SquaredDistance(end, start);
    OnLineIsCollinear(start, end, t);
    AlongOnLine(point, start, end, t);
    OnLine(start, end, t)
  }

  /**
   * For q on the line through start and end (collinear with them): the
   * squared length of start-end times the squared distance from point to q
   * is the squared cross product plus the squared dot product of point - q
   * with end - start.
   */
  lemma OffsetFromLine(point: Point, start: Point, end: Point, q: Point)
    requires Cross(q, start, end) == 0.0
    ensures SquaredDistance(end, start) * SquaredDistance(point, q)
         == Cross(point, start, end) * Cross(point, start, end)
          + Along(point, q, start, end) * Along(point, q, start, end)
  {
    Lagrange(end.x - start.x, end.y - start.y, point.x - q.x, point.y - q.y);
  }

  /**
   * r is the height of the triangle point, start, end over the base
   * start-end: r times the base length is the absolute cross product (twice
   * the triangle's area), written with squares.
   */
  ghost predicate IsHeight(r: real, point: Point, start: Point, end: Point) {
    0.0 <= r && r * r * SquaredDistance(end, start) == Cross(point, start, end) * Cross(point, start, end)
  }

  /** q is at least as far from point as the height over start-end, written with squares. */
  ghost predicate NoCloserThanHeight(point: Point, start: Point, end: Point, q: Point) {
    Cross(point, start, end) * Cross(point, start, end) <= SquaredDistance(end, start) * SquaredDistance(point, q)
  }

  /** q is exactly as far from point as the height over start-end, written with squares. */
  ghost predicate AsFarAsHeight(point: Point, start: Point, end: Point, q: Point) {
    Cross(point, start, end) * Cross(point, start, end) == SquaredDistance(end, start) * SquaredDistance(point, q)
  }

  /**
   * Every point q of the line is at least as far from point as the height
   * over start-end, and exactly as far when point - q is perpendicular to
   * the line.
   */
  lemma CrossBelowOffset(point: Point, start: Point, end: Point, q: Point)
    requires Cross(q, start, end) == 0.0
    ensures NoCloserThanHeight(point, start, end, q)
    ensures Along(point, q, start, end) == 0.0 ==> AsFarAsHeight(point, start, end, q)
  {
    OffsetFromLine(point, start, end, q);
    SquareNonNegative(Along(point, q, start, end));
  }

  /** Off the degenerate case, the distance to the line is the height over start-end. */
  lemma LineDistanceIsHeight(sqrt: real -> real, point: Point, start: Point, end: Point)
    requires IsSqrt(sqrt) && start != end
    ensures IsHeight(PointLineDistance(sqrt, point, start, end), point, start, end)
  {
    var len := Distance(sqrt, end, start);
    var r := PointLineDistance(sqrt, point, start, end);
    var n := Abs(Cross(point, start, end));
    assert r == n / len && 0.0 < len;
    assert r * len == n;
    calc {
      r * r * SquaredDistance(end, start);
      == { DistanceSquared(sqrt, end, start); }
      (r * len) * (r * len);
      == n * n;
    }
  }

  /** From r*r*l == c*c <= l*e*e with l > 0 and r, e not negative: r <= e. */
  lemma RootsOrdered(r: real, e: real, l: real, c: real, d: real)
    requires 0.0 <= r && 0.0 <= e && 0.0 < l
    requires e * e == d && r * r * l == c * c && c * c <= l * d
    ensures r <= e
  {
    assert (e * e - r * r) * l >= 0.0;
    SquareMonotone(r, e);
  }

  /** From r*r*l == c*c == l*e*e with l > 0 and r, e not negative: r == e. */
  lemma RootsEqual(r: real, e: real, l: real, c: real, d: real)
    requires 0.0 <= r && 0.0 <= e && 0.0 < l
    requires e * e == d && r * r * l == c * c && c * c == l * d
    ensures r == e
  {
    assert (e * e - r * r) * l == 0.0;
    SquareInjective(r, e);
  }

  /** A height over start-end is at most the distance to any point q no closer than the height. */
  lemma HeightBelow(sqrt: real -> real, point: Point, start: Point, end: Point, q: Point, r: real)
    requires IsSqrt(sqrt) && start != end
    requires IsHeight(r, point, start, end) && NoCloserThanHeight(point, start, end, q)
    ensures r <= Distance(sqrt, point, q)
  {
    SquaredDistancePositive(end, start);
    DistanceSquared(sqrt, point, q);
    RootsOrdered(r, Distance(sqrt, point, q), SquaredDistance(end, start), Cross(point, start, end),
                 SquaredDistance(point, q));
  }

  /** A height over start-end is the distance to any point q exactly as far as the height. */
  lemma HeightAt(sqrt: real -> real, point: Point, start: Point, end: Point, q: Point, r: real)
    requires IsSqrt(sqrt) && start != end
    requires IsHeight(r, point, start, end) && AsFarAsHeight(point, start, end, q)
    ensures r == Distance(sqrt, point, q)
  {
    SquaredDistancePositive(end, start);
    DistanceSquared(sqrt, point, q);
    RootsEqual(r, Distance(sqrt, point, q), SquaredDistance(end, start), Cross(point, start, end),
               SquaredDistance(point, q));
  }

  /**
   * The distance to the line is at most the distance from point to every
   * point of the line through start and end.
   */
  lemma PointLineDistanceIsShortest(sqrt: real -> real, point: Point, start: Point, end: Point, t: real)
    requires IsSqrt(sqrt) && start != end
    ensures PointLineDistance(sqrt, point, start, end) <= Distance(sqrt, point, OnLine(start, end, t))
  {
    OnLineIsCollinear(start, end, t);
    CrossBelowOffset(point, start, end, OnLine(start, end, t));
    LineDistanceIsHeight(sqrt, point, start, end);
    HeightBelow(sqrt, point, start, end, OnLine(start, end, t), PointLineDistance(sqrt, point, start, end));
  }

  /** The distance to the line is the distance to the foot of the perpendicular. */
  lemma PointLineDistanceAtFoot(sqrt: real -> real, point: Point, start: Point, end: Point)
    requires IsSqrt(sqrt) && start != end
    ensures PointLineDistance(sqrt, point, start, end) == Distance(sqrt, point, Foot(point, start, end))
  {
    CrossBelowOffset(point, start, end, Foot(point, start, end));
    LineDistanceIsHeight(sqrt, point, start, end);
    HeightAt(sqrt, point, start, end, Foot(point, start, end), PointLineDistance(sqrt, point, start, end));
  }

  /** The distance the simplification measures from a point to the chord start-end. */
  type ChordDistance = (Point, Point, Point) -> real

  /** PointLineDistance as a ChordDistance, with sqrt fixed. */
  function LineDistance(sqrt: real -> real): (dist: ChordDistance)
    requires IsSqrt(sqrt)
    ensures forall p, s, e :: dist(p, s, e) == PointLineDistance(sqrt, p, s, e)
  {
    (p, s, e) => PointLineDistance(sqrt, p, s, e)
  }

  /** A point at either end of the chord is at distance 0 from it. */
  ghost predicate VanishesAtChordEnds(dist: ChordDistance) {
    forall s, e :: dist(s, s, e) == 0.0 && dist(e, s, e) == 0.0
  }

  lemma LineDistanceVanishesAtChordEnds(sqrt: real -> real)
    requires IsSqrt(sqrt)
    ensures VanishesAtChordEnds(LineDistance(sqrt))
  {
    forall s, e ensures LineDistance(sqrt)(s, s, e) == 0.0 && LineDistance(sqrt)(e, s, e) == 0.0 {
      assert PointLineDistance(sqrt, s, s, e) == 0.0;
      assert PointLineDistance(sqrt, e, s, e) == 0.0;
    }
  }

  /** How far points[i] lies from the chord joining the first and the last point. */
  function Deviation(dist: ChordDistance, points: seq<Point>, i: nat): real
    requires i < |points|
  {
    dist(points[i], points[0], points[|points| - 1])
  }

  /** The scan's state: the index of the farthest point found and its distance. */
  datatype Farthest = Farthest(index: nat, dmax: real)

  /**
   * The state of the scan for the farthest point once it has looked at the
   * indices 1 .. k-1. The state starts at index 0 with distance 0 and moves
   * only to a strictly larger distance, so the index held is the FIRST one
   * of largest distance, and stays 0 when no point lies beyond distance 0.
   */
  function Scan(dist: ChordDistance, points: seq<Point>, k: nat): (f: Farthest)
    requires k <= |points|
    ensures 0.0 <= f.dmax
    ensures f.index == 0 ==> f.dmax == 0.0
    ensures f.index != 0 ==> 1 <= f.index < k && f.dmax == Deviation(dist, points, f.index)
    decreases k
  {
    if k <= 1 then
      Farthest(0, 0.0)
    else
      var f := Scan(dist, points, k - 1);
      var d := Deviation(dist, points, k - 1);
      if d > f.dmax then Farthest(k - 1, d) else f
  }

  /**
   * The scan's distance bounds every point it looked at, and every point
   * before the index it holds is strictly closer: the index is the first
   * one of largest distance.
   */
  lemma {:induction false} ScanIsFirstMaximum(dist: ChordDistance, points: seq<Point>, k: nat)
    requires k <= |points|
    ensures forall i :: 1 <= i < k ==> Deviation(dist, points, i) <= Scan(dist, points, k).dmax
    ensures forall i :: 1 <= i < Scan(dist, points, k).index ==> Deviation(dist, points, i) < Scan(dist, points, k).dmax
    decreases k
  {
    if k > 1 {
      ScanIsFirstMaximum(dist, points, k - 1);
    }
  }

  /** The scan over the interior points as the loop of DPAlgorithm.rdp. */
  method FindFarthest(sqrt: real -> real, points: seq<Point>) returns (index: nat, dmax: real)
    requires IsSqrt(sqrt) && |points| >= 1
    ensures Farthest(index, dmax) == Scan(LineDistance(sqrt), points, |points| - 1)
  {
    dmax := 0.0;
    index := 0;
    var i := 1;
    while i < |points| - 1
      invariant 1 <= i <= |points|
      invariant i <= |points| - 1 || |points| == 1
      invariant Farthest(index, dmax) == Scan(LineDistance(sqrt), points, i)
    {
      var d := PointLineDistance(sqrt, points[i], points[0], points[|points| - 1]);
      if d > dmax {
        index := i;
        dmax := d;
      }
      i := i + 1;
    }
  }

  /**
   * The simplified polyline. If the farthest interior point is at least
   * epsilon from the chord, the polyline is split there; otherwise only the
   * two endpoints remain. A split index is interior (1 .. |points|-2)
   * because epsilon > 0, so both halves are shorter and the recursion ends.
   */
  function Simplification(dist: ChordDistance, points: seq<Point>, epsilon: real): (r: seq<Point>)
    requires |points| >= 1 && 0.0 < epsilon
    ensures 2 <= |r|
    ensures |points| >= 2 ==> |r| <= |points|
    ensures r[0] == points[0] && r[|r| - 1] == points[|points| - 1]
    decreases |points|, 1
  {
    var f := Scan(dist, points, |points| - 1);
    if f.dmax >= epsilon then SplitAt(dist, points, f.index, epsilon)
    else [points[0], points[|points| - 1]]
  }

  /**
   * The splitting branch: the halves up to and from index k simplified and
   * joined, the shared point k kept once. Splitting keeps a point more than
   * the two endpoints.
   */
  function SplitAt(dist: ChordDistance, points: seq<Point>, k: nat, epsilon: real): (r: seq<Point>)
    requires 1 <= k < |points| - 1 && 0.0 < epsilon
    ensures 3 <= |r| <= |points|
    ensures r[0] == points[0] && r[|r| - 1] == points[|points| - 1]
    decreases |points|, 0
  {
    var left := Simplification(dist, points[..k + 1], epsilon);
    var right := Simplification(dist, points[k..], epsilon);
    left[..|left| - 1] + right
  }

  /** DPAlgorithm.rdp: the loop of FindFarthest, then the recursion. */
  method Rdp(sqrt: real -> real, points: seq<Point>, epsilon: real) returns (results: seq<Point>)
    requires IsSqrt(sqrt) && |points| >= 1 && 0.0 < epsilon
    ensures results == Simplification(LineDistance(sqrt), points, epsilon)
    decreases |points|
  {
    var index, dmax := FindFarthest(sqrt, points);
    if dmax >= epsilon {
      var left := Rdp(sqrt, points[..index + 1], epsilon);
      var right := Rdp(sqrt, points[index..], epsilon);
      results := left[..|left| - 1] + right;
    } else {
      results := [points[0], points[|points| - 1]];
    }
  }

  // ---------------------------------------------------------------------
  // Properties of the simplification

  /** Any split happens at an interior index, so both halves are shorter. */
  lemma {:induction false} SplitIsInterior(dist: ChordDistance, points: seq<Point>, epsilon: real)
    requires |points| >= 1 && 0.0 < epsilon
    requires Scan(dist, points, |points| - 1).dmax >= epsilon
    ensures var k := Scan(dist, points, |points| - 1).index;
      1 <= k <= |points| - 2 && |points[..k + 1]| < |points| && |points[k..]| < |points|
  {
  }

  /**
   * With epsilon <= 0 every call takes the splitting branch, and on one or
   * two points it splits at index 0, so its right half is the whole input
   * again: no call ever returns.
   */
  lemma {:induction false} NonPositiveEpsilonAlwaysSplits(dist: ChordDistance, points: seq<Point>, epsilon: real)
    requires |points| >= 1 && epsilon <= 0.0
    ensures Scan(dist, points, |points| - 1).dmax >= epsilon
    ensures |points| <= 2 ==> Scan(dist, points, |points| - 1).index == 0
  {
  }

  /**
   * The simplified halves of a split at k keep their own ends, so they meet
   * at point k, and joining them drops one copy of it.
   */
  lemma {:induction false} SplitAtHalves(dist: ChordDistance, points: seq<Point>, k: nat, epsilon: real,
                      left: seq<Point>, right: seq<Point>)
    requires 1 <= k < |points| - 1 && 0.0 < epsilon
    requires left == Simplification(dist, points[..k + 1], epsilon)
    requires right == Simplification(dist, points[k..], epsilon)
    ensures SplitAt(dist, points, k, epsilon) == left[..|left| - 1] + right
    ensures 2 <= |left| <= k + 1 && 2 <= |right| <= |points| - k
    ensures left[0] == points[0] && left[|left| - 1] == points[k]
    ensures right[0] == points[k] && right[|right| - 1] == points[|points| - 1]
  {
    assert points[k..][0] == points[k];
  }

  /** The output keeps points of the input, in their order. */
  lemma {:induction false} SimplificationIsSubsequence(dist: ChordDistance, points: seq<Point>, epsilon: real)
    requires |points| >= 2 && 0.0 < epsilon
    ensures IsSubsequence(Simplification(dist, points, epsilon), points)
    decreases |points|
  {
    var f := Scan(dist, points, |points| - 1);
    if f.dmax >= epsilon {
      var k := f.index;
      var left := Simplification(dist, points[..k + 1], epsilon);
      var right := Simplification(dist, points[k..], epsilon);
      SplitAtHalves(dist, points, k, epsilon, left, right);
      SplitsAtFarthest(dist, points, epsilon, k);
      SimplificationIsSubsequence(dist, points[..k + 1], epsilon);
      SimplificationIsSubsequence(dist, points[k..], epsilon);
      SubsequenceGlued(left, right, points, k);
    } else {
      EndpointsAreSubsequence(points);
    }
  }

  /** On one or two points the result is the first and the last point. */
  lemma {:induction false} ShortInputKeepsEndpoints(dist: ChordDistance, points: seq<Point>, epsilon: real)
    requires 1 <= |points| <= 2 && 0.0 < epsilon
    ensures Simplification(dist, points, epsilon) == [points[0], points[|points| - 1]]
  {
  }

  /**
   * Only the endpoints remain exactly when every interior point lies closer
   * than epsilon to the chord.
   */
  lemma {:induction false} OnlyEndpointsIff(dist: ChordDistance, points: seq<Point>, epsilon: real)
    requires |points| >= 2 && 0.0 < epsilon
    ensures (forall i :: 1 <= i < |points| - 1 ==> Deviation(dist, points, i) < epsilon)
        <==> Simplification(dist, points, epsilon) == [points[0], points[|points| - 1]]
  {
    var f := Scan(dist, points, |points| - 1);
    var r := Simplification(dist, points, epsilon);
    if f.dmax >= epsilon {
      assert r == SplitAt(dist, points, f.index, epsilon);
      assert Deviation(dist, points, f.index) >= epsilon;
    } else {
      assert r == [points[0], points[|points| - 1]];
      ScanIsFirstMaximum(dist, points, |points| - 1);
      forall i | 1 <= i < |points| - 1 ensures Deviation(dist, points, i) < epsilon {
        assert Deviation(dist, points, i) <= f.dmax;
      }
    }
  }

  /**
   * When the farthest point is split at, it is kept: it is where the
   * simplified left half ends and the simplified right half begins.
   */
  lemma {:induction false} SplitPointIsKept(dist: ChordDistance, points: seq<Point>, epsilon: real)
    requires |points| >= 1 && 0.0 < epsilon
    requires Scan(dist, points, |points| - 1).dmax >= epsilon
    ensures var k := Scan(dist, points, |points| - 1).index;
      var left := Simplification(dist, points[..k + 1], epsilon);
      var r := Simplification(dist, points, epsilon);
      |left| - 1 < |r| && r[|left| - 1] == points[k]
  {
    var k := Scan(dist, points, |points| - 1).index;
    var left := Simplification(dist, points[..k + 1], epsilon);
    var right := Simplification(dist, points[k..], epsilon);
    var r := Simplification(dist, points, epsilon);
    SplitAtHalves(dist, points, k, epsilon, left, right);
    SplitsAtFarthest(dist, points, epsilon, k);
    assert r[|left| - 1] == right[0];
  }

  /**
   * The first index of largest distance is determined by the distances:
   * the scan finds exactly it.
   */
  lemma {:induction false} ScanFindsFirstFarthest(dist: ChordDistance, points: seq<Point>, k: nat, dmax: real)
    requires 1 <= k < |points| - 1 && 0.0 < dmax
    requires Deviation(dist, points, k) == dmax
    requires forall i :: 1 <= i < k ==> Deviation(dist, points, i) < dmax
    requires forall i :: k < i < |points| - 1 ==> Deviation(dist, points, i) <= dmax
    ensures Scan(dist, points, |points| - 1) == Farthest(k, dmax)
  {
    var f := Scan(dist, points, |points| - 1);
    ScanIsFirstMaximum(dist, points, |points| - 1);
    assert dmax <= f.dmax;
    assert f.index != 0;
  }

  /** Before the split index every point, the first included, is strictly closer than the farthest. */
  lemma {:induction false} CloserBeforeSplit(dist: ChordDistance, points: seq<Point>, x: Point)
    requires VanishesAtChordEnds(dist) && |points| >= 1
    requires 0.0 < Scan(dist, points, |points| - 1).dmax
    requires x in points[..Scan(dist, points, |points| - 1).index]
    ensures dist(x, points[0], points[|points| - 1]) < Scan(dist, points, |points| - 1).dmax
  {
    var f := Scan(dist, points, |points| - 1);
    var m :| 0 <= m < f.index && points[m] == x;
    if m == 0 {
      assert dist(points[0], points[0], points[|points| - 1]) == 0.0;
    } else {
      ScanIsFirstMaximum(dist, points, |points| - 1);
      assert Deviation(dist, points, m) < f.dmax;
    }
  }

  /** After the split index no point, the last included, is farther than the farthest. */
  lemma {:induction false} NotFartherAfterSplit(dist: ChordDistance, points: seq<Point>, x: Point)
    requires VanishesAtChordEnds(dist) && |points| >= 1
    requires 0.0 < Scan(dist, points, |points| - 1).dmax
    requires x in points[Scan(dist, points, |points| - 1).index + 1..]
    ensures dist(x, points[0], points[|points| - 1]) <= Scan(dist, points, |points| - 1).dmax
  {
    var n := |points|;
    var f := Scan(dist, points, n - 1);
    var m :| f.index < m < n && points[m] == x;
    if m == n - 1 {
      assert dist(points[n - 1], points[0], points[n - 1]) == 0.0;
    } else {
      ScanIsFirstMaximum(dist, points, n - 1);
      assert Deviation(dist, points, m) <= f.dmax;
    }
  }

  /**
   * Every interior point the simplified left half keeps lies strictly closer
   * to the whole polyline's chord than the farthest point.
   */
  lemma {:induction false} LeftHalfCloser(dist: ChordDistance, points: seq<Point>, epsilon: real, left: seq<Point>)
    requires VanishesAtChordEnds(dist) && |points| >= 1 && 0.0 < epsilon
    requires Scan(dist, points, |points| - 1).dmax >= epsilon
    requires left == Simplification(dist, points[..Scan(dist, points, |points| - 1).index + 1], epsilon)
    ensures forall j :: 1 <= j < |left| - 1 ==>
      dist(left[j], points[0], points[|points| - 1]) < Scan(dist, points, |points| - 1).dmax
  {
    var f := Scan(dist, points, |points| - 1);
    var k := f.index;
    SimplificationIsSubsequence(dist, points[..k + 1], epsilon);
    SubsequenceDropLast(left, points[..k + 1]);
    assert points[..k + 1][..k] == points[..k];
    SubsequenceMembers(left[..|left| - 1], points[..k]);
    forall j | 1 <= j < |left| - 1
      ensures dist(left[j], points[0], points[|points| - 1]) < f.dmax
    {
      assert left[j] == left[..|left| - 1][j];
      CloserBeforeSplit(dist, points, left[j]);
    }
  }

  /**
   * No interior point the simplified right half keeps lies farther from the
   * whole polyline's chord than the farthest point.
   */
  lemma {:induction false} RightHalfNotFarther(dist: ChordDistance, points: seq<Point>, epsilon: real, right: seq<Point>)
    requires VanishesAtChordEnds(dist) && |points| >= 1 && 0.0 < epsilon
    requires Scan(dist, points, |points| - 1).dmax >= epsilon
    requires right == Simplification(dist, points[Scan(dist, points, |points| - 1).index..], epsilon)
    ensures forall j :: 1 <= j < |right| - 1 ==>
      dist(right[j], points[0], points[|points| - 1]) <= Scan(dist, points, |points| - 1).dmax
  {
    var f := Scan(dist, points, |points| - 1);
    var k := f.index;
    SimplificationIsSubsequence(dist, points[k..], epsilon);
    assert right[0] == points[k..][0];
    SubsequenceDropFirst(right, points[k..]);
    assert points[k..][1..] == points[k + 1..];
    SubsequenceMembers(right[1..], points[k + 1..]);
    forall j | 1 <= j < |right| - 1
      ensures dist(right[j], points[0], points[|points| - 1]) <= f.dmax
    {
      assert right[j] == right[1..][j - 1];
      NotFartherAfterSplit(dist, points, right[j]);
    }
  }

  /**
   * A polyline glued from two halves at the farthest point, whose interior
   * points on the left are strictly closer and on the right not farther,
   * has its farthest point where the halves meet.
   */
  lemma {:induction false} RescanGlued(dist: ChordDistance, points: seq<Point>, left: seq<Point>, right: seq<Point>, r: seq<Point>)
    requires |points| >= 1 && 0.0 < Scan(dist, points, |points| - 1).dmax
    requires 2 <= |left| && 2 <= |right|
    requires left[0] == points[0] && right[|right| - 1] == points[|points| - 1]
    requires right[0] == points[Scan(dist, points, |points| - 1).index]
    requires Scan(dist, points, |points| - 1).index != 0
    requires forall j :: 1 <= j < |left| - 1 ==>
      dist(left[j], points[0], points[|points| - 1]) < Scan(dist, points, |points| - 1).dmax
    requires forall j :: 1 <= j < |right| - 1 ==>
      dist(right[j], points[0], points[|points| - 1]) <= Scan(dist, points, |points| - 1).dmax
    requires r == left[..|left| - 1] + right
    ensures Scan(dist, r, |r| - 1) == Farthest(|left| - 1, Scan(dist, points, |points| - 1).dmax)
  {
    var f := Scan(dist, points, |points| - 1);
    var K := |left| - 1;
    assert r[0] == points[0] && r[|r| - 1] == points[|points| - 1];
    forall j | 1 <= j < K ensures Deviation(dist, r, j) < f.dmax {
      assert r[j] == left[j];
    }
    forall j | K < j < |r| - 1 ensures Deviation(dist, r, j) <= f.dmax {
      assert r[j] == right[j - K];
    }
    assert Deviation(dist, r, K) == f.dmax by {
      assert r[K] == right[0];
    }
    ScanFindsFirstFarthest(dist, r, K, f.dmax);
  }

  /**
   * Scanning the simplified polyline finds the same farthest point, at the
   * position where the simplified left half ends.
   */
  lemma {:induction false} RescanFindsSplit(dist: ChordDistance, points: seq<Point>, epsilon: real, left: seq<Point>, r: seq<Point>)
    requires VanishesAtChordEnds(dist) && |points| >= 1 && 0.0 < epsilon
    requires Scan(dist, points, |points| - 1).dmax >= epsilon
    requires left == Simplification(dist, points[..Scan(dist, points, |points| - 1).index + 1], epsilon)
    requires r == Simplification(dist, points, epsilon)
    ensures Scan(dist, r, |r| - 1) == Farthest(|left| - 1, Scan(dist, points, |points| - 1).dmax)
  {
    var f := Scan(dist, points, |points| - 1);
    var right := Simplification(dist, points[f.index..], epsilon);
    SplitAtHalves(dist, points, f.index, epsilon, left, right);
    SplitsAtFarthest(dist, points, epsilon, f.index);
    LeftHalfCloser(dist, points, epsilon, left);
    RightHalfNotFarther(dist, points, epsilon, right);
    RescanGlued(dist, points, left, right, r);
  }

  /** A polyline whose farthest point is far enough is split at it. */
  lemma {:induction false} SplitsAtFarthest(dist: ChordDistance, points: seq<Point>, epsilon: real, k: nat)
    requires |points| >= 1 && 0.0 < epsilon
    requires Scan(dist, points, |points| - 1) == Farthest(k, Scan(dist, points, |points| - 1).dmax)
    requires Scan(dist, points, |points| - 1).dmax >= epsilon
    ensures 1 <= k < |points| - 1
    ensures Simplification(dist, points, epsilon) == SplitAt(dist, points, k, epsilon)
  {
    SplitIsInterior(dist, points, epsilon);
  }

  /**
   * Splitting two glued halves where they meet, when each half is its own
   * simplification, gives the glued polyline back.
   */
  lemma {:induction false} SplitAtGlued(dist: ChordDistance, epsilon: real, left: seq<Point>, right: seq<Point>, r: seq<Point>)
    requires 0.0 < epsilon && 2 <= |left| && 2 <= |right|
    requires r == left[..|left| - 1] + right && left[|left| - 1] == right[0]
    requires Simplification(dist, left, epsilon) == left && Simplification(dist, right, epsilon) == right
    ensures SplitAt(dist, r, |left| - 1, epsilon) == r
  {
    var K := |left| - 1;
    GluedHalves(left, right, r);
    SplitAtHalves(dist, r, K, epsilon, left, right);
  }

  /**
   * The simplification of a polyline that is split is its two simplified
   * halves glued at the split point.
   */
  lemma {:induction false} SplitGlue(dist: ChordDistance, points: seq<Point>, epsilon: real,
                                     left: seq<Point>, right: seq<Point>, r: seq<Point>)
    requires |points| >= 1 && 0.0 < epsilon
    requires Scan(dist, points, |points| - 1).dmax >= epsilon
    requires left == Simplification(dist, points[..Scan(dist, points, |points| - 1).index + 1], epsilon)
    requires right == Simplification(dist, points[Scan(dist, points, |points| - 1).index..], epsilon)
    requires r == Simplification(dist, points, epsilon)
    ensures 2 <= |left| && 2 <= |right| && left[|left| - 1] == right[0]
    ensures r == left[..|left| - 1] + right
  {
    var f := Scan(dist, points, |points| - 1);
    SplitAtHalves(dist, points, f.index, epsilon, left, right);
    SplitsAtFarthest(dist, points, epsilon, f.index);
  }

  /** Simplifying a split polyline's simplification again splits it where its halves meet. */
  lemma {:induction false} ResplitAtJoin(dist: ChordDistance, points: seq<Point>, epsilon: real, left: seq<Point>, r: seq<Point>)
    requires VanishesAtChordEnds(dist) && |points| >= 1 && 0.0 < epsilon
    requires Scan(dist, points, |points| - 1).dmax >= epsilon
    requires left == Simplification(dist, points[..Scan(dist, points, |points| - 1).index + 1], epsilon)
    requires r == Simplification(dist, points, epsilon)
    ensures 1 <= |left| - 1 < |r| - 1
    ensures Simplification(dist, r, epsilon) == SplitAt(dist, r, |left| - 1, epsilon)
  {
    RescanFindsSplit(dist, points, epsilon, left, r);
    SplitsAtFarthest(dist, r, epsilon, |left| - 1);
  }

  /** A polyline of two points has no interior point to test and comes back unchanged. */
  lemma TwoPointsUnchanged(dist: ChordDistance, a: Point, b: Point, epsilon: real)
    requires 0.0 < epsilon
    ensures Simplification(dist, [a, b], epsilon) == [a, b]
  {
    assert Scan(dist, [a, b], 1) == Farthest(0, 0.0);
  }

  /**
   * One split step of idempotence: when both simplified halves are their own
   * simplifications, so is the simplification of the whole polyline.
   */
  lemma {:induction false} IdempotentAtSplit(dist: ChordDistance, points: seq<Point>, epsilon: real,
                                             left: seq<Point>, right: seq<Point>, r: seq<Point>)
    requires VanishesAtChordEnds(dist) && |points| >= 1 && 0.0 < epsilon
    requires Scan(dist, points, |points| - 1).dmax >= epsilon
    requires left == Simplification(dist, points[..Scan(dist, points, |points| - 1).index + 1], epsilon)
    requires right == Simplification(dist, points[Scan(dist, points, |points| - 1).index..], epsilon)
    requires r == Simplification(dist, points, epsilon)
    requires Simplification(dist, left, epsilon) == left && Simplification(dist, right, epsilon) == right
    ensures Simplification(dist, r, epsilon) == r
  {
    SplitGlue(dist, points, epsilon, left, right, r);
    ResplitAtJoin(dist, points, epsilon, left, r);
    SplitAtGlued(dist, epsilon, left, right, r);
  }

  /** Simplifying a simplified polyline again changes nothing. */
  lemma {:induction false} SimplificationIdempotent(dist: ChordDistance, points: seq<Point>, epsilon: real)
    requires VanishesAtChordEnds(dist) && |points| >= 1 && 0.0 < epsilon
    ensures var r := Simplification(dist, points, epsilon);
      Simplification(dist, r, epsilon) == r
    decreases |points|
  {
    var f := Scan(dist, points, |points| - 1);
    if f.dmax >= epsilon {
      SplitIsInterior(dist, points, epsilon);
      SimplificationIdempotent(dist, points[..f.index + 1], epsilon);
      SimplificationIdempotent(dist, points[f.index..], epsilon);
      IdempotentAtSplit(dist, points, epsilon, Simplification(dist, points[..f.index + 1], epsilon),
        Simplification(dist, points[f.index..], epsilon), Simplification(dist, points, epsilon));
    } else {
      TwoPointsUnchanged(dist, points[0], points[|points| - 1], epsilon);
    }
  }

  /**
   * A larger epsilon keeps a subsequence of what a smaller one keeps, so it
   * never keeps more points.
   */
  lemma {:induction false} MonotoneInEpsilon(dist: ChordDistance, points: seq<Point>, e1: real, e2: real)
    requires |points| >= 1 && 0.0 < e1 <= e2
    ensures IsSubsequence(Simplification(dist, points, e2), Simplification(dist, points, e1))
    ensures |Simplification(dist, points, e2)| <= |Simplification(dist, points, e1)|
    decreases |points|
  {
    var r1 := Simplification(dist, points, e1);
    var r2 := Simplification(dist, points, e2);
    var f := Scan(dist, points, |points| - 1);
    if f.dmax >= e2 {
      var k := f.index;
      var left1 := Simplification(dist, points[..k + 1], e1);
      var left2 := Simplification(dist, points[..k + 1], e2);
      var right1 := Simplification(dist, points[k..], e1);
      var right2 := Simplification(dist, points[k..], e2);
      SplitAtHalves(dist, points, k, e1, left1, right1);
      SplitAtHalves(dist, points, k, e2, left2, right2);
      assert r1 == SplitAt(dist, points, k, e1);
      assert r2 == SplitAt(dist, points, k, e2);
      MonotoneInEpsilon(dist, points[..k + 1], e1, e2);
      MonotoneInEpsilon(dist, points[k..], e1, e2);
      SubsequenceDropLast(left2, left1);
      SubsequenceConcat(left2[..|left2| - 1], left1[..|left1| - 1], right2, right1);
    } else if f.dmax >= e1 {
      assert r2 == [r1[0], r1[|r1| - 1]];
      EndpointsAreSubsequence(r1);
    } else {
      SubsequenceReflexive(r1);
    }
    SubsequenceLength(r2, r1);
  }
}
