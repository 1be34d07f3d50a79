// What the simplification returns on concrete polylines under the
// point-to-line distance of DPAlgorithm.point_line_distance, proved for any
// square root satisfying IsSqrt.

module DPScenarios {
  import opened DPAlgorithm

  /** A square root is pinned down on perfect squares. */
  lemma RootOfSquare(sqrt: real -> real, r: real)
    requires IsSqrt(sqrt) && 0.0 <= r
    ensures sqrt(r * r) == r
  {
    var d := sqrt(r * r);
    if d < r {
      SquareLess(d, r);
    } else if r < d {
      SquareLess(r, d);
    }
  }

  /**
   * Interior points that wobble less than epsilon off a straight chord are
   * all dropped.
   */
  lemma SmallWobbleIsDropped(sqrt: real -> real)
    requires IsSqrt(sqrt)
    ensures Simplification(LineDistance(sqrt), [Point(0.0, 0.0), Point(1.0, 0.05), Point(2.0, -0.05), Point(3.0, 0.0)], 0.1)
         == [Point(0.0, 0.0), Point(3.0, 0.0)]
  {
    var points := [Point(0.0, 0.0), Point(1.0, 0.05), Point(2.0, -0.05), Point(3.0, 0.0)];
    var dist := LineDistance(sqrt);
    RootOfSquare(sqrt, 3.0);
    assert Distance(sqrt, points[3], points[0]) == 3.0;
    assert Deviation(dist, points, 1) == 0.05;
    assert Deviation(dist, points, 2) == 0.05;
    OnlyEndpointsIff(dist, points, 0.1);
  }

  /** A peak far off the chord is kept, together with both endpoints. */
  lemma PeakIsKept(sqrt: real -> real)
    requires IsSqrt(sqrt)
    ensures Simplification(LineDistance(sqrt), [Point(0.0, 0.0), Point(1.0, 5.0), Point(2.0, 0.0)], 0.1)
         == [Point(0.0, 0.0), Point(1.0, 5.0), Point(2.0, 0.0)]
  {
    var points := [Point(0.0, 0.0), Point(1.0, 5.0), Point(2.0, 0.0)];
    var dist := LineDistance(sqrt);
    RootOfSquare(sqrt, 2.0);
    assert Distance(sqrt, points[2], points[0]) == 2.0;
    assert Deviation(dist, points, 1) == 5.0;
    assert Scan(dist, points, 2) == Farthest(1, 5.0);
    SplitsAtFarthest(dist, points, 0.1, 1);
    TwoPointsUnchanged(dist, points[0], points[1], 0.1);
    TwoPointsUnchanged(dist, points[1], points[2], 0.1);
    assert points[..2] == [points[0], points[1]];
    assert points[1..] == [points[1], points[2]];
  }

  /**
   * A point repeating the start lies on the chord (0,0)-(1,1), which is not
   * degenerate, so it is at distance 0 and dropped.
   */
  lemma RepeatedStartIsDropped(sqrt: real -> real)
    requires IsSqrt(sqrt)
    ensures Simplification(LineDistance(sqrt), [Point(0.0, 0.0), Point(0.0, 0.0), Point(1.0, 1.0)], 0.01)
         == [Point(0.0, 0.0), Point(1.0, 1.0)]
  {
    var points := [Point(0.0, 0.0), Point(0.0, 0.0), Point(1.0, 1.0)];
    var dist := LineDistance(sqrt);
    assert Deviation(dist, points, 1) == 0.0;
    OnlyEndpointsIff(dist, points, 0.01);
  }

  /**
   * A closed polyline has a degenerate chord; distances are then measured
   * to the start point, so the far point of the loop is kept.
   */
  lemma ClosedLoopKeepsFarPoint(sqrt: real -> real)
    requires IsSqrt(sqrt)
    ensures Simplification(LineDistance(sqrt), [Point(0.0, 0.0), Point(1.0, 0.0), Point(0.0, 0.0)], 0.5)
         == [Point(0.0, 0.0), Point(1.0, 0.0), Point(0.0, 0.0)]
  {
    var points := [Point(0.0, 0.0), Point(1.0, 0.0), Point(0.0, 0.0)];
    var dist := LineDistance(sqrt);
    RootOfSquare(sqrt, 1.0);
    assert Deviation(dist, points, 1) == Distance(sqrt, points[1], points[0]) == 1.0;
    assert Scan(dist, points, 2) == Farthest(1, 1.0);
    SplitsAtFarthest(dist, points, 0.5, 1);
    TwoPointsUnchanged(dist, points[0], points[1], 0.5);
    TwoPointsUnchanged(dist, points[1], points[2], 0.5);
    assert points[..2] == [points[0], points[1]];
    assert points[1..] == [points[1], points[2]];
  }

  /**
   * When every interior point lies on the line through the two distinct
   * endpoints, only the endpoints are kept, whatever epsilon > 0.
   */
  lemma CollinearKeepsEndpoints(sqrt: real -> real, points: seq<Point>, epsilon: real)
    requires IsSqrt(sqrt) && |points| >= 2 && 0.0 < epsilon
    requires points[0] != points[|points| - 1]
    requires forall i :: 1 <= i < |points| - 1 ==> Cross(points[i], points[0], points[|points| - 1]) == 0.0
    ensures Simplification(LineDistance(sqrt), points, epsilon) == [points[0], points[|points| - 1]]
  {
    var dist := LineDistance(sqrt);
    forall i | 1 <= i < |points| - 1 ensures Deviation(dist, points, i) < epsilon {
      assert Cross(points[i], points[0], points[|points| - 1]) == 0.0;
    }
    OnlyEndpointsIff(dist, points, epsilon);
  }
}
