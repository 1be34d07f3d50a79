// Which input points the simplification of DPAlgorithm.rdp keeps, as indices
// into the input, and the shape guarantee of the whole recursion: every
// dropped point lies closer than epsilon to the chord joining the two kept
// points on either side of it.

module DPKeptPoints {
  import opened DPAlgorithm

  /**
   * The kept indices of a split at k: those of the left half without its
   * last one, then those of the right half moved up by k.
   */
  function Join(left: seq<int>, right: seq<int>, k: nat): (ks: seq<int>)
    requires 1 <= |left|
    ensures |ks| == |left| - 1 + |right|
  {
    seq(|left| - 1 + |right|, j requires 0 <= j < |left| - 1 + |right| =>
      if j < |left| - 1 then left[j] else right[j - (|left| - 1)] + k)
  }

  /** Position j < |left| - 1 of the joined indices holds left[j]. */
  lemma JoinLeft(left: seq<int>, right: seq<int>, k: nat, j: nat)
    requires j < |left| - 1
    ensures Join(left, right, k)[j] == left[j]
  {
  }

  /** Position |left| - 1 + m of the joined indices holds right[m] + k. */
  lemma JoinRight(left: seq<int>, right: seq<int>, k: nat, m: nat)
    requires 1 <= |left| && m < |right|
    ensures Join(left, right, k)[|left| - 1 + m] == right[m] + k
  {
  }

  /** Every index of ks is an index of points. */
  ghost predicate IndicesOf(ks: seq<int>, points: seq<Point>) {
    forall j :: 0 <= j < |ks| ==> 0 <= ks[j] < |points|
  }

  /** The points of the polyline at the indices of ks, in that order. */
  function Select(points: seq<Point>, ks: seq<int>): (r: seq<Point>)
    requires IndicesOf(ks, points)
    ensures |r| == |ks|
    ensures forall j :: 0 <= j < |ks| ==> r[j] == points[ks[j]]
  {
    seq(|ks|, j requires 0 <= j < |ks| => points[ks[j]])
  }

  /** Each index of ks is smaller than the next one. */
  ghost predicate StrictlyIncreasing(ks: seq<int>) {
    forall j :: 0 <= j < |ks| - 1 ==> ks[j] < ks[j + 1]
  }

  /**
   * a and b are indices of points, and every point strictly between them
   * lies closer than epsilon to the chord joining points[a] and points[b].
   */
  ghost predicate GapClose(dist: ChordDistance, points: seq<Point>, a: int, b: int, epsilon: real) {
    0 <= a && b < |points| &&
    forall i :: a < i < b ==> dist(points[i], points[a], points[b]) < epsilon
  }

  /**
   * Every point strictly between two consecutive indices of ks lies closer
   * than epsilon to the chord joining the points at those two indices.
   */
  ghost predicate DroppedClose(dist: ChordDistance, points: seq<Point>, ks: seq<int>, epsilon: real) {
    forall j :: 0 <= j < |ks| - 1 ==> GapClose(dist, points, ks[j], ks[j + 1], epsilon)
  }

  /**
   * The indices of the points the simplification keeps, by the recursion of
   * Simplification: a split at k joins the indices kept in the two halves.
   * What they are is stated by the lemmas below.
   */
  function KeptIndices(dist: ChordDistance, points: seq<Point>, epsilon: real): (ks: seq<int>)
    requires |points| >= 1 && 0.0 < epsilon
    ensures 2 <= |ks|
    decreases |points|
  {
    var f := Scan(dist, points, |points| - 1);
    if f.dmax >= epsilon then
      Join(KeptIndices(dist, points[..f.index + 1], epsilon), KeptIndices(dist, points[f.index..], epsilon), f.index)
    else
      [0, |points| - 1]
  }

  /** The split case of KeptIndices, spelled out. */
  lemma KeptIndicesSplit(dist: ChordDistance, points: seq<Point>, epsilon: real, k: nat)
    requires |points| >= 1 && 0.0 < epsilon
    requires Scan(dist, points, |points| - 1) == Farthest(k, Scan(dist, points, |points| - 1).dmax)
    requires Scan(dist, points, |points| - 1).dmax >= epsilon
    ensures 1 <= k < |points| - 1
    ensures KeptIndices(dist, points, epsilon)
         == Join(KeptIndices(dist, points[..k + 1], epsilon), KeptIndices(dist, points[k..], epsilon), k)
  {
  }

  /** When no point is at least epsilon from the chord, only the two ends are kept. */
  lemma KeptIndicesLeaf(dist: ChordDistance, points: seq<Point>, epsilon: real)
    requires |points| >= 1 && 0.0 < epsilon
    requires Scan(dist, points, |points| - 1).dmax < epsilon
    ensures KeptIndices(dist, points, epsilon) == [0, |points| - 1]
  {
  }

  // ---------------------------------------------------------------------
  // The kept indices run from the first point to the last, in range

  /** The kept indices run from 0 to the last index of points, all in range. */
  ghost predicate SpansPolyline(ks: seq<int>, points: seq<Point>) {
    1 <= |ks| && ks[0] == 0 && ks[|ks| - 1] == |points| - 1 && IndicesOf(ks, points)
  }

  /** The joined indices of two halves that meet at k are indices of the whole. */
  lemma JoinIndices(points: seq<Point>, k: nat, left: seq<int>, right: seq<int>)
    requires k < |points| && 1 <= |left|
    requires IndicesOf(left, points[..k + 1]) && IndicesOf(right, points[k..])
    ensures IndicesOf(Join(left, right, k), points)
  {
    var ks := Join(left, right, k);
    forall j | 0 <= j < |ks| ensures 0 <= ks[j] < |points| {
      if j >= |left| - 1 {
        JoinRight(left, right, k, j - (|left| - 1));
      } else {
        JoinLeft(left, right, k, j);
      }
    }
  }

  /** Joining indices spanning the two halves of a split at k spans the whole. */
  lemma JoinSpans(points: seq<Point>, k: nat, left: seq<int>, right: seq<int>)
    requires k < |points| && 2 <= |left|
    requires SpansPolyline(left, points[..k + 1]) && SpansPolyline(right, points[k..])
    ensures SpansPolyline(Join(left, right, k), points)
  {
    JoinIndices(points, k, left, right);
    JoinLeft(left, right, k, 0);
    JoinRight(left, right, k, |right| - 1);
  }

  /** The split step of KeptIndicesSpan. */
  lemma SplitSpans(dist: ChordDistance, points: seq<Point>, epsilon: real, k: nat)
    requires |points| >= 1 && 0.0 < epsilon
    requires Scan(dist, points, |points| - 1) == Farthest(k, Scan(dist, points, |points| - 1).dmax)
    requires Scan(dist, points, |points| - 1).dmax >= epsilon
    requires k < |points|
    requires SpansPolyline(KeptIndices(dist, points[..k + 1], epsilon), points[..k + 1])
    requires SpansPolyline(KeptIndices(dist, points[k..], epsilon), points[k..])
    ensures SpansPolyline(KeptIndices(dist, points, epsilon), points)
  {
    KeptIndicesSplit(dist, points, epsilon, k);
    JoinSpans(points, k, KeptIndices(dist, points[..k + 1], epsilon), KeptIndices(dist, points[k..], epsilon));
  }

  /**
   * The first kept index is 0, the last is the index of the last point, and
   * every kept index is an index of the polyline.
   */
  lemma {:induction false} KeptIndicesSpan(dist: ChordDistance, points: seq<Point>, epsilon: real)
    requires |points| >= 1 && 0.0 < epsilon
    ensures SpansPolyline(KeptIndices(dist, points, epsilon), points)
    decreases |points|
  {
    var f := Scan(dist, points, |points| - 1);
    if f.dmax >= epsilon {
      SplitIsInterior(dist, points, epsilon);
      KeptIndicesSpan(dist, points[..f.index + 1], epsilon);
      KeptIndicesSpan(dist, points[f.index..], epsilon);
      SplitSpans(dist, points, epsilon, f.index);
    } else {
      KeptIndicesLeaf(dist, points, epsilon);
    }
  }

  // ---------------------------------------------------------------------
  // The kept indices strictly increase

  /** Joining two increasing index sequences that meet at k keeps them increasing. */
  lemma JoinIncreases(left: seq<int>, right: seq<int>, k: nat)
    requires 2 <= |left| && 1 <= |right|
    requires left[|left| - 1] == k && right[0] == 0
    requires StrictlyIncreasing(left) && StrictlyIncreasing(right)
    ensures StrictlyIncreasing(Join(left, right, k))
  {
    var ks := Join(left, right, k);
    forall j | 0 <= j < |ks| - 1 ensures ks[j] < ks[j + 1] {
      if j + 1 < |left| - 1 {
        JoinLeft(left, right, k, j);
        JoinLeft(left, right, k, j + 1);
      } else if j + 1 == |left| - 1 {
        JoinLeft(left, right, k, j);
        JoinRight(left, right, k, 0);
      } else {
        JoinRight(left, right, k, j - (|left| - 1));
        JoinRight(left, right, k, j + 1 - (|left| - 1));
      }
    }
  }

  /** The split step of KeptIndicesIncrease. */
  lemma SplitIncreases(dist: ChordDistance, points: seq<Point>, epsilon: real, k: nat)
    requires |points| >= 2 && 0.0 < epsilon
    requires Scan(dist, points, |points| - 1) == Farthest(k, Scan(dist, points, |points| - 1).dmax)
    requires Scan(dist, points, |points| - 1).dmax >= epsilon
    requires k < |points|
    requires StrictlyIncreasing(KeptIndices(dist, points[..k + 1], epsilon))
    requires StrictlyIncreasing(KeptIndices(dist, points[k..], epsilon))
    ensures StrictlyIncreasing(KeptIndices(dist, points, epsilon))
  {
    KeptIndicesSplit(dist, points, epsilon, k);
    var lp, rp := points[..k + 1], points[k..];
    KeptIndicesSpan(dist, lp, epsilon);
    KeptIndicesSpan(dist, rp, epsilon);
    JoinIncreases(KeptIndices(dist, lp, epsilon), KeptIndices(dist, rp, epsilon), k);
  }

  /**
   * On two or more points each kept index is smaller than the next: no point
   * is kept twice or out of order.
   */
  lemma {:induction false} KeptIndicesIncrease(dist: ChordDistance, points: seq<Point>, epsilon: real)
    requires |points| >= 2 && 0.0 < epsilon
    ensures StrictlyIncreasing(KeptIndices(dist, points, epsilon))
    decreases |points|
  {
    var f := Scan(dist, points, |points| - 1);
    if f.dmax >= epsilon {
      SplitIsInterior(dist, points, epsilon);
      KeptIndicesIncrease(dist, points[..f.index + 1], epsilon);
      KeptIndicesIncrease(dist, points[f.index..], epsilon);
      SplitIncreases(dist, points, epsilon, f.index);
    } else {
      KeptIndicesLeaf(dist, points, epsilon);
    }
  }

  // ---------------------------------------------------------------------
  // The simplification is the input at the kept indices

  /** Selecting at joined indices selects in the two halves and joins the results. */
  lemma SelectJoin(points: seq<Point>, k: nat, left: seq<int>, right: seq<int>)
    requires k < |points| && 1 <= |left|
    requires IndicesOf(left, points[..k + 1]) && IndicesOf(right, points[k..])
    ensures IndicesOf(Join(left, right, k), points)
    ensures var l := Select(points[..k + 1], left);
      Select(points, Join(left, right, k)) == l[..|l| - 1] + Select(points[k..], right)
  {
    var ks := Join(left, right, k);
    JoinIndices(points, k, left, right);
    var l := Select(points[..k + 1], left);
    var s := l[..|l| - 1] + Select(points[k..], right);
    forall j | 0 <= j < |ks| ensures Select(points, ks)[j] == s[j] {
      if j >= |left| - 1 {
        JoinRight(left, right, k, j - (|left| - 1));
      } else {
        JoinLeft(left, right, k, j);
      }
    }
  }

  /**
   * The kept indices are indices of points, and the simplification is the
   * points at those indices.
   */
  ghost predicate SelectsKept(dist: ChordDistance, points: seq<Point>, epsilon: real)
    requires |points| >= 1 && 0.0 < epsilon
  {
    IndicesOf(KeptIndices(dist, points, epsilon), points) &&
    Simplification(dist, points, epsilon) == Select(points, KeptIndices(dist, points, epsilon))
  }

  /** The split step of SimplificationSelectsKept. */
  lemma SplitSelectsKept(dist: ChordDistance, points: seq<Point>, epsilon: real, k: nat)
    requires |points| >= 1 && 0.0 < epsilon
    requires Scan(dist, points, |points| - 1) == Farthest(k, Scan(dist, points, |points| - 1).dmax)
    requires Scan(dist, points, |points| - 1).dmax >= epsilon
    requires k < |points|
    requires SelectsKept(dist, points[..k + 1], epsilon) && SelectsKept(dist, points[k..], epsilon)
    ensures SelectsKept(dist, points, epsilon)
  {
    KeptIndicesSplit(dist, points, epsilon, k);
    var lp, rp := points[..k + 1], points[k..];
    var l, r := Simplification(dist, lp, epsilon), Simplification(dist, rp, epsilon);
    SplitAtHalves(dist, points, k, epsilon, l, r);
    SelectJoin(points, k, KeptIndices(dist, lp, epsilon), KeptIndices(dist, rp, epsilon));
    assert Simplification(dist, points, epsilon) == SplitAt(dist, points, k, epsilon);
  }

  /** The leaf step of SimplificationSelectsKept: both keep the two ends. */
  lemma LeafSelectsKept(dist: ChordDistance, points: seq<Point>, epsilon: real)
    requires |points| >= 1 && 0.0 < epsilon
    requires Scan(dist, points, |points| - 1).dmax < epsilon
    ensures IndicesOf(KeptIndices(dist, points, epsilon), points) &&
      Simplification(dist, points, epsilon) == Select(points, KeptIndices(dist, points, epsilon))
  {
    KeptIndicesLeaf(dist, points, epsilon);
    assert Select(points, [0, |points| - 1]) == [points[0], points[|points| - 1]];
  }

  /** The simplification is the input's points at the kept indices. */
  lemma {:induction false} SimplificationSelectsKept(dist: ChordDistance, points: seq<Point>, epsilon: real)
    requires |points| >= 1 && 0.0 < epsilon
    ensures SelectsKept(dist, points, epsilon)
    decreases |points|
  {
    var f := Scan(dist, points, |points| - 1);
    if f.dmax >= epsilon {
      SplitIsInterior(dist, points, epsilon);
      SimplificationSelectsKept(dist, points[..f.index + 1], epsilon);
      SimplificationSelectsKept(dist, points[f.index..], epsilon);
      SplitSelectsKept(dist, points, epsilon, f.index);
    } else {
      LeafSelectsKept(dist, points, epsilon);
    }
  }

  // ---------------------------------------------------------------------
  // Every dropped point is close to the chord of its kept neighbours

  /** A gap of the left half up to index k is the same gap of the whole. */
  lemma GapOfLeftHalf(dist: ChordDistance, points: seq<Point>, k: nat, a: int, b: int, epsilon: real)
    requires k < |points|
    requires GapClose(dist, points[..k + 1], a, b, epsilon)
    ensures GapClose(dist, points, a, b, epsilon)
  {
    forall i | a < i < b ensures dist(points[i], points[a], points[b]) < epsilon {
      assert dist(points[..k + 1][i], points[..k + 1][a], points[..k + 1][b]) < epsilon;
    }
  }

  /** A gap of the right half from index k is the gap moved up by k of the whole. */
  lemma GapOfRightHalf(dist: ChordDistance, points: seq<Point>, k: nat, a: int, b: int, epsilon: real)
    requires k < |points|
    requires GapClose(dist, points[k..], a, b, epsilon)
    ensures GapClose(dist, points, a + k, b + k, epsilon)
  {
    forall i | a + k < i < b + k ensures dist(points[i], points[a + k], points[b + k]) < epsilon {
      assert dist(points[k..][i - k], points[k..][a], points[k..][b]) < epsilon;
    }
  }

  /** Joining the indices of two halves that meet at k keeps dropped points close. */
  lemma JoinKeepsDroppedClose(dist: ChordDistance, points: seq<Point>, k: nat, epsilon: real,
                              left: seq<int>, right: seq<int>)
    requires k < |points| && 1 <= |left| && 1 <= |right|
    requires left[|left| - 1] == k && right[0] == 0
    requires DroppedClose(dist, points[..k + 1], left, epsilon)
    requires DroppedClose(dist, points[k..], right, epsilon)
    ensures DroppedClose(dist, points, Join(left, right, k), epsilon)
  {
    var ks := Join(left, right, k);
    forall j | 0 <= j < |ks| - 1 ensures GapClose(dist, points, ks[j], ks[j + 1], epsilon) {
      if j < |left| - 1 {
        JoinLeft(left, right, k, j);
        if j + 1 == |left| - 1 {
          JoinRight(left, right, k, 0);
        } else {
          JoinLeft(left, right, k, j + 1);
        }
        assert GapClose(dist, points[..k + 1], left[j], left[j + 1], epsilon);
        GapOfLeftHalf(dist, points, k, left[j], left[j + 1], epsilon);
      } else {
        var m := j - (|left| - 1);
        JoinRight(left, right, k, m);
        JoinRight(left, right, k, m + 1);
        assert GapClose(dist, points[k..], right[m], right[m + 1], epsilon);
        GapOfRightHalf(dist, points, k, right[m], right[m + 1], epsilon);
      }
    }
  }

  /** The shape guarantee when only the two ends are kept. */
  lemma LeafDroppedClose(dist: ChordDistance, points: seq<Point>, epsilon: real)
    requires |points| >= 1 && 0.0 < epsilon
    requires Scan(dist, points, |points| - 1).dmax < epsilon
    ensures DroppedClose(dist, points, KeptIndices(dist, points, epsilon), epsilon)
  {
    KeptIndicesLeaf(dist, points, epsilon);
    ScanIsFirstMaximum(dist, points, |points| - 1);
    forall i | 0 < i < |points| - 1 ensures dist(points[i], points[0], points[|points| - 1]) < epsilon {
      assert Deviation(dist, points, i) <= Scan(dist, points, |points| - 1).dmax;
    }
    assert GapClose(dist, points, 0, |points| - 1, epsilon);
  }

  /** The split step of DroppedPointsAreClose. */
  lemma SplitDroppedClose(dist: ChordDistance, points: seq<Point>, epsilon: real, k: nat)
    requires |points| >= 1 && 0.0 < epsilon
    requires Scan(dist, points, |points| - 1) == Farthest(k, Scan(dist, points, |points| - 1).dmax)
    requires Scan(dist, points, |points| - 1).dmax >= epsilon
    requires k < |points|
    requires DroppedClose(dist, points[..k + 1], KeptIndices(dist, points[..k + 1], epsilon), epsilon)
    requires DroppedClose(dist, points[k..], KeptIndices(dist, points[k..], epsilon), epsilon)
    ensures DroppedClose(dist, points, KeptIndices(dist, points, epsilon), epsilon)
  {
    KeptIndicesSplit(dist, points, epsilon, k);
    var lp, rp := points[..k + 1], points[k..];
    KeptIndicesSpan(dist, lp, epsilon);
    KeptIndicesSpan(dist, rp, epsilon);
    JoinKeepsDroppedClose(dist, points, k, epsilon, KeptIndices(dist, lp, epsilon), KeptIndices(dist, rp, epsilon));
  }

  /**
   * The shape guarantee: every point strictly between two consecutive kept
   * indices lies closer than epsilon to the chord joining those two kept
   * points.
   */
  lemma {:induction false} DroppedPointsAreClose(dist: ChordDistance, points: seq<Point>, epsilon: real)
    requires |points| >= 1 && 0.0 < epsilon
    ensures DroppedClose(dist, points, KeptIndices(dist, points, epsilon), epsilon)
    decreases |points|
  {
    var f := Scan(dist, points, |points| - 1);
    if f.dmax >= epsilon {
      SplitIsInterior(dist, points, epsilon);
      DroppedPointsAreClose(dist, points[..f.index + 1], epsilon);
      DroppedPointsAreClose(dist, points[f.index..], epsilon);
      SplitDroppedClose(dist, points, epsilon, f.index);
    } else {
      LeafDroppedClose(dist, points, epsilon);
    }
  }

  /**
   * The general shape the simplification keeps, in one statement: it is the
   * input at increasing indices from the first point to the last, and every
   * point it drops lies closer than epsilon to the chord of the kept points
   * on either side of it.
   */
  lemma SimplificationKeepsShape(dist: ChordDistance, points: seq<Point>, epsilon: real)
    requires |points| >= 2 && 0.0 < epsilon
    ensures var ks := KeptIndices(dist, points, epsilon);
      SpansPolyline(ks, points) && StrictlyIncreasing(ks) &&
      Simplification(dist, points, epsilon) == Select(points, ks) &&
      DroppedClose(dist, points, ks, epsilon)
  {
    KeptIndicesSpan(dist, points, epsilon);
    KeptIndicesIncrease(dist, points, epsilon);
    SimplificationSelectsKept(dist, points, epsilon);
    DroppedPointsAreClose(dist, points, epsilon);
  }
}
