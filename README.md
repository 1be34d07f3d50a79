# Ramer–Douglas–Peucker simplification of `DPAlgorithm`

`generate.py` turns the line-of-sight walls of a dd2vtt map into an OpenSCAD
model. Before it builds the model it thins every wall polyline with the
Ramer–Douglas–Peucker algorithm of class `DPAlgorithm`:

- `distance(a, b)` is the Euclidean distance between two points.
- `point_line_distance(point, start, end)` is the distance from a point to the
  line through `start` and `end`. When `start == end` it is the distance to `start`.
- `rdp(points, epsilon)` first scans the interior points for the first one
  farthest from the chord joining the first and the last point. If that
  distance is at least `epsilon`, it simplifies both halves, which share that
  point, and joins them with one copy of it. Otherwise it keeps only the two
  endpoints.

This project models these three functions in Dafny and proves what they
promise.

- `subsequence.dfy` (module `Subsequence`) defines order-preserving
  subsequences and the facts about them the proofs use.
- `dp_algorithm.dfy` (module `DPAlgorithm`) is the model:
  - `Point` holds real coordinates.
  - `Distance`, `Cross` and `PointLineDistance` are the two distance functions.
  - `Scan` is the farthest-point scan as a function. `FindFarthest` is the
    loop of `DPAlgorithm.rdp` (generate.py:29-36), proved to compute `Scan`.
  - `Simplification` (with its split branch `SplitAt`) is the recursion as a
    function. `Rdp` is `DPAlgorithm.rdp` as a recursive method, proved to
    compute `Simplification` with the point-to-line distance.
- `kept_points.dfy` (module `DPKeptPoints`) follows the whole recursion by the
  indices of the points it keeps. It proves the promise of the docstring of
  `DPAlgorithm.rdp` that the result keeps the general shape of the input: the
  result is the input at strictly increasing indices from the first point to
  the last, and every dropped point lies closer than epsilon to the chord
  joining the kept points on either side of it.
- `scenarios.dfy` (module `DPScenarios`) proves what the model returns on
  concrete polylines.

The square root comes from Python's `math` library, so it is a parameter
`sqrt` here. It must satisfy `IsSqrt`: it returns the non-negative root of
every non-negative real. Nothing else about it is assumed.

The simplification is defined for any distance-to-chord function `dist`. Its
structural promises hold for every such function: which points survive, in
what order, how many, and that it terminates. Idempotence also needs the
chord's two ends to lie at distance 0 (`VanishesAtChordEnds`), which
`PointLineDistance` satisfies (`LineDistanceVanishesAtChordEnds`).

## Model

| member | source | states |
|---|---|---|
| DPAlgorithm.Distance | generate.py:9-10 | The distance is non-negative, zero when the two points coincide, and strictly positive when they differ. |
| DPAlgorithm.DistanceSymmetric | generate.py:9-10 | distance(a, b) == distance(b, a). |
| DPAlgorithm.DistanceSquared | generate.py:9-10 | The distance squared is the sum of the squared coordinate differences. |
| DPAlgorithm.PointLineDistance | generate.py:12-22 | The distance to the line is non-negative. When start == end it is the distance to start. It is 0 when the point is start or end. |
| DPAlgorithm.PointLineDistanceIsShortest | generate.py:12-22 | For start != end, the result is at most the distance from the point to every point start + t·(end − start) of the line: it is the shortest distance to the line. |
| DPAlgorithm.PointLineDistanceAtFoot | generate.py:12-22 | For start != end, the result equals the distance from the point to the foot of its perpendicular on the line, so the bound above is attained. |
| DPAlgorithm.LineDistanceVanishesAtChordEnds | generate.py:12-22 | Both ends of every chord, degenerate or not, are at distance 0 from it. |
| DPAlgorithm.Scan | generate.py:29-36 | The distance held is non-negative. While the index held is still the initial 0, the distance held is the initial 0.0. Any other index is interior, and the distance held is that point's distance. Which index is held is stated by `ScanIsFirstMaximum`. |
| DPAlgorithm.ScanIsFirstMaximum | generate.py:32-36 | The distance held bounds every scanned point, and every point before the index held is strictly closer. Because the comparison is a strict `>`, the index is the first one of largest distance. |
| DPAlgorithm.ScanFindsFirstFarthest | generate.py:32-36 | Conversely, an interior index whose points before are strictly closer and whose points after are not farther is exactly what the scan returns. |
| DPAlgorithm.FindFarthest | generate.py:29-36 | The loop returns the index and the distance of Scan over all interior points. |
| DPAlgorithm.Simplification | generate.py:24-42 | The result has at least two points and, for two or more input points, no more points than the input. It starts with the first input point and ends with the last. |
| DPAlgorithm.SplitAt | generate.py:38-39 | A split keeps at least three points and at most all of them, and still starts and ends with the input's endpoints. |
| DPAlgorithm.Rdp | generate.py:24-42 | The recursive procedure, with its loop, returns exactly Simplification under the point-to-line distance. |
| DPAlgorithm.SplitIsInterior | generate.py:32-39 | With epsilon > 0, any split index lies in 1 .. n-2, so both halves are strictly shorter (termination). |
| DPAlgorithm.NonPositiveEpsilonAlwaysSplits | generate.py:29-39 | With epsilon <= 0 every call splits. On one or two points it splits at index 0, whose right half is the whole input again. |
| DPAlgorithm.SplitAtHalves | generate.py:38-39 | The simplified halves of a split at k end and begin with point k. The join drops the left half's copy of it and keeps the right half's. |
| DPAlgorithm.SplitsAtFarthest | generate.py:38-39 | When the farthest point is at least epsilon away, the result is the split at its index. |
| DPAlgorithm.SimplificationIsSubsequence | generate.py:38-41 | The result is an order-preserving subsequence of the input: no point is altered, reordered or invented. |
| DPAlgorithm.ShortInputKeepsEndpoints | generate.py:40-41 | One or two input points give [first, last]; a single point comes back twice. |
| DPAlgorithm.TwoPointsUnchanged | generate.py:29-41 | A two-point polyline comes back unchanged. |
| DPAlgorithm.OnlyEndpointsIff | generate.py:29-41 | The result is exactly [first, last] if and only if every interior point is closer than epsilon to the chord. |
| DPAlgorithm.SplitPointIsKept | generate.py:38-39 | When the farthest point is at least epsilon away, it is in the result, where the simplified left half ends. |
| DPAlgorithm.CloserBeforeSplit | generate.py:32-36 | Every point before the farthest index is strictly closer to the chord than the farthest point, the first point included. |
| DPAlgorithm.NotFartherAfterSplit | generate.py:32-36 | No point after the farthest index is farther from the chord than the farthest point, the last point included. |
| DPAlgorithm.LeftHalfCloser | generate.py:38-39 | Every interior point kept by the simplified left half is strictly closer to the whole chord than the farthest point. |
| DPAlgorithm.RightHalfNotFarther | generate.py:38-39 | No interior point kept by the simplified right half is farther from the whole chord than the farthest point. |
| DPAlgorithm.RescanGlued | generate.py:29-36 | Two halves glued at the farthest point, with closer points on the left and no farther ones on the right, rescan to that point at the join. |
| DPAlgorithm.RescanFindsSplit | generate.py:29-39 | Scanning a split result finds the same farthest point and distance, at the position where the left half ends. |
| DPAlgorithm.SplitGlue | generate.py:38-39 | A split result is its simplified left half without its last point, followed by its simplified right half. |
| DPAlgorithm.ResplitAtJoin | generate.py:29-39 | Simplifying a split result again splits it where its two halves meet. |
| DPAlgorithm.SplitAtGlued | generate.py:38-39 | Splitting a glued polyline at the join, when each half is its own simplification, gives the glued polyline back. |
| DPAlgorithm.IdempotentAtSplit | generate.py:24-42 | The induction step of idempotence, for a polyline that is split. |
| DPAlgorithm.SimplificationIdempotent | generate.py:24-42 | Simplifying a simplified polyline again with the same epsilon gives it back unchanged. |
| DPAlgorithm.MonotoneInEpsilon | generate.py:24-42 | For 0 < e1 <= e2, the result for e2 is a subsequence of the result for e1, so it is no longer. |
| DPKeptPoints.KeptIndices | generate.py:38-41 | The indices kept by the recursion, at least two of them, like the at least two points it returns. What they are is stated by the lemmas below. |
| DPKeptPoints.KeptIndicesSpan | generate.py:38-41 | The first kept index is 0 and the last is the index of the last point (`points[0]`, `points[-1]`); every kept index is an index of the input. |
| DPKeptPoints.KeptIndicesIncrease | generate.py:38-39 | On two or more points, each kept index is smaller than the next: the join at line 39 keeps the split point once and keeps order. |
| DPKeptPoints.SimplificationSelectsKept | generate.py:38-41 | The result of the simplification is exactly the input's points at the kept indices. |
| DPKeptPoints.DroppedPointsAreClose | generate.py:25-27 | Every point strictly between two consecutive kept indices is closer than epsilon to the chord joining the two kept points: the general shape of the series is kept. |
| DPKeptPoints.SimplificationKeepsShape | generate.py:24-42 | The four statements above together, for one polyline of two or more points. |
| DPScenarios.RootOfSquare | generate.py:9-10 | Any admissible sqrt returns r on r*r for r >= 0, so concrete distances are exact. |
| DPScenarios.SmallWobbleIsDropped | generate.py:24-42 | [(0,0), (1,0.05), (2,-0.05), (3,0)] with epsilon 0.1 gives [(0,0), (3,0)]. |
| DPScenarios.PeakIsKept | generate.py:24-42 | [(0,0), (1,5), (2,0)] with epsilon 0.1 comes back unchanged. |
| DPScenarios.RepeatedStartIsDropped | generate.py:12-22 | [(0,0), (0,0), (1,1)] with epsilon 0.01 gives [(0,0), (1,1)]: the chord is not degenerate and the repeated start is on it. |
| DPScenarios.ClosedLoopKeepsFarPoint | generate.py:13-14 | [(0,0), (1,0), (0,0)] with epsilon 0.5 is unchanged: its chord is degenerate, so the middle point is measured against the start. |
| DPScenarios.CollinearKeepsEndpoints | generate.py:16-22 | When every interior point is on the line through two distinct endpoints, only the endpoints remain, for every epsilon > 0. |

## Left out

- `parse_dd2vtt`, `generate_scad`, the script body and its configuration
  constants (generate.py:46-136) are not part of this model. They are JSON
  reading, OpenSCAD text generation, and calls to external tools and files.
- Floating point: coordinates are reals. The model does not capture rounding
  in `sqrt`, in the products or in the division. It also does not capture the
  `ZeroDivisionError` that occurs when distinct but extremely close endpoints
  make the squared length underflow to 0.0.
- `math.sqrt` is the parameter `sqrt`, constrained only by `IsSqrt`.
- Python point equality (`start == end` on coordinate lists) is datatype
  equality here. The special float values are not modelled: -0.0 equals
  0.0 in Python, and NaN is never equal to itself.
- Empty input: `DPAlgorithm.rdp` fails with an IndexError on `points[0]`. The
  model requires at least one point.
- epsilon <= 0: the recursion of `DPAlgorithm.rdp` never reaches a base case.
  Every call splits, and on one or two points it splits at index 0, recursing
  on the same list (`NonPositiveEpsilonAlwaysSplits`). CPython stops it with a
  RecursionError. Every member therefore requires epsilon > 0.
- Python's recursion-depth limit on very long polylines is not modelled.
