# Jarvis march convex hull, modelled in Dafny

This project models `jarvis.py`, a gift-wrapping (Jarvis march) convex hull.
The program has three steps:

1. It sorts the caller's point list in place by the key (x, −y). That is
   left to right, and top to bottom among points with the same x.
2. It walks the hull by index, starting from index 0. Each step scans every
   point not among the last two hull entries. It picks the point whose turn
   cosine with the last hull edge is greatest. The first of equal maxima
   wins, and the scan starts from `best = max_cos = -1`. The walk stops when
   the pick is the start again.
3. It maps the indices back to points and removes collinear vertices in one
   left-to-right stack pass.

The modules follow the program's layers:

- `Results` holds the failures (`EmptyInput`, `ZeroDivision`, `NotClosed`)
  and a `Result` type.
- `Geometry` holds the vector primitives (`sub`, `dot`, `mag`), the cosine,
  the slope with signed infinities, and the collinearity test.
- `PointOrder` holds the sort key and the in-place sort on an `array`.
- `CollinearFilter` holds the stack pass. It is an imperative method
  (`DeleteCollinear`) proved against the function `DropCollinear` and
  lemmas about it.
- `Hull` holds three things:
  - the scan, an imperative method proved against the argmax rule;
  - the walk, an imperative loop proved against a trace predicate. A trace
    says that each hull entry is what the scan after the entries before it
    picked;
  - the top-level `Jarvis` method.

Coordinates are exact reals. The square root behind `mag` is a parameter
`root`. The walk is stated for any turn measure `turn`, and `Jarvis`
instantiates it with the cosine. When no candidate's cosine exceeds −1, the
scan appends the sentinel −1. Like a negative Python index, −1 is then read
as the last point.

### Inputs of one or two points

One might expect such inputs to come back unchanged. `jarvis.py` does not
return them unchanged, and the model follows it:

- **One point `[p]`.** The walk is `[0, -1, -1]`, so the answer is
  `[p, p]`. `Hull.SinglePointIsListedTwice` proves this.
- **Two distinct points.** The third scan measures from a zero-length edge,
  so the cosine divides by zero and no walk closes.
  `Hull.TwoPointsNeverClose` proves this.

## Model

| member | source | states |
|---|---|---|
| Geometry.Sub | jarvis.py:4-5 | Adding v back to `sub(u, v)` gives u. The difference is the zero vector exactly when u == v. |
| Geometry.Cos | jarvis.py:19-23 | A repeated target (v2 == v3) gives exactly 0 (line 20). The only failure is a division by zero, and it can happen only when v2 != v3. |
| Geometry.CosFailsAfterRepeatedVertex | jarvis.py:19-23 | With a square root mapping 0 to 0, a zero-length incoming ray (v1 == v2) and a distinct target fail with a division by zero. |
| Geometry.Slope | jarvis.py:26-29 | +inf exactly for a vertical ray going up. −inf exactly for a vertical ray not going up, which includes u == v. Finite exactly when the x coordinates differ. |
| Geometry.SlopeIsRiseOverRun | jarvis.py:29 | A finite slope times the run is the rise. |
| Geometry.Collinear | jarvis.py:32-33 | A vertical ray is collinear only with another vertical ray. On three points of one vertical line, the test holds exactly when both rays point up or neither does. |
| Geometry.CollinearIffCross | jarvis.py:32-33 | Two equal consecutive slopes mean one of two things. Away from verticals, the cross product of the two rays vanishes. On verticals, the three points share x and both rays point the same way. The equivalence holds in both directions. |
| Geometry.SlopeTransitive | jarvis.py:32-33 | If v1, v2, v3 are collinear and v3 != v1, the ray v1→v3 has the slope of the ray v1→v2. |
| PointOrder.KeyLe | jarvis.py:55 | Comparing the tuples (x, −y) puts p no later than q exactly when p is left of q, or on the same vertical line and not below q. |
| PointOrder.KeyLeTotalOrder | jarvis.py:55 | The key (x, −y) orders points totally, and two points with equal keys are equal. |
| PointOrder.SortInPlace | jarvis.py:55 | The array ends sorted by the key, and its contents are a permutation of the old contents. |
| PointOrder.SortedUnique | jarvis.py:55 | Two sorted lists with the same points are equal, so every correct sort gives the same list. |
| PointOrder.SortedHeadIsLeftmostTopmost | jarvis.py:55-58 | The first point of a sorted list is the leftmost one, and the topmost among the leftmost. |
| CollinearFilter.Push | jarvis.py:44-49 | The pushed point ends on top. The stack keeps its length exactly when it held two or more points and its top two are collinear with p. Otherwise it grows by one. |
| CollinearFilter.PushKeepsBottom | jarvis.py:47-49 | A push pops at most the top point. Everything below the new top is a prefix of the old stack. |
| CollinearFilter.ScannedUpTo | jarvis.py:42-49 | After n points the stack is non-empty and holds at most n points. It holds at least two once n ≥ 2. It starts with the first point and ends with the latest one. |
| CollinearFilter.DropCollinear | jarvis.py:39-50 | Inputs of under 3 points come back unchanged. Longer inputs keep both ends, and the output length is between 2 and the input length. |
| CollinearFilter.DeleteCollinear | jarvis.py:39-50 | The imperative stack loop returns exactly `DropCollinear(points)`. |
| CollinearFilter.PushKeepsSubsequence | jarvis.py:47-49 | One push keeps the stack a subsequence of the input, with the pushed position last. |
| CollinearFilter.ScannedPositions | jarvis.py:42-50 | The stack is a subsequence of the input at strictly increasing positions, and the last position is the latest point. |
| CollinearFilter.DropCollinearIsSubsequence | jarvis.py:39-50 | The filter only deletes points: the output is a subsequence of the input. |
| CollinearFilter.DropCollinearKeepsInputPoints | jarvis.py:39-50 | Every output point is an input point. Every output point after the first is an input point after the first. |
| CollinearFilter.DistinctPermutation | jarvis.py:55 | Reordering keeps pairwise distinct points pairwise distinct, so sorting them does too. |
| CollinearFilter.PushKeepsNoCollinearRun | jarvis.py:47-49 | One push keeps a stack free of three consecutive collinear points, provided the point below the top differs from the pushed point. |
| CollinearFilter.ScannedHasNoCollinearRun | jarvis.py:42-50 | On distinct points, the stack has no three consecutive collinear points. |
| CollinearFilter.DropCollinearLeavesNoCollinearRun | jarvis.py:39-50 | On distinct points, the output has no three consecutive collinear points. The wrap-around triple is not examined. |
| CollinearFilter.ScannedKeepsRunFreeInput | jarvis.py:42-50 | A prefix free of collinear runs passes through the stack unchanged. |
| CollinearFilter.DropCollinearKeepsRunFreeInput | jarvis.py:39-50 | A list without three consecutive collinear points comes back unchanged. |
| CollinearFilter.DropCollinearIdempotent | jarvis.py:39-50 | On distinct points, filtering twice equals filtering once. |
| CollinearFilter.DocExample | jarvis.py:37-38 | Take a, b, c, d distinct and in order along one line, with e off it. Then [a, b, c, d, e] becomes [a, d, e]. |
| CollinearFilter.DocExampleOnAxis | jarvis.py:37-38 | The example on concrete points of the x-axis. |
| Hull.At | jarvis.py:62-67 | Every index in range reads a point of the list. This includes a negative index, which counts from the end. |
| Hull.EdgeFrom | jarvis.py:62-66 | The edge the scan measures against starts at an input point. |
| Hull.EdgeTo | jarvis.py:62-67 | On the first scan the edge runs one unit straight down from its start. Later it ends at an input point. |
| Hull.Avoid | jarvis.py:64-68 | The scan skips the last hull entry, and also the one before it once the hull has two entries. It skips at most two indices, all of them hull entries. |
| Hull.ScanUpTo | jarvis.py:75-81 | The pick is −1 or a non-skipped index. A failure comes from some non-skipped candidate's score. |
| Hull.ScanUpToMeaning | jarvis.py:75-81 | The scan succeeds exactly when every candidate's score is defined. It then picks by the argmax rule: the first candidate of greatest score above −1, or −1 when none exceeds −1. max_cos is the picked score, or −1. |
| Hull.ScanFailurePersists | jarvis.py:76-78 | Once the scan has failed, later candidates do not change the outcome. |
| Hull.Scan | jarvis.py:75-81 | The loop returns the scan result. It succeeds exactly when every score is defined, and its pick obeys the argmax rule. |
| Hull.Next | jarvis.py:62-81 | The pick after a hull prefix is −1 or a point outside the last two entries. A failure is the failing score of such a point against the edge. |
| Hull.StepIsNext | jarvis.py:62-81 | A walk step is the scan over the edge and avoid list of lines 62-68. Its pick is −1 or a point the scan does not skip, so it is never one of the last two entries. |
| Hull.TracePrefix | jarvis.py:61-85 | Every non-empty prefix of a trace is a trace. |
| Hull.TraceEntries | jarvis.py:58-85 | A trace starts at 0. Every later entry is not 0 and is what the scan after the entries before it picked. |
| Hull.TraceDeterministic | jarvis.py:61-85 | Of two traces, the shorter is a prefix of the longer. |
| Hull.ClosedBoundsTraces | jarvis.py:61-85 | Every trace is a prefix of the closed walk, and its next scan succeeds. |
| Hull.ClosedHullUnique | jarvis.py:61-85 | There is at most one closed walk. |
| Hull.FailedScanRulesOutClosing | jarvis.py:75-81 | A walk whose next scan fails has no closed continuation. |
| Hull.PickedStartCloses | jarvis.py:83-84 | A walk whose next pick is the start is the closed walk, and the only one. |
| Hull.LongTraceRulesOutClosing | jarvis.py:61-85 | No trace is longer than the closed walk. |
| Hull.PickExtends | jarvis.py:85 | Appending a pick other than the start keeps a trace within the index range. |
| Hull.Walk | jarvis.py:58-85 | Empty input fails with EmptyInput, and only empty input does. A success is the closed walk, starting at 0 and never revisiting 0. A failure exhibits a trace whose scan divides by zero, or an over-long trace. Whenever the closed walk exists within the scan bound, the result is that walk. |
| Hull.PointsAt | jarvis.py:86 | One input point per hull entry. |
| Hull.LaterEntriesAreNotStart | jarvis.py:86 | On two or more pairwise distinct points, a hull entry other than 0 reads a point other than the first. The sentinel −1 reads the last point. |
| Hull.FilteredHullPoints | jarvis.py:86-87 | For a walk that starts at 0 and never returns to 0, the filtered points are input points and start with the first input point. On two or more pairwise distinct points, no later one is the first point again. |
| Hull.Jarvis | jarvis.py:53-87 | The caller's array ends sorted and permuted. Empty input fails with EmptyInput, and only empty input does. A success is the filtered points of the closed walk over the sorted points, and that is the result whenever the walk closes within the bound. A ZeroDivision failure exhibits a trace whose next scan fails. A NotClosed failure exhibits an over-long trace. Every output point is an input point, and the first is the leftmost, topmost one. On two or more pairwise distinct points, the first point is not listed again. |
| Hull.SinglePointIsListedTwice | jarvis.py:58-87 | One point: the closed walk is [0, −1, −1], and the answer lists the point twice. |
| Hull.TwoPointsNeverClose | jarvis.py:58-85 | Two distinct points, with a square root mapping 0 to 0, have no closed walk. |
| Hull.TwoPointsAfterOne | jarvis.py:64-81 | With two points, the scan after [0, 1] has no candidate and picks −1. |
| Hull.TwoPointsAfterSentinel | jarvis.py:64-81 | With two points, the scan after [0, −1] picks 1, whose score with itself is 0. |
| Hull.TwoPointsThirdScanFails | jarvis.py:64-81 | From a zero-length edge at the second point, the scan fails. |
| Hull.TwoPointsSecondScan | jarvis.py:64-81 | With two points, the second scan picks the other of 1 and −1. |
| Hull.TwoPointsFirstThree | jarvis.py:61-85 | With two points, every trace of three or more entries begins [0, 1, −1] or [0, −1, 1]. |
| Hull.TwoPointsLongTrace | jarvis.py:61-85 | With two such points, a trace of three or more entries has exactly three, and its next scan fails. |
| Hull.TwoPointsNoClosedHull | jarvis.py:61-85 | With two such points, no walk closes. |

## Left out

- The sample inputs and the printing loop (jarvis.py:90-116) are a demo
  harness, not part of the hull computation.
- Floating point is not modelled:
  - coordinates, slopes and cosines are exact reals;
  - ±inf exist only as the `ExtReal` cases of a slope;
  - rounding, which can make the float slope test disagree with the exact
    one, is not modelled.
- The square root (`**0.5`) is the parameter `root`. Only two lemmas require
  anything about it, namely `root(0) == 0`.
- Geometry.Cos: nothing is stated about the value beyond the zero case and
  the failure case. That it lies in [−1, 1], and how it relates to the
  angle, depends on `root` being a square root.
- Geometric correctness is not proved: that the walk is convex, encloses
  every point, and turns one way. The model proves the selection rule, the
  determinism of the walk and the filter's properties.
- Hull.Walk: the loop in jarvis.py is unbounded. The model stops after
  `(n+1)^2 + 1` scans with `NotClosed`, where n is the number of points. The
  state after two scans is the last two hull entries, so a walk that runs
  this long repeats a state and never closes. That pigeonhole argument is
  not proved, so the contract does not exclude `NotClosed`.
- Hull.Jarvis: like Hull.Walk, its contract does not exclude `NotClosed`.
  Its clause that the first point is not listed again holds only for two or
  more pairwise distinct points: a single point comes back as `[p, p]`, and
  with repeated points the sentinel −1 can read a copy of the first point.
- PointOrder.SortInPlace: Python's stable Timsort is replaced by an
  insertion sort. `PointOrder.SortedUnique` shows that any correct sort
  gives the same list, because the key determines the point.
- CollinearFilter.DropCollinear: for inputs of under 3 points, jarvis.py
  returns the caller's own list object; the model returns a value, so
  aliasing is not captured.
- Python exceptions (`ZeroDivisionError`, `IndexError` on an empty list)
  become the `Err` values of `Result`.
- Geometry.Dot and Geometry.Mag are plain arithmetic and carry no contracts
  of their own.
