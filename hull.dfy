/** The gift-wrapping walk: sort the points, start from the first one, and
    repeatedly pick the point making the largest turn cosine with the last
    hull edge, until the start point is picked again; then map the hull
    indices back to points and drop collinear vertices.

    Hull entries are indices into the sorted points. The walk may append the
    sentinel -1 (no candidate beat a cosine of -1); like a negative list
    index, -1 is then read as the last point. */
module Hull {
  import opened Results
  import opened Geometry
  import opened PointOrder
  import opened CollinearFilter

  /** A turn measure: the cosine-like score of candidate p for the edge
      a -> b, or a failure. The walk is stated for any measure; the hull
      computation uses Cos with a square root. */
  type Turn = (Point, Point, Point) -> Result<real>

  function CosTurn(root: real -> real): Turn {
    (a: Point, b: Point, p: Point) => Cos(root, a, b, p)
  }

  /** Reads a point by a possibly negative index, counting from the end;
      every index in range reads a point of ps. */
  function At(ps: seq<Point>, i: int): (p: Point)
    requires -|ps| <= i < |ps|
    ensures p in ps
  {
    if i < 0 then ps[|ps| + i] else ps[i]
  }

  /** A non-empty list of indices each of which is a point or the sentinel -1. */
  predicate Indexes(ps: seq<Point>, h: seq<int>) {
    |ps| >= 1 && |h| >= 1 && forall k :: 0 <= k < |h| ==> -1 <= h[k] < |ps|
  }

  /** The edge a scan measures turns against, and the indices it skips: on
      the first scan a unit step straight down from the start point; later,
      the last two hull points. */
  function EdgeFrom(ps: seq<Point>, h: seq<int>): (r: Point)
    requires Indexes(ps, h)
    ensures r in ps
  {
    if |h| == 1 then At(ps, h[0]) else At(ps, h[|h| - 2])
  }

  function EdgeTo(ps: seq<Point>, h: seq<int>): (r: Point)
    requires Indexes(ps, h)
    ensures |h| == 1 ==> Sub(r, EdgeFrom(ps, h)) == Point(0.0, -1.0)
    ensures |h| >= 2 ==> r in ps
  {
    if |h| == 1 then Sub(At(ps, h[0]), Point(0.0, 1.0)) else At(ps, h[|h| - 1])
  }

  function Avoid(h: seq<int>): (r: seq<int>)
    requires |h| >= 1
    ensures 1 <= |r| <= 2 && h[|h| - 1] in r
    ensures |h| >= 2 ==> h[|h| - 2] in r
    ensures forall j :: j in r ==> j in h
  {
    if |h| == 1 then [h[0]] else h[|h| - 2..]
  }

  /** j is a point the scan considers. */
  predicate Candidate(ps: seq<Point>, avoid: seq<int>, j: int) {
    0 <= j < |ps| && j !in avoid
  }

  /** Every candidate below m has a defined score. */
  ghost predicate DefinedBelow(ps: seq<Point>, turn: Turn, a: Point, b: Point, avoid: seq<int>, m: int) {
    forall j :: 0 <= j < m && Candidate(ps, avoid, j) ==> turn(a, b, ps[j]).Ok?
  }

  ghost function CosAt(ps: seq<Point>, turn: Turn, a: Point, b: Point, j: int): real
    requires 0 <= j < |ps| && turn(a, b, ps[j]).Ok?
  {
    turn(a, b, ps[j]).value
  }

  /** best is the argmax rule over the candidates below m: the first
      candidate of greatest score, provided that score exceeds -1, and the
      sentinel -1 when no candidate's score exceeds -1. */
  ghost predicate SelectsBelow(ps: seq<Point>, turn: Turn, a: Point, b: Point, avoid: seq<int>, m: int, best: int)
    requires 0 <= m <= |ps| && DefinedBelow(ps, turn, a, b, avoid, m)
  {
    if best == -1 then
      forall j :: 0 <= j < m && Candidate(ps, avoid, j) ==> CosAt(ps, turn, a, b, j) <= -1.0
    else
      && 0 <= best < m && Candidate(ps, avoid, best)
      && CosAt(ps, turn, a, b, best) > -1.0
      && (forall j :: 0 <= j < m && Candidate(ps, avoid, j) ==> CosAt(ps, turn, a, b, j) <= CosAt(ps, turn, a, b, best))
      && (forall j :: 0 <= j < best && Candidate(ps, avoid, j) ==> CosAt(ps, turn, a, b, j) < CosAt(ps, turn, a, b, best))
  }

  /** The scan over the candidates below m, as the pair (best, max_cos): it
      starts from (-1, -1), skips the indices in avoid, moves to a candidate
      only on a strictly greater score, and stops at the first failing score
      with that score's failure. The pick is -1 or a candidate below m. */
  function ScanUpTo(ps: seq<Point>, turn: Turn, a: Point, b: Point, avoid: seq<int>, m: nat): (r: Result<(int, real)>)
    requires m <= |ps|
    ensures r.Ok? ==> r.value.0 == -1 || (r.value.0 < m && Candidate(ps, avoid, r.value.0))
    ensures r.Err? ==> exists j :: 0 <= j < m && Candidate(ps, avoid, j) && turn(a, b, ps[j]) == Err(r.error)
  {
    if m == 0 then Ok((-1, -1.0))
    else
      var acc :- ScanUpTo(ps, turn, a, b, avoid, m - 1);
      if m - 1 in avoid then Ok(acc)
      else
        var c := turn(a, b, ps[m - 1]);
        if c.Err? then Err(c.error)
        else if c.value > acc.1 then Ok((m - 1, c.value))
        else Ok(acc)
  }

  /** What the scan computes: it fails exactly when some candidate's score
      fails, and otherwise picks by the argmax rule, carrying the picked
      score (or -1) as max_cos. */
  lemma {:induction false} ScanUpToMeaning(ps: seq<Point>, turn: Turn, a: Point, b: Point, avoid: seq<int>, m: nat)
    requires m <= |ps|
    ensures ScanUpTo(ps, turn, a, b, avoid, m).Ok? <==> DefinedBelow(ps, turn, a, b, avoid, m)
    ensures ScanUpTo(ps, turn, a, b, avoid, m).Ok? ==>
      && SelectsBelow(ps, turn, a, b, avoid, m, ScanUpTo(ps, turn, a, b, avoid, m).value.0)
      && ScanUpTo(ps, turn, a, b, avoid, m).value.1 ==
           (if ScanUpTo(ps, turn, a, b, avoid, m).value.0 == -1 then -1.0
            else CosAt(ps, turn, a, b, ScanUpTo(ps, turn, a, b, avoid, m).value.0))
    decreases m
  {
    if m > 0 {
      ScanUpToMeaning(ps, turn, a, b, avoid, m - 1);
      var prev := ScanUpTo(ps, turn, a, b, avoid, m - 1);
      var j := m - 1;
      if prev.Err? {
        var i :| 0 <= i < m - 1 && Candidate(ps, avoid, i) && turn(a, b, ps[i]) == Err(prev.error);
        assert !DefinedBelow(ps, turn, a, b, avoid, m);
      } else if j in avoid {
        assert DefinedBelow(ps, turn, a, b, avoid, m) <==> DefinedBelow(ps, turn, a, b, avoid, m - 1);
      } else if turn(a, b, ps[j]).Err? {
        assert !DefinedBelow(ps, turn, a, b, avoid, m);
      }
    }
  }

  /** Once the scan has failed, later candidates do not change the outcome. */
  lemma {:induction false} ScanFailurePersists(ps: seq<Point>, turn: Turn, a: Point, b: Point, avoid: seq<int>, m: nat, n: nat)
    requires m <= n <= |ps| && ScanUpTo(ps, turn, a, b, avoid, m).Err?
    ensures ScanUpTo(ps, turn, a, b, avoid, n) == ScanUpTo(ps, turn, a, b, avoid, m)
    decreases n - m
  {
    if m < n {
      ScanFailurePersists(ps, turn, a, b, avoid, m, n - 1);
    }
  }

  /** The pick of a whole scan. */
  function ScanResult(ps: seq<Point>, turn: Turn, a: Point, b: Point, avoid: seq<int>): Result<int> {
    var acc :- ScanUpTo(ps, turn, a, b, avoid, |ps|);
    Ok(acc.0)
  }

  ghost predicate AllDefined(ps: seq<Point>, turn: Turn, a: Point, b: Point, avoid: seq<int>) {
    DefinedBelow(ps, turn, a, b, avoid, |ps|)
  }

  ghost predicate Selects(ps: seq<Point>, turn: Turn, a: Point, b: Point, avoid: seq<int>, best: int)
    requires AllDefined(ps, turn, a, b, avoid)
  {
    SelectsBelow(ps, turn, a, b, avoid, |ps|, best)
  }

  /** One scan: the argmax of the turn score over the points not in avoid,
      starting from best = -1 and max_cos = -1, keeping the first of equal
      maxima. It fails exactly when some candidate's score fails. */
  method Scan(ps: seq<Point>, turn: Turn, a: Point, b: Point, avoid: seq<int>) returns (r: Result<int>)
    ensures r == ScanResult(ps, turn, a, b, avoid)
    ensures r.Ok? <==> AllDefined(ps, turn, a, b, avoid)
    ensures r.Ok? ==> Selects(ps, turn, a, b, avoid, r.value)
  {
    var best, maxCos := -1, -1.0;
    for j := 0 to |ps|
      invariant ScanUpTo(ps, turn, a, b, avoid, j) == Ok((best, maxCos))
    {
      if j in avoid {
        continue;
      }
      var c := turn(a, b, ps[j]);
      if c.Err? {
        ScanFailurePersists(ps, turn, a, b, avoid, j + 1, |ps|);
        ScanUpToMeaning(ps, turn, a, b, avoid, |ps|);
        return Err(c.error);
      }
      if c.value > maxCos {
        maxCos := c.value;
        best := j;
      }
    }
    ScanUpToMeaning(ps, turn, a, b, avoid, |ps|);
    return Ok(best);
  }

  /** What the scan after hull prefix h picks: the sentinel -1 or a point
      other than the last two hull entries; a failure is the failing score
      of such a point. */
  function Next(ps: seq<Point>, turn: Turn, h: seq<int>): (r: Result<int>)
    requires Indexes(ps, h)
    ensures r.Ok? ==> r.value == -1 || Candidate(ps, Avoid(h), r.value)
    ensures r.Err? ==> exists j :: Candidate(ps, Avoid(h), j) && turn(EdgeFrom(ps, h), EdgeTo(ps, h), ps[j]) == Err(r.error)
  {
    ScanResult(ps, turn, EdgeFrom(ps, h), EdgeTo(ps, h), Avoid(h))
  }

  /** A step of the walk: from a hull prefix to what the next scan picks. */
  type StepFn = seq<int> --> Result<int>

  /** The walk's step over the points ps with the measure turn. */
  function StepOf(ps: seq<Point>, turn: Turn): StepFn {
    h requires Indexes(ps, h) => Next(ps, turn, h)
  }

  /** Applying the walk's step is taking the next scan; its pick is the
      sentinel -1 or an index of ps that the scan does not skip. */
  lemma StepIsNext(ps: seq<Point>, turn: Turn, h: seq<int>)
    requires Indexes(ps, h)
    ensures StepOf(ps, turn).requires(h) && StepOf(ps, turn)(h) == Next(ps, turn, h)
    ensures Next(ps, turn, h).Ok? ==>
      Next(ps, turn, h).value == -1 || Candidate(ps, Avoid(h), Next(ps, turn, h).value)
  {
  }

  /** h is the hull list after |h| - 1 steps: it starts at index 0, and each
      later entry is what the step after the entries before it picked, never
      the start (picking the start ends the walk instead). */
  ghost predicate ValidTrace(step: StepFn, h: seq<int>)
    decreases |h|
  {
    && |h| >= 1
    && if |h| == 1 then h[0] == 0
       else
         var g := h[..|h| - 1];
         ValidTrace(step, g) && h[|h| - 1] != 0 && step.requires(g) && step(g) == Ok(h[|h| - 1])
  }

  /** The walk closes after h: the next step picks the start again. */
  ghost predicate Closes(step: StepFn, h: seq<int>) {
    ValidTrace(step, h) && step.requires(h) && step(h) == Ok(h[0])
  }

  /** Appending what the step picks, when that is not the start, extends a trace. */
  lemma TraceExtend(step: StepFn, h: seq<int>, next: int)
    requires ValidTrace(step, h) && step.requires(h) && step(h) == Ok(next) && next != 0
    ensures ValidTrace(step, h + [next])
  {
    assert (h + [next])[..|h|] == h;
  }

  /** Every non-empty prefix of a trace is a trace. */
  lemma {:induction false} TracePrefix(step: StepFn, h: seq<int>, m: int)
    requires ValidTrace(step, h) && 1 <= m <= |h|
    ensures ValidTrace(step, h[..m])
    decreases |h|
  {
    if m < |h| {
      var g := h[..|h| - 1];
      TracePrefix(step, g, m);
      assert g[..m] == h[..m];
    } else {
      assert h[..m] == h;
    }
  }

  /** A trace read entry by entry: it starts at 0, and every later entry is
      not 0 and is what the step after the entries before it picked. */
  lemma {:induction false} TraceEntries(step: StepFn, h: seq<int>)
    requires ValidTrace(step, h)
    ensures h[0] == 0
    ensures forall k :: 1 <= k < |h| ==> h[k] != 0 && step.requires(h[..k]) && step(h[..k]) == Ok(h[k])
    decreases |h|
  {
    if |h| > 1 {
      var g := h[..|h| - 1];
      TraceEntries(step, g);
      forall k | 1 <= k < |h|
        ensures h[k] != 0 && step.requires(h[..k]) && step(h[..k]) == Ok(h[k])
      {
        if k < |h| - 1 {
          assert g[..k] == h[..k];
        }
      }
    }
  }

  /** One entry of a trace: the start is 0, and entry k is not 0 and is
      what the step after the first k entries picked. */
  lemma TraceEntry(step: StepFn, h: seq<int>, k: int)
    requires ValidTrace(step, h) && 1 <= k < |h|
    ensures h[0] == 0 && h[k] != 0 && step.requires(h[..k]) && step(h[..k]) == Ok(h[k])
  {
    TraceEntries(step, h);
  }

  /** The walk is deterministic: of two traces, the shorter is a prefix of the longer. */
  lemma {:induction false} TraceDeterministic(step: StepFn, h1: seq<int>, h2: seq<int>)
    requires ValidTrace(step, h1) && ValidTrace(step, h2) && |h1| <= |h2|
    ensures h1 == h2[..|h1|]
    decreases |h1|
  {
    if |h1| == 1 {
      TraceEntries(step, h2);
    } else {
      var m := |h1| - 1;
      TracePrefix(step, h2, |h1|);
      var g2 := h2[..|h1|];
      assert g2[..m] == h2[..m];
      TraceDeterministic(step, h1[..m], h2);
      assert h1 == h1[..m] + [h1[m]];
      assert g2 == g2[..m] + [g2[m]];
    }
  }

  /** A closed walk bounds every trace: each trace is a prefix of it whose
      next step is defined and succeeds. */
  lemma ClosedBoundsTraces(step: StepFn, h: seq<int>, g: seq<int>)
    requires Closes(step, h) && ValidTrace(step, g)
    ensures |g| <= |h| && g == h[..|g|]
    ensures step.requires(g) && step(g).Ok?
  {
    TraceEntries(step, h);
    TraceEntries(step, g);
    if |g| > |h| {
      TraceDeterministic(step, h, g);
      assert false;
    }
    TraceDeterministic(step, g, h);
    if |g| == |h| {
      assert g == h;
    }
  }

  /** There is at most one closed walk. */
  lemma ClosedHullUnique(step: StepFn, h1: seq<int>, h2: seq<int>)
    requires Closes(step, h1) && Closes(step, h2)
    ensures h1 == h2
  {
    ClosedBoundsTraces(step, h1, h2);
    ClosedBoundsTraces(step, h2, h1);
  }

  /** h is the closed walk over the points ps with the measure turn. */
  ghost predicate ClosedHull(ps: seq<Point>, turn: Turn, h: seq<int>) {
    Indexes(ps, h) && Closes(StepOf(ps, turn), h)
  }

  /** The measure can fail only by dividing by zero. */
  ghost predicate FailsOnlyByZeroDivision(turn: Turn) {
    forall a, b, p :: turn(a, b, p).Err? ==> turn(a, b, p).error == ZeroDivision
  }

  /** The number of scans the walk makes before it gives up. */
  function ScanBound(n: nat): nat {
    (n + 1) * (n + 1) + 1
  }

  /** A walk whose next scan fails has no closed continuation. */
  lemma FailedScanRulesOutClosing(ps: seq<Point>, turn: Turn, hull: seq<int>)
    requires ValidTrace(StepOf(ps, turn), hull) && Indexes(ps, hull) && Next(ps, turn, hull).Err?
    ensures forall h :: !ClosedHull(ps, turn, h)
  {
    StepIsNext(ps, turn, hull);
    forall h | ClosedHull(ps, turn, h)
      ensures false
    {
      ClosedBoundsTraces(StepOf(ps, turn), h, hull);
    }
  }

  /** A walk whose next scan picks the start is the closed walk. */
  lemma PickedStartCloses(ps: seq<Point>, turn: Turn, hull: seq<int>)
    requires ValidTrace(StepOf(ps, turn), hull) && Indexes(ps, hull) && Next(ps, turn, hull) == Ok(0)
    ensures ClosedHull(ps, turn, hull)
    ensures hull[0] == 0 && forall k :: 1 <= k < |hull| ==> hull[k] != 0
    ensures forall h :: ClosedHull(ps, turn, h) ==> h == hull
  {
    StepIsNext(ps, turn, hull);
    TraceEntries(StepOf(ps, turn), hull);
    forall h | ClosedHull(ps, turn, h)
      ensures h == hull
    {
      ClosedHullUnique(StepOf(ps, turn), h, hull);
    }
  }

  /** A trace longer than a closed walk cannot exist. */
  lemma LongTraceRulesOutClosing(ps: seq<Point>, turn: Turn, hull: seq<int>)
    requires ValidTrace(StepOf(ps, turn), hull)
    ensures forall h :: ClosedHull(ps, turn, h) ==> |hull| <= |h|
  {
    forall h | ClosedHull(ps, turn, h)
      ensures |hull| <= |h|
    {
      ClosedBoundsTraces(StepOf(ps, turn), h, hull);
    }
  }

  /** The step after a trace, when it picks an index other than the start,
      extends the trace within the index range. */
  lemma PickExtends(ps: seq<Point>, turn: Turn, hull: seq<int>, next: int)
    requires ValidTrace(StepOf(ps, turn), hull) && Indexes(ps, hull)
    requires Next(ps, turn, hull) == Ok(next) && next != 0
    ensures ValidTrace(StepOf(ps, turn), hull + [next]) && Indexes(ps, hull + [next])
  {
    StepIsNext(ps, turn, hull);
    TraceExtend(StepOf(ps, turn), hull, next);
  }

  /** The main loop over hull indices, with the scan count bounded. The
      result is the one closed walk whenever that closes within the bound;
      otherwise the failing scan or the over-long trace is exhibited. */
  method Walk(ps: seq<Point>, turn: Turn) returns (r: Result<seq<int>>)
    requires FailsOnlyByZeroDivision(turn)
    ensures r == Err(EmptyInput) <==> |ps| == 0
    ensures r.Ok? ==> ClosedHull(ps, turn, r.value) && |r.value| <= ScanBound(|ps|)
    ensures r.Ok? ==> r.value[0] == 0 && forall k :: 1 <= k < |r.value| ==> r.value[k] != 0
    ensures r == Err(ZeroDivision) ==> exists h :: ValidTrace(StepOf(ps, turn), h) && Indexes(ps, h) && Next(ps, turn, h).Err?
    ensures r == Err(NotClosed) ==> exists h :: ValidTrace(StepOf(ps, turn), h) && |h| == ScanBound(|ps|) + 1
    ensures forall h :: ClosedHull(ps, turn, h) && |h| <= ScanBound(|ps|) ==> r == Ok(h)
  {
    if |ps| == 0 {
      return Err(EmptyInput);
    }
    var hull := [0];
    var scans := 0;
    while scans < ScanBound(|ps|) && !(|hull| > 1 && hull[0] == hull[|hull| - 1])
      invariant ValidTrace(StepOf(ps, turn), hull) && Indexes(ps, hull)
      invariant |hull| == scans + 1 <= ScanBound(|ps|) + 1
      invariant hull[0] == 0 && forall k :: 1 <= k < |hull| ==> hull[k] != 0
    {
      var a := At(ps, hull[|hull| - 1]);
      var b := Sub(a, Point(0.0, 1.0));
      var avoid := [hull[|hull| - 1]];
      if |hull| > 1 {
        a := At(ps, hull[|hull| - 2]);
        b := At(ps, hull[|hull| - 1]);
        avoid := hull[|hull| - 2..];
      }
      var best := Scan(ps, turn, a, b, avoid);
      assert best == Next(ps, turn, hull);
      if best.Err? {
        FailedScanRulesOutClosing(ps, turn, hull);
        return Err(best.error);
      }
      if best.value == hull[0] {
        PickedStartCloses(ps, turn, hull);
        return Ok(hull);
      }
      PickExtends(ps, turn, hull, best.value);
      hull := hull + [best.value];
      scans := scans + 1;
    }
    LongTraceRulesOutClosing(ps, turn, hull);
    return Err(NotClosed);
  }

  /** The hull's points, in hull order: one input point per entry. */
  function PointsAt(ps: seq<Point>, h: seq<int>): (r: seq<Point>)
    requires forall k :: 0 <= k < |h| ==> -|ps| <= h[k] < |ps|
    ensures |r| == |h|
    ensures forall k :: 0 <= k < |h| ==> r[k] in ps
  {
    seq(|h|, k requires 0 <= k < |h| => At(ps, h[k]))
  }

  /** On two or more pairwise distinct points, a hull entry other than 0
      reads a point other than the first: -1 reads the last point. */
  lemma LaterEntriesAreNotStart(ps: seq<Point>, h: seq<int>)
    requires Indexes(ps, h) && forall k :: 1 <= k < |h| ==> h[k] != 0
    requires |ps| >= 2 && Distinct(ps)
    ensures forall q :: q in PointsAt(ps, h)[1..] ==> q != ps[0]
  {
    var pts := PointsAt(ps, h);
    forall q | q in pts[1..]
      ensures q != ps[0]
    {
      var m :| 0 <= m < |pts[1..]| && pts[1..][m] == q;
      var e := h[m + 1];
      var i := if e < 0 then |ps| - 1 else e;
      assert q == At(ps, e) == ps[i];
      assert ps[0] != ps[i];
    }
  }

  /** The points of a walk that starts at 0 and never revisits 0, with
      collinear vertices dropped: they are input points, the first is the
      first input point, and on two or more pairwise distinct points no later
      one is the first point again (the sentinel reads the last point). */
  lemma FilteredHullPoints(ps: seq<Point>, h: seq<int>)
    requires Indexes(ps, h) && h[0] == 0 && forall k :: 1 <= k < |h| ==> h[k] != 0
    ensures |DropCollinear(PointsAt(ps, h))| >= 1 && DropCollinear(PointsAt(ps, h))[0] == ps[0]
    ensures forall q :: q in DropCollinear(PointsAt(ps, h)) ==> q in ps
    ensures |ps| >= 2 && Distinct(ps) ==>
              forall k :: 1 <= k < |DropCollinear(PointsAt(ps, h))| ==> DropCollinear(PointsAt(ps, h))[k] != ps[0]
  {
    var pts := PointsAt(ps, h);
    var out := DropCollinear(pts);
    assert pts[0] == At(ps, 0) == ps[0];
    DropCollinearKeepsInputPoints(pts);
    forall q | q in out
      ensures q in ps
    {
      assert q in pts;
    }
    if |ps| >= 2 && Distinct(ps) {
      LaterEntriesAreNotStart(ps, h);
      forall k | 1 <= k < |out|
        ensures out[k] != ps[0]
      {
        assert out[k] in pts[1..];
      }
    }
  }

  /** The whole computation: sorts the caller's array in place, walks the
      hull, and returns its points with collinear vertices dropped. The
      result is the one closed walk when that closes within the scan bound,
      and starts with the leftmost, topmost input point. */
  method Jarvis(points: array<Point>, root: real -> real) returns (r: Result<seq<Point>>)
    modifies points
    ensures SortedByKey(points[..]) && multiset(points[..]) == old(multiset(points[..]))
    ensures r == Err(EmptyInput) <==> points.Length == 0
    ensures r.Ok? ==> exists h :: ClosedHull(points[..], CosTurn(root), h) && r.value == DropCollinear(PointsAt(points[..], h))
    ensures forall h :: ClosedHull(points[..], CosTurn(root), h) && |h| <= ScanBound(points.Length) ==>
              r == Ok(DropCollinear(PointsAt(points[..], h)))
    ensures r == Err(ZeroDivision) ==>
              exists h :: ValidTrace(StepOf(points[..], CosTurn(root)), h) && Indexes(points[..], h) && Next(points[..], CosTurn(root), h).Err?
    ensures r == Err(NotClosed) ==>
              exists h :: ValidTrace(StepOf(points[..], CosTurn(root)), h) && |h| == ScanBound(points.Length) + 1
    ensures r.Ok? ==> |r.value| >= 1 && forall q :: q in r.value ==> q in old(points[..])
    ensures r.Ok? && points.Length >= 2 && Distinct(old(points[..])) ==>
              forall k :: 1 <= k < |r.value| ==> r.value[k] != r.value[0]
    ensures r.Ok? ==> forall p :: p in old(points[..]) ==>
              r.value[0].x <= p.x && (r.value[0].x == p.x ==> p.y <= r.value[0].y)
  {
    SortInPlace(points);
    var ps := points[..];
    assert FailsOnlyByZeroDivision(CosTurn(root));
    var w := Walk(ps, CosTurn(root));
    if w.Err? {
      return Err(w.error);
    }
    var hull := w.value;
    var result := PointsAt(ps, hull);
    var out := DeleteCollinear(result);
    FilteredHullPoints(ps, hull);
    forall q | q in out
      ensures q in old(points[..])
    {
      assert q in multiset(ps);
    }
    if |ps| >= 2 && Distinct(old(points[..])) {
      DistinctPermutation(old(points[..]), ps);
    }
    forall p | p in old(points[..])
      ensures out[0].x <= p.x && (out[0].x == p.x ==> p.y <= out[0].y)
    {
      assert p in multiset(old(points[..]));
      SortedHeadIsLeftmostTopmost(ps, p);
    }
    return Ok(out);
  }

  /** A single point: the scan after [0] has no candidate and appends -1, the
      next skips 0 and -1, and the third compares the point with itself
      (cosine 0) and closes, so the walk is [0, -1, -1] and the answer lists
      the point twice. */
  lemma SinglePointIsListedTwice(p: Point, root: real -> real)
    ensures ClosedHull([p], CosTurn(root), [0, -1, -1]) && |[0, -1, -1]| <= ScanBound(1)
    ensures DropCollinear(PointsAt([p], [0, -1, -1])) == [p, p]
  {
    var ps := [p];
    var h := [0, -1, -1];
    var turn := CosTurn(root);
    assert h[..1] == [0] && h[..2] == [0, -1];
    assert ScanUpTo(ps, turn, p, Sub(p, Point(0.0, 1.0)), [0], 1) == Ok((-1, -1.0));
    assert ScanUpTo(ps, turn, p, p, [0, -1], 1) == Ok((-1, -1.0));
    assert turn(p, p, p) == Ok(0.0);
    assert ScanUpTo(ps, turn, p, p, [-1, -1], 1) == Ok((0, 0.0));
    assert PointsAt(ps, h) == [p, p, p];
    assert ScannedUpTo([p, p, p], 2) == [p, p];
    assert [p, p, p][..2] == [p, p];
    assert Collinear(p, p, p);
  }

  /** Two distinct points, with a square root that maps 0 to 0: whatever the
      first scan picks, the third scan measures from a zero-length edge at
      the second point, whose cosine with the start divides by zero; so no
      walk closes. */
  lemma TwoPointsNeverClose(ps: seq<Point>, root: real -> real)
    requires |ps| == 2 && ps[0] != ps[1] && root(0.0) == 0.0
    ensures forall h :: !ClosedHull(ps, CosTurn(root), h)
  {
    var turn := CosTurn(root);
    CosFailsAfterRepeatedVertex(root, ps[1], ps[0]);
    assert turn(ps[0], ps[1], ps[1]) == Ok(0.0);
    assert turn(ps[1], ps[1], ps[0]).Err?;
    forall h
      ensures !ClosedHull(ps, turn, h)
    {
      TwoPointsNoClosedHull(ps, turn, h);
    }
  }

  /** After [0, 1] no point is left to consider: the scan picks -1. */
  lemma TwoPointsAfterOne(ps: seq<Point>, turn: Turn)
    requires |ps| == 2
    ensures Next(ps, turn, [0, 1]) == Ok(-1)
  {
    var a, b := ps[0], ps[1];
    assert Avoid([0, 1]) == [0, 1];
    assert ScanUpTo(ps, turn, a, b, [0, 1], 1) == Ok((-1, -1.0));
  }

  /** After [0, -1] the edge ends at the second point, whose score with
      itself is 0, so the scan picks 1. */
  lemma TwoPointsAfterSentinel(ps: seq<Point>, turn: Turn)
    requires |ps| == 2 && turn(ps[0], ps[1], ps[1]) == Ok(0.0)
    ensures Next(ps, turn, [0, -1]) == Ok(1)
  {
    var a, b := ps[0], ps[1];
    assert EdgeFrom(ps, [0, -1]) == a && EdgeTo(ps, [0, -1]) == b;
    assert Avoid([0, -1]) == [0, -1];
    assert ScanUpTo(ps, turn, a, b, [0, -1], 1) == Ok((-1, -1.0));
  }

  /** From a zero-length edge at the second point, a failing score of the
      first point fails the scan. */
  lemma TwoPointsThirdScanFails(ps: seq<Point>, turn: Turn, g: seq<int>)
    requires |ps| == 2 && turn(ps[1], ps[1], ps[0]).Err?
    requires g == [0, 1, -1] || g == [0, -1, 1]
    ensures Next(ps, turn, g).Err?
  {
    var p1 := ps[1];
    assert EdgeFrom(ps, g) == p1 && EdgeTo(ps, g) == p1;
    assert 0 !in Avoid(g);
    assert ScanUpTo(ps, turn, p1, p1, Avoid(g), 1).Err?;
    ScanFailurePersists(ps, turn, p1, p1, Avoid(g), 1, 2);
  }

  /** With two points whose scores behave as the cosine's do (0 for a
      repeated target, a failure from a zero-length edge), a trace of three
      or more entries has exactly three, and the scan after it fails. */
  lemma TwoPointsLongTrace(ps: seq<Point>, turn: Turn, h: seq<int>)
    requires |ps| == 2 && turn(ps[0], ps[1], ps[1]) == Ok(0.0) && turn(ps[1], ps[1], ps[0]).Err?
    requires ValidTrace(StepOf(ps, turn), h) && Indexes(ps, h) && |h| >= 3
    ensures |h| == 3 && Next(ps, turn, h).Err?
  {
    var g := h[..3];
    TwoPointsFirstThree(ps, turn, h);
    TwoPointsThirdScanFails(ps, turn, g);
    StepIsNext(ps, turn, g);
    if |h| > 3 {
      TraceEntry(StepOf(ps, turn), h, 3);
      assert false;
    }
    assert g == h;
  }

  /** With two points whose score for a repeated target is 0, every trace
      of three or more entries begins [0, 1, -1] or [0, -1, 1]. */
  lemma TwoPointsFirstThree(ps: seq<Point>, turn: Turn, h: seq<int>)
    requires |ps| == 2 && turn(ps[0], ps[1], ps[1]) == Ok(0.0)
    requires ValidTrace(StepOf(ps, turn), h) && Indexes(ps, h) && |h| >= 3
    ensures h[..3] == [0, 1, -1] || h[..3] == [0, -1, 1]
  {
    TraceEntry(StepOf(ps, turn), h, 1);
    TraceEntry(StepOf(ps, turn), h, 2);
    var first, second := h[1], h[2];
    assert h[..1] == [0];
    StepIsNext(ps, turn, [0]);
    assert first == 1 || first == -1;
    assert h[..2] == [0, first];
    StepIsNext(ps, turn, [0, first]);
    TwoPointsSecondScan(ps, turn, first, second);
    assert h[..3] == [0, first, second];
  }

  /** With two points, the second scan picks the other of 1 and -1. */
  lemma TwoPointsSecondScan(ps: seq<Point>, turn: Turn, first: int, second: int)
    requires |ps| == 2 && turn(ps[0], ps[1], ps[1]) == Ok(0.0)
    requires (first == 1 || first == -1) && Next(ps, turn, [0, first]) == Ok(second)
    ensures second == -first
  {
    if first == 1 {
      TwoPointsAfterOne(ps, turn);
    } else {
      TwoPointsAfterSentinel(ps, turn);
    }
  }

  /** Such two points have no closed walk. */
  lemma TwoPointsNoClosedHull(ps: seq<Point>, turn: Turn, h: seq<int>)
    requires |ps| == 2 && turn(ps[0], ps[1], ps[1]) == Ok(0.0) && turn(ps[1], ps[1], ps[0]).Err?
    ensures !ClosedHull(ps, turn, h)
  {
    if ClosedHull(ps, turn, h) {
      StepIsNext(ps, turn, h);
      if |h| >= 3 {
        TwoPointsLongTrace(ps, turn, h);
      } else {
        TraceEntries(StepOf(ps, turn), h);
      }
    }
  }
}
