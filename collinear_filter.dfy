/** Removal of collinear vertices from a hull: one left-to-right pass that
    keeps a stack of retained points and replaces the top of the stack
    whenever it is collinear with the point below it and the next point. */
module CollinearFilter {
  import opened Geometry

  /** One step of the pass: push p, first popping the top when the top two
      stack points and p are collinear. */
  function Push(stack: seq<Point>, p: Point): (r: seq<Point>)
    ensures |r| >= 1 && r[|r| - 1] == p
    ensures |r| == |stack| <==> |stack| >= 2 && Collinear(stack[|stack| - 2], stack[|stack| - 1], p)
    ensures |r| != |stack| ==> |r| == |stack| + 1
  {
    if |stack| < 2 then stack + [p]
    else if Collinear(stack[|stack| - 2], stack[|stack| - 1], p) then stack[..|stack| - 1] + [p]
    else stack + [p]
  }

  /** The stack once the pass has consumed the first n points of s. It keeps
      the first and the n-th point, never holds more than n points, and holds
      two as soon as n is two. */
  function ScannedUpTo(s: seq<Point>, n: nat): (r: seq<Point>)
    requires 1 <= n <= |s|
    ensures 1 <= |r| <= n
    ensures n >= 2 ==> |r| >= 2
    ensures r[0] == s[0] && r[|r| - 1] == s[n - 1]
  {
    if n == 1 then [s[0]] else Push(ScannedUpTo(s, n - 1), s[n - 1])
  }

  /** The filter: inputs of fewer than three points pass through unchanged;
      longer ones keep both end points and between two and all of the points. */
  function DropCollinear(s: seq<Point>): (r: seq<Point>)
    ensures |s| < 3 ==> r == s
    ensures |s| >= 3 ==> 2 <= |r| <= |s| && r[0] == s[0] && r[|r| - 1] == s[|s| - 1]
  {
    if |s| < 3 then s else ScannedUpTo(s, |s|)
  }

  /** The stack pass as jarvis.py runs it, over a growing stack. */
  method DeleteCollinear(points: seq<Point>) returns (r: seq<Point>)
    ensures r == DropCollinear(points)
  {
    if |points| < 3 {
      return points;
    }
    var stack := [points[0]];
    for i := 1 to |points|
      invariant stack == ScannedUpTo(points, i)
    {
      var point := points[i];
      ghost var before := stack;
      assert ScannedUpTo(points, i + 1) == Push(before, point);
      if |stack| < 2 {
        PushAppends(before, point);
        stack := stack + [point];
        continue;
      }
      if Collinear(stack[|stack| - 2], stack[|stack| - 1], point) {
        PushReplacesTop(before, point);
        stack := stack[..|stack| - 1];
      } else {
        PushAppends(before, point);
      }
      stack := stack + [point];
    }
    return stack;
  }

  /** idx lists, in strictly increasing order, positions of s holding the elements of r. */
  ghost predicate SubsequenceAt(r: seq<Point>, s: seq<Point>, idx: seq<int>) {
    && |idx| == |r|
    && (forall k :: 0 <= k < |idx| ==> 0 <= idx[k] < |s| && r[k] == s[idx[k]])
    && (forall k :: 0 < k < |idx| ==> idx[k - 1] < idx[k])
  }

  ghost predicate IsSubsequence(r: seq<Point>, s: seq<Point>) {
    exists idx :: SubsequenceAt(r, s, idx)
  }

  /** A push leaves the stack below the top untouched: it pops at most the
      top point, then puts p on top. */
  lemma PushKeepsBottom(stack: seq<Point>, p: Point)
    ensures |stack| - 1 <= |Push(stack, p)| - 1 <= |stack|
    ensures Push(stack, p)[..|Push(stack, p)| - 1] == stack[..|Push(stack, p)| - 1]
    ensures Push(stack, p)[|Push(stack, p)| - 1] == p
  {
  }

  /** A push onto two or more points collinear with p replaces the top by p. */
  lemma PushReplacesTop(stack: seq<Point>, p: Point)
    requires |stack| >= 2 && Collinear(stack[|stack| - 2], stack[|stack| - 1], p)
    ensures Push(stack, p) == stack[..|stack| - 1] + [p]
  {
  }

  /** Pushing a point that makes no collinear triple with the top two just appends it. */
  lemma PushAppends(stack: seq<Point>, p: Point)
    requires |stack| >= 2 ==> !Collinear(stack[|stack| - 2], stack[|stack| - 1], p)
    ensures Push(stack, p) == stack + [p]
  {
  }

  /** One push keeps the stack a subsequence of s when the pushed point sits
      at a position m after all the kept ones; m becomes the last position. */
  lemma PushKeepsSubsequence(st: seq<Point>, s: seq<Point>, prev: seq<int>, m: int, next: seq<Point>)
    returns (idx: seq<int>)
    requires SubsequenceAt(st, s, prev) && |prev| >= 1 && prev[|prev| - 1] < m < |s|
    requires next == Push(st, s[m])
    ensures SubsequenceAt(next, s, idx) && idx[|idx| - 1] == m
  {
    if |st| >= 2 && Collinear(st[|st| - 2], st[|st| - 1], s[m]) {
      idx := prev[..|prev| - 1] + [m];
    } else {
      idx := prev + [m];
    }
  }

  /** The positions of s that the stack keeps, in increasing order; the last
      one is the latest point consumed. */
  lemma {:induction false} ScannedPositions(s: seq<Point>, n: nat) returns (idx: seq<int>)
    requires 1 <= n <= |s|
    ensures SubsequenceAt(ScannedUpTo(s, n), s, idx)
    ensures idx[|idx| - 1] == n - 1
  {
    if n == 1 {
      idx := [0];
    } else {
      var prev := ScannedPositions(s, n - 1);
      idx := PushKeepsSubsequence(ScannedUpTo(s, n - 1), s, prev, n - 1, ScannedUpTo(s, n));
    }
  }

  /** The filter only deletes points: its output is a subsequence of its input. */
  lemma DropCollinearIsSubsequence(s: seq<Point>)
    ensures IsSubsequence(DropCollinear(s), s)
  {
    if |s| < 3 {
      var idx := seq(|s|, k => k);
      assert SubsequenceAt(s, s, idx);
    } else {
      var idx := ScannedPositions(s, |s|);
    }
  }

  /** The filter keeps only points of its input, and every point after the
      first comes from the input after its first point. */
  lemma DropCollinearKeepsInputPoints(s: seq<Point>)
    ensures forall k :: 0 <= k < |DropCollinear(s)| ==> DropCollinear(s)[k] in s
    ensures forall k :: 1 <= k < |DropCollinear(s)| ==> DropCollinear(s)[k] in s[1..]
  {
    var r := DropCollinear(s);
    var idx := seq(|s|, k => k);
    if |s| >= 3 {
      idx := ScannedPositions(s, |s|);
    }
    assert SubsequenceAt(r, s, idx);
    forall k | 0 <= k < |r|
      ensures r[k] in s && (k >= 1 ==> r[k] in s[1..])
    {
      if k >= 1 {
        assert idx[k - 1] < idx[k];
        assert r[k] == s[1..][idx[k] - 1];
      }
    }
  }

  ghost predicate Distinct(s: seq<Point>) {
    forall i, j :: 0 <= i < j < |s| ==> s[i] != s[j]
  }

  /** In a list of pairwise distinct points, each point occurs at most once. */
  lemma {:induction false} DistinctCountsOnce(s: seq<Point>, p: Point)
    requires Distinct(s)
    ensures multiset(s)[p] <= 1
    decreases |s|
  {
    if |s| > 0 {
      var u := s[..|s| - 1];
      assert Distinct(u);
      DistinctCountsOnce(u, p);
      assert s == u + [s[|s| - 1]];
      if s[|s| - 1] == p {
        assert p !in u;
      }
    }
  }

  /** A point found at two positions occurs at least twice. */
  lemma RepeatCountsTwice(s: seq<Point>, i: int, j: int)
    requires 0 <= i < j < |s| && s[i] == s[j]
    ensures multiset(s)[s[i]] >= 2
  {
    assert s == s[..j] + [s[j]] + s[j + 1..];
    assert s[..j][i] == s[i];
  }

  /** Distinctness depends only on which points occur, not on their order. */
  lemma DistinctPermutation(s: seq<Point>, t: seq<Point>)
    requires Distinct(s) && multiset(s) == multiset(t)
    ensures Distinct(t)
  {
    forall i, j | 0 <= i < j < |t|
      ensures t[i] != t[j]
    {
      DistinctCountsOnce(s, t[i]);
      if t[i] == t[j] {
        RepeatCountsTwice(t, i, j);
        assert false;
      }
    }
  }

  /** No three consecutive points are collinear. */
  ghost predicate NoCollinearRun(s: seq<Point>) {
    forall i :: 0 <= i < |s| - 2 ==> !Collinear(s[i], s[i + 1], s[i + 2])
  }

  lemma NoCollinearRunPrefix(s: seq<Point>, n: nat)
    requires n <= |s| && NoCollinearRun(s)
    ensures NoCollinearRun(s[..n])
  {
    var t := s[..n];
    forall i | 0 <= i < |t| - 2
      ensures !Collinear(t[i], t[i + 1], t[i + 2])
    {
      assert t[i] == s[i] && t[i + 1] == s[i + 1] && t[i + 2] == s[i + 2];
    }
  }

  /** Appending a point that makes no collinear triple with the last two
      keeps a list free of collinear runs. */
  lemma AppendKeepsNoCollinearRun(u: seq<Point>, p: Point)
    requires NoCollinearRun(u)
    requires |u| >= 2 ==> !Collinear(u[|u| - 2], u[|u| - 1], p)
    ensures NoCollinearRun(u + [p])
  {
    var r := u + [p];
    forall i | 0 <= i < |r| - 2
      ensures !Collinear(r[i], r[i + 1], r[i + 2])
    {
      if i < |r| - 3 {
        assert r[i] == u[i] && r[i + 1] == u[i + 1] && r[i + 2] == u[i + 2];
      }
    }
  }

  /** Replacing the top y of a run-free stack [.., w, x, y] by a point p on
      the line through x and y leaves no collinear run. */
  lemma ReplaceTopKeepsNoCollinearRun(st: seq<Point>, p: Point)
    requires |st| >= 2 && NoCollinearRun(st)
    requires Collinear(st[|st| - 2], st[|st| - 1], p) && st[|st| - 2] != p
    ensures NoCollinearRun(st[..|st| - 1] + [p])
  {
    var u := st[..|st| - 1];
    NoCollinearRunPrefix(st, |st| - 1);
    if |u| >= 2 {
      var w, x, y := st[|st| - 3], st[|st| - 2], st[|st| - 1];
      SlopeTransitive(x, y, p);
      assert !Collinear(st[|st| - 3], st[|st| - 2], st[|st| - 1]);
      assert u[|u| - 2] == w && u[|u| - 1] == x;
    }
    AppendKeepsNoCollinearRun(u, p);
  }

  /** One push keeps a stack free of collinear runs, provided the point
      below the top is not the pushed point itself. */
  lemma PushKeepsNoCollinearRun(st: seq<Point>, p: Point, next: seq<Point>)
    requires NoCollinearRun(st) && next == Push(st, p)
    requires |st| >= 2 ==> st[|st| - 2] != p
    ensures NoCollinearRun(next)
  {
    if |st| >= 2 && Collinear(st[|st| - 2], st[|st| - 1], p) {
      ReplaceTopKeepsNoCollinearRun(st, p);
    } else {
      AppendKeepsNoCollinearRun(st, p);
    }
  }

  lemma {:induction false} ScannedHasNoCollinearRun(s: seq<Point>, n: nat)
    requires 1 <= n <= |s| && Distinct(s)
    ensures NoCollinearRun(ScannedUpTo(s, n))
  {
    if n > 1 {
      ScannedHasNoCollinearRun(s, n - 1);
      var st := ScannedUpTo(s, n - 1);
      if |st| >= 2 {
        var idx := ScannedPositions(s, n - 1);
        assert idx[|st| - 2] < idx[|st| - 1];
        assert st[|st| - 2] == s[idx[|st| - 2]];
      }
      PushKeepsNoCollinearRun(st, s[n - 1], ScannedUpTo(s, n));
    }
  }

  /** On points that are pairwise distinct, the output has no three
      consecutive collinear points (the wrap-around triple is not examined). */
  lemma DropCollinearLeavesNoCollinearRun(s: seq<Point>)
    requires Distinct(s)
    ensures NoCollinearRun(DropCollinear(s))
  {
    if |s| >= 3 {
      ScannedHasNoCollinearRun(s, |s|);
    }
  }

  lemma RunFreeAt(s: seq<Point>, i: int)
    requires NoCollinearRun(s) && 0 <= i < |s| - 2
    ensures !Collinear(s[i], s[i + 1], s[i + 2])
  {
  }

  lemma {:induction false} ScannedKeepsRunFreeInput(s: seq<Point>, n: nat)
    requires 1 <= n <= |s| && NoCollinearRun(s)
    ensures ScannedUpTo(s, n) == s[..n]
  {
    if n > 1 {
      ScannedKeepsRunFreeInput(s, n - 1);
      var u := s[..n - 1];
      if n >= 3 {
        RunFreeAt(s, n - 3);
        assert u[|u| - 2] == s[n - 3] && u[|u| - 1] == s[n - 2];
      }
      PushAppends(u, s[n - 1]);
      assert ScannedUpTo(s, n) == Push(u, s[n - 1]);
      assert u + [s[n - 1]] == s[..n];
    }
  }

  /** A list without three consecutive collinear points comes back unchanged. */
  lemma DropCollinearKeepsRunFreeInput(s: seq<Point>)
    requires NoCollinearRun(s)
    ensures DropCollinear(s) == s
  {
    if |s| >= 3 {
      ScannedKeepsRunFreeInput(s, |s|);
      assert s[..|s|] == s;
    }
  }

  /** Filtering twice is filtering once, for pairwise distinct points. */
  lemma DropCollinearIdempotent(s: seq<Point>)
    requires Distinct(s)
    ensures DropCollinear(DropCollinear(s)) == DropCollinear(s)
  {
    DropCollinearLeavesNoCollinearRun(s);
    DropCollinearKeepsRunFreeInput(DropCollinear(s));
  }

  /** The documented example: if a, b, c, d lie in that order along one line
      and e is off it, [a, b, c, d, e] becomes [a, d, e]. */
  lemma DocExample(a: Point, b: Point, c: Point, d: Point, e: Point)
    requires a != b && a != c && a != d && b != c && b != d && c != d
    requires Collinear(a, b, c) && Collinear(b, c, d)
    requires !Collinear(c, d, e)
    ensures DropCollinear([a, b, c, d, e]) == [a, d, e]
  {
    var s := [a, b, c, d, e];
    assert ScannedUpTo(s, 2) == [a, b];
    assert ScannedUpTo(s, 3) == [a, c];
    SlopeTransitive(a, b, c);
    assert Collinear(a, c, d);
    assert ScannedUpTo(s, 4) == [a, d];
    SlopeTransitive(a, c, d);
    assert !Collinear(a, d, e);
    assert ScannedUpTo(s, 5) == [a, d, e];
  }

  /** The example on the x-axis: (0,0), (1,0), (2,0), (3,0), then (3,1). */
  lemma DocExampleOnAxis()
    ensures DropCollinear([Point(0.0, 0.0), Point(1.0, 0.0), Point(2.0, 0.0), Point(3.0, 0.0), Point(3.0, 1.0)])
         == [Point(0.0, 0.0), Point(3.0, 0.0), Point(3.0, 1.0)]
  {
    DocExample(Point(0.0, 0.0), Point(1.0, 0.0), Point(2.0, 0.0), Point(3.0, 0.0), Point(3.0, 1.0));
  }
}
