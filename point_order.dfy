/** The order in which the hull walk lists its points: left to right, and
    top to bottom among points with the same x (sort key (x, -y)). */
module PointOrder {
  import opened Geometry

  /** The sort key of a point: the pair (x, -y). */
  function SortKey(p: Point): (real, real) {
    (p.x, -p.y)
  }

  /** Lexicographic order on pairs, as Python compares tuples. */
  predicate PairLe(a: (real, real), b: (real, real)) {
    a.0 < b.0 || (a.0 == b.0 && a.1 <= b.1)
  }

  /** p comes no later than q under the key: q is right of p, or on the
      same vertical line and not above it. */
  predicate KeyLe(p: Point, q: Point): (b: bool)
    ensures b <==> p.x < q.x || (p.x == q.x && q.y <= p.y)
  {
    PairLe(SortKey(p), SortKey(q))
  }

  /** The key is a total order and determines the point: two points that
      each come no later than the other are equal. */
  lemma KeyLeTotalOrder(p: Point, q: Point, r: Point)
    ensures KeyLe(p, p)
    ensures KeyLe(p, q) || KeyLe(q, p)
    ensures KeyLe(p, q) && KeyLe(q, p) ==> p == q
    ensures KeyLe(p, q) && KeyLe(q, r) ==> KeyLe(p, r)
  {
  }

  ghost predicate SortedByKey(s: seq<Point>) {
    forall i, j :: 0 <= i < j < |s| ==> KeyLe(s[i], s[j])
  }

  /** A sorted list starts with its leftmost point, the topmost one among
      the leftmost. */
  lemma SortedHeadIsLeftmostTopmost(s: seq<Point>, p: Point)
    requires SortedByKey(s) && p in s
    ensures s[0].x <= p.x
    ensures s[0].x == p.x ==> p.y <= s[0].y
  {
    var j :| 0 <= j < |s| && s[j] == p;
    if j > 0 {
      assert KeyLe(s[0], s[j]);
    }
  }

  /** Dropping the head of a sorted list leaves a sorted list holding the
      other points. */
  lemma SortedTail(s: seq<Point>)
    requires |s| >= 1 && SortedByKey(s)
    ensures SortedByKey(s[1..])
    ensures multiset(s[1..]) == multiset(s) - multiset{s[0]}
  {
    assert s == [s[0]] + s[1..];
  }

  /** Two sorted lists holding the same points start with the same point. */
  lemma SortedSameHead(s: seq<Point>, t: seq<Point>)
    requires SortedByKey(s) && SortedByKey(t) && |s| >= 1
    requires multiset(s) == multiset(t)
    ensures |t| >= 1 && s[0] == t[0]
  {
    assert s[0] in multiset(t);
    assert t[0] in multiset(s);
    SortedHeadIsLeftmostTopmost(t, s[0]);
    SortedHeadIsLeftmostTopmost(s, t[0]);
  }

  /** Since the key determines the point, there is only one sorted
      arrangement of a given multiset of points: every correct sort,
      stable or not, produces the same list. */
  lemma {:induction false} SortedUnique(s: seq<Point>, t: seq<Point>)
    requires SortedByKey(s) && SortedByKey(t)
    requires multiset(s) == multiset(t)
    ensures s == t
    decreases |s|
  {
    if s == [] {
      assert |t| == |multiset(t)| == 0;
    } else {
      SortedSameHead(s, t);
      SortedTail(s);
      SortedTail(t);
      SortedUnique(s[1..], t[1..]);
      assert s == [s[0]] + s[1..] && t == [t[0]] + t[1..];
    }
  }

  method Swap(a: array<Point>, i: int, j: int)
    requires 0 <= i < a.Length && 0 <= j < a.Length
    modifies a
    ensures a[i] == old(a[j]) && a[j] == old(a[i])
    ensures forall k :: 0 <= k < a.Length && k != i && k != j ==> a[k] == old(a[k])
    ensures multiset(a[..]) == old(multiset(a[..]))
  {
    a[i], a[j] := a[j], a[i];
  }

  /** Sorts the points in place by the key (x, -y) (an insertion sort). */
  method SortInPlace(a: array<Point>)
    modifies a
    ensures SortedByKey(a[..])
    ensures multiset(a[..]) == old(multiset(a[..]))
  {
    if a.Length == 0 {
      return;
    }
    for i := 1 to a.Length
      invariant SortedByKey(a[..i])
      invariant multiset(a[..]) == old(multiset(a[..]))
    {
      var j := i;
      while j > 0 && !KeyLe(a[j - 1], a[j])
        invariant 0 <= j <= i
        invariant forall p, q :: 0 <= p < q <= i && p != j && q != j ==> KeyLe(a[p], a[q])
        invariant forall q :: j < q <= i ==> KeyLe(a[j], a[q])
        invariant multiset(a[..]) == old(multiset(a[..]))
      {
        Swap(a, j - 1, j);
        j := j - 1;
      }
    }
  }
}
