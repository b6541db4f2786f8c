/** Vector primitives, the turn cosine, slopes and the collinearity test.
    Coordinates are exact reals; the square root behind the Euclidean
    magnitude is a parameter `root`, since the model has none of its own. */
module Geometry {
  import opened Results

  /** A point of the plane; the difference of two points is a Point too. */
  datatype Point = Point(x: real, y: real)

  /** The zero vector. */
  const Origin := Point(0.0, 0.0)

  /** Component-wise u - v: adding v back gives u. */
  function Sub(u: Point, v: Point): (r: Point)
    ensures r.x + v.x == u.x && r.y + v.y == u.y
    ensures r == Origin <==> u == v
  {
    Point(u.x - v.x, u.y - v.y)
  }

  function Dot(u: Point, v: Point): real {
    u.x * v.x + u.y * v.y
  }

  /** Euclidean norm: `root` applied to the squared length. */
  function Mag(root: real -> real, v: Point): real {
    root(Dot(v, v))
  }

  /** Cosine of the angle between the ray v1 -> v2 and the ray v2 -> v3.
      A zero-length outgoing ray (v2 == v3) gives exactly 0, whatever v1 is;
      otherwise a zero denominator is a ZeroDivision failure. */
  function Cos(root: real -> real, v1: Point, v2: Point, v3: Point): (r: Result<real>)
    ensures v2 == v3 ==> r == Ok(0.0)
    ensures r.Err? ==> r.error == ZeroDivision && v2 != v3
  {
    if v2 == v3 then Ok(0.0)
    else
      var a := Sub(v2, v1);
      var b := Sub(v3, v2);
      var d := Mag(root, a) * Mag(root, b);
      if d == 0.0 then Err(ZeroDivision) else Ok(Dot(a, b) / d)
  }

  /** With a square root that maps 0 to 0, a zero-length incoming ray
      (v1 == v2) makes the cosine of any other v3 divide by zero. */
  lemma CosFailsAfterRepeatedVertex(root: real -> real, v: Point, w: Point)
    requires root(0.0) == 0.0 && v != w
    ensures Cos(root, v, v, w) == Err(ZeroDivision)
  {
    assert Mag(root, Sub(v, v)) == 0.0;
  }

  /** A real slope, or a signed infinity for a vertical ray. */
  datatype ExtReal = Finite(r: real) | PosInf | NegInf

  /** Slope of the ray from u to v. A vertical ray is +inf when it points up
      and -inf otherwise (also when u == v); otherwise rise over run. */
  function Slope(u: Point, v: Point): (s: ExtReal)
    ensures s == PosInf <==> u.x == v.x && u.y < v.y
    ensures s == NegInf <==> u.x == v.x && u.y >= v.y
    ensures s.Finite? <==> u.x != v.x
  {
    if u.x == v.x then
      (if u.y < v.y then PosInf else NegInf)
    else
      Finite((v.y - u.y) / (v.x - u.x))
  }

  /** A finite slope is rise over run: times the run it gives the rise. */
  lemma SlopeIsRiseOverRun(u: Point, v: Point)
    requires u.x != v.x
    ensures Slope(u, v).r * (v.x - u.x) == v.y - u.y
  {
  }

  /** True if v1, v2, v3 are collinear: the two consecutive slopes are equal.
      A vertical ray is collinear only with another vertical ray; along a
      vertical line the test asks that both rays point up, or neither. */
  predicate Collinear(v1: Point, v2: Point, v3: Point): (b: bool)
    ensures b ==> (v1.x == v2.x <==> v2.x == v3.x)
    ensures v1.x == v2.x == v3.x ==> (b <==> (v1.y < v2.y <==> v2.y < v3.y))
  {
    Slope(v1, v2) == Slope(v2, v3)
  }

  lemma NonzeroProduct(a: real, b: real)
    requires a != 0.0 && b != 0.0
    ensures a * b != 0.0
  {
  }

  lemma Distributes(m: real, a: real, b: real)
    ensures m * (a + b) == m * a + m * b
  {
  }

  lemma CancelNonzero(a: real, b: real, c: real)
    requires c != 0.0 && a * c == b * c
    ensures a == b
  {
    assert (a - b) * c == 0.0;
    if a != b {
      NonzeroProduct(a - b, c);
    }
  }

  /** z-component of the cross product of two vectors. */
  function Cross(a: Point, b: Point): real {
    a.x * b.y - a.y * b.x
  }

  /** What the slope test means geometrically: away from verticals it is the
      vanishing cross product of the two rays; on verticals the three points
      must share an x and both rays must point the same way (up, or not up). */
  lemma CollinearIffCross(v1: Point, v2: Point, v3: Point)
    ensures Collinear(v1, v2, v3) <==>
      if v1.x == v2.x || v2.x == v3.x then
        v1.x == v2.x == v3.x && (v1.y < v2.y <==> v2.y < v3.y)
      else
        Cross(Sub(v2, v1), Sub(v3, v2)) == 0.0
  {
    if v1.x != v2.x && v2.x != v3.x {
      var dx1, dy1 := v2.x - v1.x, v2.y - v1.y;
      var dx2, dy2 := v3.x - v2.x, v3.y - v2.y;
      var m1, m2 := dy1 / dx1, dy2 / dx2;
      SlopeIsRiseOverRun(v1, v2);
      SlopeIsRiseOverRun(v2, v3);
      assert m1 * dx1 == dy1 && m2 * dx2 == dy2;
      assert Cross(Sub(v2, v1), Sub(v3, v2)) == dx1 * dy2 - dy1 * dx2;
      assert dx1 * dy2 - dy1 * dx2 == dx1 * dx2 * (m2 - m1);
      NonzeroProduct(dx1, dx2);
      if m1 != m2 {
        NonzeroProduct(dx1 * dx2, m2 - m1);
      }
    }
  }

  /** Along a line, slopes chain: if v1, v2, v3 are collinear and v3 is not
      back at v1, the ray v1 -> v3 has the slope of the ray v1 -> v2. */
  lemma SlopeTransitive(v1: Point, v2: Point, v3: Point)
    requires Collinear(v1, v2, v3) && v1 != v3
    ensures Slope(v1, v3) == Slope(v1, v2)
  {
    if v1.x != v2.x {
      var m := Slope(v1, v2).r;
      var run1, run2, run := v2.x - v1.x, v3.x - v2.x, v3.x - v1.x;
      SlopeIsRiseOverRun(v1, v2);
      SlopeIsRiseOverRun(v2, v3);
      assert m * run1 == v2.y - v1.y;
      assert m * run2 == v3.y - v2.y;
      Distributes(m, run1, run2);
      assert run == run1 + run2;
      assert m * run == v3.y - v1.y;
      if run == 0.0 {
        assert false;
      }
      SlopeIsRiseOverRun(v1, v3);
      var r := Slope(v1, v3).r;
      assert r * run == v3.y - v1.y;
      CancelNonzero(r, m, run);
    }
  }
}
