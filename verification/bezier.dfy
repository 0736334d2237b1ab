/**
  Conversion of one Catmull-Rom segment to a cubic Bezier segment, and
  evaluation of that cubic in the Bernstein basis.
 */
module Bezier {
  import opened Geometry

  /**
    One coordinate of the interior Bezier control point beside `start`, for
    the segment from `start` towards `toward`, with `outer` the neighbour on
    the far side of `start`.  `dOuter` is the weight of the chord between
    `outer` and `start`, `dSpan` that of the segment itself; the source
    squares them as `pow(d, 2 * alpha)`.  The value is `start` moved along
    the centripetal tangent, a blend of the two neighbouring chords.
   */
  function InnerCoordinate(outer: real, start: real, toward: real, dOuter: real, dSpan: real): (r: real)
    requires dOuter > 0.0 && dSpan >= 0.0
    ensures var a := dOuter * dOuter;
      var b := dSpan * dSpan;
      var scale := 3.0 * dOuter * (dOuter + dSpan);
      scale > 0.0 && r == start + (a * (toward - start) - b * (outer - start)) / scale
  {
    var a := dOuter * dOuter;
    var b := dSpan * dSpan;
    var scale := 3.0 * dOuter * (dOuter + dSpan);
    ScaleFacts(dOuter, dSpan);
    TangentForm(outer, start, toward, dOuter, dSpan);
    (a * toward - b * outer + (2.0 * a + 3.0 * dOuter * dSpan + b) * start) / scale
  }

  /** The interior Bezier control point beside `start`, coordinate by coordinate. */
  function InnerControlPoint(outer: Point, start: Point, toward: Point, dOuter: real, dSpan: real): (r: Point)
    requires dOuter > 0.0 && dSpan >= 0.0
  {
    Point(InnerCoordinate(outer.x, start.x, toward.x, dOuter, dSpan),
          InnerCoordinate(outer.y, start.y, toward.y, dOuter, dSpan))
  }

  /** The source's denominator is positive and expands as the formula needs. */
  lemma ScaleFacts(d1: real, d2: real)
    requires d1 > 0.0 && d2 >= 0.0
    ensures 3.0 * d1 * (d1 + d2) > 0.0
    ensures 3.0 * d1 * (d1 + d2) == 3.0 * (d1 * d1) + 3.0 * d1 * d2
  {
    assert d1 * (d1 + d2) == d1 * d1 + d1 * d2;
    assert d1 * d1 > 0.0;
    assert d1 * d2 >= 0.0;
  }

  /** Dividing a sum by a positive scale, where one summand is `scale * s`. */
  lemma SplitQuotient(n: real, s: real, rest: real, scale: real)
    requires scale > 0.0 && n == scale * s + rest
    ensures n / scale == s + rest / scale
  {
  }

  /** The source's coordinate formula equals `start` plus the tangent term. */
  lemma TangentForm(o: real, s: real, t: real, d1: real, d2: real)
    requires d1 > 0.0 && d2 >= 0.0
    ensures var a := d1 * d1;
      var b := d2 * d2;
      var scale := 3.0 * d1 * (d1 + d2);
      scale > 0.0
      && (a * t - b * o + (2.0 * a + 3.0 * d1 * d2 + b) * s) / scale
         == s + (a * (t - s) - b * (o - s)) / scale
  {
    var a := d1 * d1;
    var b := d2 * d2;
    var scale := 3.0 * d1 * (d1 + d2);
    ScaleFacts(d1, d2);
    var mid := 2.0 * a + 3.0 * d1 * d2 + b;
    assert mid == scale - a + b;
    assert a * t - b * o + mid * s == scale * s + (a * (t - s) - b * (o - s));
    SplitQuotient(a * t - b * o + mid * s, s, a * (t - s) - b * (o - s), scale);
  }

  /**
    The four Bezier control points of the segment from `start` to `finish`,
    given the outer neighbours `before` and `after`.  The chord weights on
    either side of the segment must be positive: the source divides by them.
   */
  function ControlPoints(before: Point, start: Point, finish: Point, after: Point, w: Weight): (c: seq<Point>)
    requires w(before, start) > 0.0 && w(finish, after) > 0.0 && w(start, finish) >= 0.0
    ensures |c| == 4
    ensures c[0] == start && c[3] == finish
  {
    var d1 := w(before, start);
    var d2 := w(start, finish);
    var d3 := w(finish, after);
    [start, InnerControlPoint(before, start, finish, d1, d2), InnerControlPoint(after, finish, start, d3, d2), finish]
  }

  /** One coordinate of the cubic with coefficients `c0 .. c3` at `u`. */
  function Cubic(c0: real, c1: real, c2: real, c3: real, u: real): real {
    var u2 := u * u;
    var u3 := u2 * u;
    var s := 1.0 - u;
    var s2 := s * s;
    var s3 := s2 * s;
    c0 * s3 + c1 * 3.0 * u * s2 + c2 * 3.0 * u2 * s + c3 * u3
  }

  /**
    The cubic Bezier curve with control points `c` at local parameter `u`:
    it starts at the first control point and ends at the last.
   */
  function Bernstein(c: seq<Point>, u: real): (r: Point)
    requires |c| == 4
    ensures u == 0.0 ==> r == c[0]
    ensures u == 1.0 ==> r == c[3]
  {
    Point(Cubic(c[0].x, c[1].x, c[2].x, c[3].x, u), Cubic(c[0].y, c[1].y, c[2].y, c[3].y, u))
  }

  /** The Bernstein weights sum to one, so equal control points give that point. */
  lemma CubicOfConstant(v: real, u: real)
    ensures Cubic(v, v, v, v, u) == v
  {
    var s := 1.0 - u;
    calc {
      Cubic(v, v, v, v, u);
      v * (s * s * s + 3.0 * u * s * s + 3.0 * u * u * s + u * u * u);
      v * ((s + u) * (s + u) * (s + u));
      v;
    }
  }

  lemma BernsteinOfConstant(c: seq<Point>, u: real)
    requires |c| == 4 && c[1] == c[0] && c[2] == c[0] && c[3] == c[0]
    ensures Bernstein(c, u) == c[0]
  {
    CubicOfConstant(c[0].x, u);
    CubicOfConstant(c[0].y, u);
  }

  /** Running the control points backwards traces the same curve backwards. */
  lemma CubicReversed(c0: real, c1: real, c2: real, c3: real, u: real)
    ensures Cubic(c3, c2, c1, c0, 1.0 - u) == Cubic(c0, c1, c2, c3, u)
  {
    assert 1.0 - (1.0 - u) == u;
  }

  lemma BernsteinReversed(c: seq<Point>, u: real)
    requires |c| == 4
    ensures Bernstein([c[3], c[2], c[1], c[0]], 1.0 - u) == Bernstein(c, u)
  {
    CubicReversed(c[0].x, c[1].x, c[2].x, c[3].x, u);
    CubicReversed(c[0].y, c[1].y, c[2].y, c[3].y, u);
  }
}
