/**
  Points of the plane and the two vector helpers of the curve code, plus the
  abstraction of the chord weight `distance(p, q) ^ alpha`.
 */
module Geometry {

  /** A point of the plane; the source represents it as a two-element array. */
  datatype Point = Point(x: real, y: real)

  /** Component-wise sum. */
  function Add(p: Point, q: Point): Point
  {
    Point(p.x + q.x, p.y + q.y)
  }

  /** Component-wise difference; adding `q` back undoes it. */
  function Sub(p: Point, q: Point): (r: Point)
    ensures Add(r, q) == p
    ensures r == Point(0.0, 0.0) <==> p == q
  {
    Point(p.x - q.x, p.y - q.y)
  }

  /**
    The weight of the chord from `p` to `q`.  In the source it is
    `Math.pow(distance(p, q), alpha)`; here it is any function of the two
    end points, so the exponent `alpha` is folded into it.
   */
  type Weight = (Point, Point) -> real

  /**
    What the model assumes of a weight: never negative, and positive on any
    chord whose end points differ (a distance raised to a power is).
   */
  ghost predicate ValidWeight(w: Weight) {
    forall p: Point, q: Point :: w(p, q) >= 0.0 && (p != q ==> w(p, q) > 0.0)
  }

  /** No two neighbouring points of `ps` coincide. */
  predicate NoCoincident(ps: seq<Point>) {
    forall i :: 0 < i < |ps| ==> ps[i - 1] != ps[i]
  }
}
