/**
  Evaluation of a Catmull-Rom curve through a sequence of control points:
  one point at a curve parameter, or a uniformly sampled list of points.
 */
module CatmullRom {
  import opened Geometry
  import opened ParameterTable
  import opened SegmentLookup
  import opened Bezier

  /**
    The working copy of the control points: the caller's points, followed in
    closed mode by the first point again so that the curve loops back.
   */
  function WorkingCopy(cp: seq<Point>, closed: bool): (ext: seq<Point>)
    requires closed ==> 0 < |cp|
    ensures |ext| == if closed then |cp| + 1 else |cp|
    ensures ext[..|cp|] == cp
    ensures closed ==> ext[|cp|] == cp[0]
  {
    if closed then cp + [cp[0]] else cp
  }

  /** A working copy whose curve is defined: no two neighbours coincide. */
  predicate Admissible(cp: seq<Point>, closed: bool) {
    3 <= |cp| ==> NoCoincident(WorkingCopy(cp, closed))
  }

  /** The four points that shape one segment: it runs from `start` to `finish`. */
  datatype Span = Span(before: Point, start: Point, finish: Point, after: Point)

  /**
    The span used for segment index `i` of the working copy `cp`.  Index
    `|cp| - 1` (parameter 1) reuses the last segment.  Past either end of an
    open curve the missing neighbour is a phantom point, the reflection of
    the neighbouring point across the end point; on a closed curve it is the
    point on the other side of the seam.
   */
  function Neighbours(cp: seq<Point>, i: nat, closed: bool): (s: Span)
    requires 3 <= |cp| && i < |cp|
    ensures i < |cp| - 1 ==> s.start == cp[i] && s.finish == cp[i + 1]
    ensures i == |cp| - 1 ==> s.start == cp[i - 1] && s.finish == cp[i]
    ensures 0 < i < |cp| - 1 ==> s.before == cp[i - 1]
    ensures i == |cp| - 1 ==> s.before == cp[i - 2]
    ensures i < |cp| - 2 ==> s.after == cp[i + 2]
    ensures i == 0 && closed ==> s.before == cp[|cp| - 2]
    ensures i == 0 && !closed ==> Sub(s.start, s.before) == Sub(s.finish, s.start)
    ensures |cp| - 2 <= i && closed ==> s.after == cp[1]
    ensures |cp| - 2 <= i && !closed ==> Sub(s.after, s.finish) == Sub(s.finish, s.start)
  {
    var n := |cp|;
    if i == 0 then
      Span(if closed then cp[n - 2] else Sub(cp[i], Sub(cp[i + 1], cp[i])), cp[i], cp[i + 1], cp[i + 2])
    else if i == n - 2 then
      Span(cp[i - 1], cp[i], cp[i + 1], if closed then cp[1] else Add(cp[i + 1], Sub(cp[i + 1], cp[i])))
    else if i == n - 1 then
      Span(cp[i - 2], cp[i - 1], cp[i], if closed then cp[1] else Add(cp[i], Sub(cp[i], cp[i - 1])))
    else
      Span(cp[i - 1], cp[i], cp[i + 1], cp[i + 2])
  }

  /**
    On a working copy without repeated neighbours (closed back onto its
    first point in closed mode), each chord of a span joins distinct points,
    real or phantom.
   */
  lemma NeighboursDistinct(cp: seq<Point>, i: nat, closed: bool)
    requires 3 <= |cp| && i < |cp|
    requires NoCoincident(cp)
    requires closed ==> cp[|cp| - 1] == cp[0]
    ensures Neighbours(cp, i, closed).before != Neighbours(cp, i, closed).start
    ensures Neighbours(cp, i, closed).start != Neighbours(cp, i, closed).finish
    ensures Neighbours(cp, i, closed).finish != Neighbours(cp, i, closed).after
  {
    var n := |cp|;
    var s := Neighbours(cp, i, closed);
    assert cp[n - 2] != cp[n - 1];
    assert cp[0] != cp[1];
    if i < n - 1 {
      assert cp[i] != cp[i + 1];
    }
    if i == 0 && !closed {
      assert Sub(s.start, s.before) != Point(0.0, 0.0);
    }
    if n - 2 <= i && !closed {
      assert Sub(s.after, s.finish) != Point(0.0, 0.0);
    }
    if 0 < i < n - 1 {
      assert cp[i - 1] != cp[i];
    }
    if i < n - 2 {
      assert cp[i + 1] != cp[i + 2];
    }
  }

  /**
    The parameter local to segment `i`: 1 at the end of the curve, 0 at the
    start, otherwise the position of `t` within the segment's span of the
    table, so that the segment's span maps back onto `t`.
   */
  function LocalParameter(gp: seq<real>, t: real, i: nat): (u: real)
    requires 0.0 <= t <= 1.0
    requires 0.0 < t < 1.0 ==> InSegment(gp, t, i)
    ensures 0.0 <= u <= 1.0
    ensures t == 0.0 ==> u == 0.0
    ensures t == 1.0 ==> u == 1.0
    ensures 0.0 < t < 1.0 ==> u < 1.0 && t == gp[i] + u * (gp[i + 1] - gp[i])
  {
    if t >= 1.0 then 1.0
    else if t != 0.0 then RescaleIntoSegment(t, gp[i], gp[i + 1])
    else 0.0
  }

  function RescaleIntoSegment(t: real, lo: real, hi: real): (u: real)
    requires lo <= t < hi
    ensures 0.0 <= u < 1.0 && t == lo + u * (hi - lo)
  {
    var u := (t - lo) / (hi - lo);
    ShareOfTotal(t - lo, hi - lo);
    QuotientTimes(t - lo, hi - lo);
    u
  }

  /**
    A local parameter of 0 only arises at the start of its segment: when `t`
    is the table entry of segment `i`, the local parameter is 0.
   */
  lemma LocalParameterAtEntry(gp: seq<real>, i: nat)
    requires i + 1 < |gp| && InSegment(gp, gp[i], i) && 0.0 < gp[i] < 1.0
    ensures LocalParameter(gp, gp[i], i) == 0.0
  {
    var u := LocalParameter(gp, gp[i], i);
    assert u * (gp[i + 1] - gp[i]) == 0.0;
  }

  /**
    The curve point at `t` on the working copy `cp`, given its table `gp`:
    find the segment, rescale `t` into it, build the segment's Bezier
    control points and evaluate the cubic.  The curve starts at the first
    point and ends at the last.
   */
  function EvaluateWithTable(cp: seq<Point>, t: real, gp: seq<real>, closed: bool, w: Weight): (r: Point)
    requires 3 <= |cp| && NoCoincident(cp)
    requires closed ==> cp[|cp| - 1] == cp[0]
    requires |gp| == |cp| && IsTable(gp)
    requires 0.0 <= t <= 1.0
    requires ValidWeight(w)
    ensures t == 0.0 ==> r == cp[0]
    ensures t == 1.0 ==> r == cp[|cp| - 1]
  {
    var i := SegmentIndex(gp, t);
    var u := LocalParameter(gp, t, i);
    var s := Neighbours(cp, i, closed);
    NeighboursDistinct(cp, i, closed);
    Bernstein(ControlPoints(s.before, s.start, s.finish, s.after, w), u)
  }

  /**
    The table of the working copy, well formed and strictly increasing.
   */
  function Knots(cp: seq<Point>, closed: bool, w: Weight): (gp: seq<real>)
    requires 3 <= |cp| && Admissible(cp, closed)
    requires ValidWeight(w)
    ensures |gp| == |WorkingCopy(cp, closed)|
    ensures IsTable(gp) && InUnitInterval(gp) && StrictlyIncreasing(gp)
  {
    var ext := WorkingCopy(cp, closed);
    TotalWeightPositive(ext, w);
    GlobalParameterWellFormed(ext, w);
    GlobalParameter(ext, w)
  }

  /** The working copy in closed mode ends where it starts. */
  lemma WorkingCopyCloses(cp: seq<Point>, closed: bool)
    requires 0 < |cp|
    ensures closed ==> WorkingCopy(cp, closed)[|WorkingCopy(cp, closed)| - 1] == cp[0]
    ensures !closed ==> WorkingCopy(cp, closed)[|WorkingCopy(cp, closed)| - 1] == cp[|cp| - 1]
    ensures WorkingCopy(cp, closed)[0] == cp[0]
  {
  }

  /**
    One point of the curve through `cp` at parameter `t`.  Fewer than three
    control points give the origin.  Otherwise the curve starts at the first
    control point, and ends at the last one (open) or back at the first one
    (closed).
   */
  function CatmullRomPoint(cp: seq<Point>, t: real, closed: bool, w: Weight): (r: Point)
    requires ValidWeight(w) && Admissible(cp, closed)
    requires 0.0 <= t <= 1.0
    ensures |cp| < 3 ==> r == Point(0.0, 0.0)
    ensures 3 <= |cp| && t == 0.0 ==> r == cp[0]
    ensures 3 <= |cp| && t == 1.0 ==> r == if closed then cp[0] else cp[|cp| - 1]
  {
    if |cp| < 3 then Point(0.0, 0.0)
    else
      var ext := WorkingCopy(cp, closed);
      WorkingCopyCloses(cp, closed);
      EvaluateWithTable(ext, t, Knots(cp, closed, w), closed, w)
  }

  /**
    The curve passes through every point of the working copy, each at its
    own table entry.
   */
  lemma CurveInterpolates(cp: seq<Point>, closed: bool, w: Weight, k: nat)
    requires ValidWeight(w) && 3 <= |cp| && Admissible(cp, closed)
    requires k < |WorkingCopy(cp, closed)|
    ensures 0.0 <= Knots(cp, closed, w)[k] <= 1.0
    ensures CatmullRomPoint(cp, Knots(cp, closed, w)[k], closed, w) == WorkingCopy(cp, closed)[k]
  {
    var ext := WorkingCopy(cp, closed);
    var gp := Knots(cp, closed, w);
    var n := |ext|;
    var t := gp[k];
    SegmentIndexOfEntry(gp, k);
    WorkingCopyCloses(cp, closed);
    if 0 < k < n - 1 {
      assert gp[0] < gp[k] < gp[n - 1];
      LocalParameterAtEntry(gp, k);
    }
  }

  /** The parameter of sample `k` out of `count`, evenly spread over [0, 1]. */
  function SampleParameter(k: nat, count: nat): (t: real)
    requires 2 <= count && k < count
    ensures 0.0 <= t <= 1.0
    ensures k == 0 <==> t == 0.0
    ensures k == count - 1 <==> t == 1.0
  {
    (k as real) / ((count - 1) as real)
  }

  /**
    The sampling loop: `count` points of the curve through the working copy
    `cp`, all evaluated with the one table `gp` (none for a nonpositive count).
   */
  method SampleWithTable(cp: seq<Point>, closed: bool, count: int, w: Weight, gp: seq<real>) returns (r: seq<Point>)
    requires 3 <= |cp| && NoCoincident(cp)
    requires closed ==> cp[|cp| - 1] == cp[0]
    requires |gp| == |cp| && IsTable(gp)
    requires ValidWeight(w)
    requires count != 1
    ensures |r| == if count < 0 then 0 else count
    ensures forall k :: 0 <= k < |r| ==> r[k] == EvaluateWithTable(cp, SampleParameter(k, count), gp, closed, w)
  {
    r := [];
    var i := 0;
    while i < count
      invariant 0 <= i && (i == 0 || i <= count)
      invariant |r| == i
      invariant forall k :: 0 <= k < i ==> r[k] == EvaluateWithTable(cp, SampleParameter(k, count), gp, closed, w)
    {
      r := r + [EvaluateWithTable(cp, SampleParameter(i, count), gp, closed, w)];
      i := i + 1;
    }
  }

  /**
    `count` points sampled evenly along the curve, sharing one table.  Two
    or fewer control points give no points; a nonpositive count gives none.
    Sample `k` is the curve point at parameter `k / (count - 1)`, so the
    samples start at the first control point and end at the curve's end.
   */
  method CatmullRomPoints(cp: seq<Point>, closed: bool, count: int, w: Weight) returns (r: seq<Point>)
    requires ValidWeight(w) && Admissible(cp, closed)
    requires 3 <= |cp| ==> count != 1
    ensures |cp| <= 2 ==> r == []
    ensures 3 <= |cp| ==> |r| == if count < 0 then 0 else count
    ensures forall k :: 0 <= k < |r| ==> r[k] == CatmullRomPoint(cp, SampleParameter(k, count), closed, w)
    ensures 2 <= |r| ==> r[0] == cp[0] && r[|r| - 1] == if closed then cp[0] else cp[|cp| - 1]
  {
    if |cp| <= 2 {
      return [];
    }
    var ext := WorkingCopy(cp, closed);
    TotalWeightPositive(ext, w);
    var gp := ComputeGlobalParameter(ext, w);
    assert gp == Knots(cp, closed, w);
    WorkingCopyCloses(cp, closed);
    r := SampleWithTable(ext, closed, count, w, gp);
    if 2 <= |r| {
      assert SampleParameter(0, count) == 0.0;
      assert SampleParameter(|r| - 1, count) == 1.0;
    }
  }
}
