# Catmull-Rom curve evaluator

A Dafny model of the Catmull-Rom spline evaluator in `src/website/common/curves.js`. The
parallel-coordinates chart uses it to smooth each polyline. The evaluator takes a sequence
of 2-D control points, an optional "closed" flag and an exponent `alpha`. It returns one
curve point at a parameter `t`, or a list of points sampled evenly along the curve.

The model is functional. Control points are an immutable `seq<Point>` over `real`. The
chord weight `Math.pow(distance(p, q), alpha)` is a function parameter `w: Weight`, so the
exponent is folded into `w`. `ValidWeight(w)` says that `w` is never negative and is
positive on any chord whose end points differ.

Modules follow the structure of the source:

- `Geometry`: points, `Add`, `Sub`, the weight abstraction, and "no two neighbouring
  points coincide".
- `ParameterTable`: the global parameter table (running chord weights over their total).
  It has a reference definition and a method that mirrors the source's two loops.
- `SegmentLookup`: the linear scan that finds the segment holding `t`.
- `Bezier`: the Catmull-Rom-to-Bezier control-point layout and cubic Bernstein evaluation.
- `CatmullRom`: the working copy (closed mode appends the first point), the phantom
  boundary points, the local parameter, single-point evaluation, and the sampler.

The source performs no guard against coincident neighbouring points. A repeated pair
makes it divide by zero, giving NaN or Infinity, on the spans that use that pair's chord.
The model requires `Admissible(cp, closed)` instead: no two neighbouring points of the
working copy coincide. This also excludes the finite points such an input yields on its
other spans. It applies only when there are at least three points, because shorter inputs
hit the guards first.

## Model

| member | source | states |
|---|---|---|
| Geometry.Sub | src/website/common/curves.js:5-11 | adding `q` back to `p - q` gives `p`; the difference is zero exactly when the points are equal |
| ParameterTable.CumulativeWeightMonotone | src/website/common/curves.js:20-24 | running chord-weight sums are nonnegative and never decrease |
| ParameterTable.CumulativeWeightStrict | src/website/common/curves.js:20-24 | without coincident neighbours, running sums strictly increase |
| ParameterTable.TotalWeightPositive | src/website/common/curves.js:20-27 | without coincident neighbours, the total weight the table divides by is positive |
| ParameterTable.RunningWeights | src/website/common/curves.js:16-24 | the first loop yields every running sum of chord weights, and a separately accumulated total equal to the sum over all chords |
| ParameterTable.GlobalParameter | src/website/common/curves.js:13-29 | the reference table: one entry per point, 0 at the first point and 1 at the last |
| ParameterTable.ComputeGlobalParameter | src/website/common/curves.js:13-29 | the two-loop computation (running sums and a separate total, then interior division) yields exactly the reference table |
| ParameterTable.GlobalParameterInUnitInterval | src/website/common/curves.js:13-29 | every table entry lies in [0, 1] |
| ParameterTable.GlobalParameterNondecreasing | src/website/common/curves.js:13-29 | the table never decreases |
| ParameterTable.GlobalParameterStrictlyIncreasing | src/website/common/curves.js:13-29 | without coincident neighbours the table strictly increases |
| ParameterTable.GlobalParameterWellFormed | src/website/common/curves.js:13-29 | entry 0 is 0, the last entry is 1, all entries lie in [0, 1], the table is nondecreasing, and strictly increasing when no neighbours coincide |
| ParameterTable.GlobalParameterStep | src/website/common/curves.js:20-28 | each step of the table equals its chord's weight over the total, so the table rises at a step exactly when that chord's weight is positive |
| SegmentLookup.Scan | src/website/common/curves.js:37-43 | the scan terminates and returns a segment `i <= len-2` with `gp[i] <= t < gp[i+1]`, and every entry it passed is `<= t` (it is the first such segment) |
| SegmentLookup.SegmentIndex | src/website/common/curves.js:31-45 | `t = 0` gives 0, `t = 1` gives `len-1`, an interior `t` gives the first segment whose span holds `t` |
| SegmentLookup.SegmentIndexIff | src/website/common/curves.js:31-45 | on a strictly increasing table, for interior `t` the index is `i` exactly when `t` lies in segment `i` |
| SegmentLookup.SegmentIndexOfEntry | src/website/common/curves.js:31-45 | on a strictly increasing table, the parameter of control point `k` selects index `k` |
| Bezier.InnerCoordinate | src/website/common/curves.js:49-59 | the source's interior control-point coordinate equals `start` plus the centripetal tangent term, and its denominator is positive |
| Bezier.ControlPoints | src/website/common/curves.js:47-61 | exactly four control points, the first is the segment start and the last is the segment end |
| Bezier.Bernstein | src/website/common/curves.js:85-93 | the cubic at local parameter 0 is control point 0 and at 1 is control point 3 |
| Bezier.BernsteinOfConstant | src/website/common/curves.js:85-93 | the Bernstein weights sum to one: four equal control points give that point for every local parameter |
| Bezier.BernsteinReversed | src/website/common/curves.js:85-93 | reversing the control points and replacing `u` by `1 - u` gives the same point |
| CatmullRom.WorkingCopy | src/website/common/curves.js:98-103 | the working copy starts with the caller's points unchanged; closed mode adds exactly one point, the first one |
| CatmullRom.Neighbours | src/website/common/curves.js:75-83 | the span runs between consecutive points; open-mode phantom points are reflections (`start - before = finish - start` at the head, `after - finish = finish - start` at the tail); closed mode uses the point before the seam and point 1 |
| CatmullRom.NeighboursDistinct | src/website/common/curves.js:47-59 | without coincident neighbours, all three chords of a span join distinct points, so every Bezier denominator is nonzero |
| CatmullRom.LocalParameter | src/website/common/curves.js:65-71 | the local parameter lies in [0, 1], is 0 at `t = 0` and 1 at `t = 1`, and for interior `t` maps the segment's span back onto `t` |
| CatmullRom.RescaleIntoSegment | src/website/common/curves.js:69-70 | rescaling `t` within `[lo, hi)` gives `u` in [0, 1) with `t = lo + u * (hi - lo)` |
| CatmullRom.LocalParameterAtEntry | src/website/common/curves.js:69-70 | at a segment's own table entry the local parameter is 0 |
| CatmullRom.EvaluateWithTable | src/website/common/curves.js:63-94 | with any well-formed table, the curve starts at the first point of the working copy and ends at its last |
| CatmullRom.Knots | src/website/common/curves.js:98-105 | the table built for an admissible working copy is well formed and strictly increasing |
| CatmullRom.CatmullRomPoint | src/website/common/curves.js:96-107 | fewer than 3 points give `(0, 0)`; otherwise `t = 0` gives the first point, and `t = 1` gives the last point (open) or the first point (closed) |
| CatmullRom.CurveInterpolates | src/website/common/curves.js:63-107 | the curve passes through every point of the working copy at that point's table entry |
| CatmullRom.SampleParameter | src/website/common/curves.js:125-126 | sample parameters lie in [0, 1], and are 0 exactly for the first sample and 1 exactly for the last |
| CatmullRom.SampleWithTable | src/website/common/curves.js:123-129 | the sampling loop yields `count` points (none for a nonpositive count), point `k` being the curve evaluated with the shared table at `k / (count - 1)` |
| CatmullRom.CatmullRomPoints | src/website/common/curves.js:109-130 | 2 or fewer points give no samples; otherwise exactly `count` samples (none for a nonpositive count); sample `k` equals the single-point evaluation at `k / (count - 1)`; the first sample is the first point and the last is the curve's end |

## Left out

- `distance` and `Math.pow` (src/website/common/curves.js:1-3, 21, 49-57) are abstracted as the weight `w`. The model does not compute square roots, powers or IEEE-754 rounding. `pow(d, 2 * alpha)` is modelled as `w * w`, which is exact over the reals.
- CatmullRom.CatmullRomPoint: requires `Admissible`, meaning no two neighbouring points of the working copy coincide. The source instead divides by a zero chord weight on the spans beside a repeated pair, giving NaN or Infinity there, while its other spans still evaluate to finite points. The model excludes the whole input, those finite points included. With `alpha = 0`, `pow(0, 0) = 1`, so the source is defined on even more of the inputs this excludes.
- CatmullRom.CatmullRomPoints: requires `Admissible`, for the same reason. With at least three points it also requires `count != 1`, where the source computes `0 / 0`.
- CatmullRom.CatmullRomPoints: the source's default arguments (`closedCurve = false`, `nbCurvePoints = 100`, `alpha = 0.5`) are not modelled; callers pass `closed` and `count` explicitly. The `alpha` default has no counterpart at all, because the exponent is folded into the weight `w`.
- CatmullRom.CatmullRomPoint: `t` is restricted to [0, 1]. For `t < 0` the source extrapolates with a negative local parameter. For `t > 1` the scan reads one entry past the table (`undefined`), so the comparison fails and the scan stops at the last index; the local parameter is then 1 and the result is the last point. Neither case is modelled.
- ParameterTable.GlobalParameter: requires at least two points. The callers always pass at least three. With one point the source would overwrite entry 0 with 1.
- `ValidWeight`: assumed of the weight. It holds for a distance raised to any nonnegative power, `alpha = 0` included (there the weight is the constant 1).
- Aliasing: the source copies the caller's array with `slice()` before pushing the closing point. In the model every sequence is a value, and `WorkingCopy` states that the caller's points are its unchanged prefix.
- The table is a sparse object keyed by index in the source. Here it is a sequence indexed `0 .. n-1`.
- Geometric claims that the code never states, such as collinearity preservation or the absence of cusps, are not modelled.
- Everything outside `curves.js` is not part of this model: the Express server, dataset statistics, Angular and d3 wiring, and the build configuration.
