/**
  Locating the segment of the parameter table that holds a curve parameter.
 */
module SegmentLookup {
  import opened ParameterTable

  /** `i` is a segment of `gp` and `t` lies in its half-open span. */
  predicate InSegment(gp: seq<real>, t: real, i: nat) {
    i + 1 < |gp| && gp[i] <= t < gp[i + 1]
  }

  /**
    The linear scan: starting at segment `i`, move right while `t` reaches
    the next entry.  It stops before the last entry because that entry
    exceeds `t`, and it stops at the first segment whose right end exceeds `t`.
   */
  function Scan(gp: seq<real>, t: real, i: nat): (r: nat)
    requires i + 1 < |gp|
    requires gp[i] <= t < gp[|gp| - 1]
    ensures i <= r
    ensures InSegment(gp, t, r)
    ensures forall j :: i < j <= r ==> gp[j] <= t
    decreases |gp| - i
  {
    if t >= gp[i + 1] then Scan(gp, t, i + 1) else i
  }

  /**
    The segment index for `t`: the first point for 0, the last point for 1,
    otherwise the segment found by scanning from the start.
   */
  function SegmentIndex(gp: seq<real>, t: real): (i: nat)
    requires IsTable(gp)
    requires 0.0 <= t <= 1.0
    ensures i < |gp|
    ensures t == 0.0 ==> i == 0
    ensures t == 1.0 ==> i == |gp| - 1
    ensures 0.0 < t < 1.0 ==> InSegment(gp, t, i) && forall j :: 0 < j <= i ==> gp[j] <= t
  {
    if t == 0.0 then 0
    else if t == 1.0 then |gp| - 1
    else Scan(gp, t, 0)
  }

  /**
    On a strictly increasing table the scan finds the one segment holding
    `t`: for an interior parameter, `i` is the index exactly when `t` lies
    in segment `i`.
   */
  lemma SegmentIndexIff(gp: seq<real>, t: real, i: nat)
    requires IsTable(gp) && StrictlyIncreasing(gp)
    requires 0.0 < t < 1.0
    ensures SegmentIndex(gp, t) == i <==> InSegment(gp, t, i)
  {
  }

  /**
    On a strictly increasing table, the parameter of control point `k`
    selects segment `k` (the last point selects itself).
   */
  lemma SegmentIndexOfEntry(gp: seq<real>, k: nat)
    requires IsTable(gp) && StrictlyIncreasing(gp)
    requires k < |gp|
    ensures 0.0 <= gp[k] <= 1.0
    ensures SegmentIndex(gp, gp[k]) == k
  {
    if 0 < k < |gp| - 1 {
      assert gp[0] < gp[k] < gp[|gp| - 1];
      SegmentIndexIff(gp, gp[k], k);
    } else if k == |gp| - 1 {
      assert gp[0] < gp[k];
    }
  }
}
