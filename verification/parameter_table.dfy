/**
  The global parameter table of a Catmull-Rom curve: one value per control
  point, the running sum of chord weights divided by their total, pinned to
  0 at the first point and 1 at the last.
 */
module ParameterTable {
  import opened Geometry

  /** Sum of the weights of the first `i` chords of `cp`. */
  function CumulativeWeight(cp: seq<Point>, w: Weight, i: nat): real
    requires i < |cp|
  {
    if i == 0 then 0.0 else CumulativeWeight(cp, w, i - 1) + w(cp[i - 1], cp[i])
  }

  /** Sum of the weights of all chords of `cp`. */
  function TotalWeight(cp: seq<Point>, w: Weight): real
    requires 0 < |cp|
  {
    CumulativeWeight(cp, w, |cp| - 1)
  }

  /**
    Reference definition of the table.  Entries strictly between the ends
    are only defined (and only divide) when there are at least three points.
   */
  function GlobalParameter(cp: seq<Point>, w: Weight): (gp: seq<real>)
    requires 2 <= |cp|
    requires 3 <= |cp| ==> TotalWeight(cp, w) > 0.0
    ensures |gp| == |cp| && IsTable(gp)
  {
    seq(|cp|, i requires 0 <= i < |cp| =>
      if i == 0 then 0.0
      else if i == |cp| - 1 then 1.0
      else CumulativeWeight(cp, w, i) / TotalWeight(cp, w))
  }

  /** A table pinned to 0 at its first entry and 1 at its last. */
  predicate IsTable(gp: seq<real>) {
    2 <= |gp| && gp[0] == 0.0 && gp[|gp| - 1] == 1.0
  }

  predicate InUnitInterval(gp: seq<real>) {
    forall i :: 0 <= i < |gp| ==> 0.0 <= gp[i] <= 1.0
  }

  predicate Nondecreasing(gp: seq<real>) {
    forall a, b :: 0 <= a <= b < |gp| ==> gp[a] <= gp[b]
  }

  predicate StrictlyIncreasing(gp: seq<real>) {
    forall a, b :: 0 <= a < b < |gp| ==> gp[a] < gp[b]
  }

  /** Running sums never decrease, since no weight is negative. */
  lemma {:induction false} CumulativeWeightMonotone(cp: seq<Point>, w: Weight, i: nat, j: nat)
    requires ValidWeight(w)
    requires i <= j < |cp|
    ensures 0.0 <= CumulativeWeight(cp, w, i) <= CumulativeWeight(cp, w, j)
  {
    if i < j {
      CumulativeWeightMonotone(cp, w, i, j - 1);
    } else if i > 0 {
      CumulativeWeightMonotone(cp, w, i - 1, i - 1);
    }
  }

  /** Running sums strictly grow along a polyline without repeated neighbours. */
  lemma {:induction false} CumulativeWeightStrict(cp: seq<Point>, w: Weight, i: nat, j: nat)
    requires ValidWeight(w) && NoCoincident(cp)
    requires i < j < |cp|
    ensures CumulativeWeight(cp, w, i) < CumulativeWeight(cp, w, j)
  {
    assert cp[j - 1] != cp[j];
    if i < j - 1 {
      CumulativeWeightStrict(cp, w, i, j - 1);
    }
  }

  /** A polyline of at least two distinct neighbours has positive total weight. */
  lemma TotalWeightPositive(cp: seq<Point>, w: Weight)
    requires ValidWeight(w) && NoCoincident(cp)
    requires 2 <= |cp|
    ensures TotalWeight(cp, w) > 0.0
  {
    CumulativeWeightStrict(cp, w, 0, |cp| - 1);
  }

  lemma DivideMonotone(a: real, b: real, d: real)
    requires a <= b && d > 0.0
    ensures a / d <= b / d
  {
  }

  lemma DivideStrict(a: real, b: real, d: real)
    requires a < b && d > 0.0
    ensures a / d < b / d
  {
  }

  /** Division by a nonzero `d` is undone by multiplying with `d`. */
  lemma QuotientTimes(a: real, d: real)
    requires d != 0.0
    ensures (a / d) * d == a
  {
  }

  /** A part of a positive total, divided by the total, lies in [0, 1]. */
  lemma ShareOfTotal(a: real, total: real)
    requires 0.0 <= a <= total && total > 0.0
    ensures 0.0 <= a / total <= 1.0
    ensures a == total ==> a / total == 1.0
    ensures a < total ==> a / total < 1.0
    ensures 0.0 < a ==> 0.0 < a / total
  {
    DivideMonotone(0.0, a, total);
    DivideMonotone(a, total, total);
    if a < total {
      DivideStrict(a, total, total);
    }
    if 0.0 < a {
      DivideStrict(0.0, a, total);
    }
  }

  /** Entry `i` of the table, read as the running sum over the total for interior `i`. */
  lemma GlobalParameterEntry(cp: seq<Point>, w: Weight, i: nat)
    requires 2 <= |cp|
    requires 3 <= |cp| ==> TotalWeight(cp, w) > 0.0
    requires i < |cp|
    ensures GlobalParameter(cp, w)[i]
         == if i == 0 then 0.0
            else if i == |cp| - 1 then 1.0
            else CumulativeWeight(cp, w, i) / TotalWeight(cp, w)
  {
  }

  /** Every entry of the table lies in [0, 1]. */
  lemma GlobalParameterInUnitInterval(cp: seq<Point>, w: Weight)
    requires ValidWeight(w)
    requires 2 <= |cp|
    requires 3 <= |cp| ==> TotalWeight(cp, w) > 0.0
    ensures InUnitInterval(GlobalParameter(cp, w))
  {
    var gp := GlobalParameter(cp, w);
    var n := |cp|;
    forall i | 0 <= i < n
      ensures 0.0 <= gp[i] <= 1.0
    {
      GlobalParameterEntry(cp, w, i);
      if 0 < i < n - 1 {
        CumulativeWeightMonotone(cp, w, i, n - 1);
        ShareOfTotal(CumulativeWeight(cp, w, i), TotalWeight(cp, w));
      }
    }
  }

  /** The table never decreases. */
  lemma GlobalParameterNondecreasing(cp: seq<Point>, w: Weight)
    requires ValidWeight(w)
    requires 2 <= |cp|
    requires 3 <= |cp| ==> TotalWeight(cp, w) > 0.0
    ensures Nondecreasing(GlobalParameter(cp, w))
  {
    var gp := GlobalParameter(cp, w);
    var n := |cp|;
    GlobalParameterInUnitInterval(cp, w);
    forall a, b | 0 <= a <= b < n
      ensures gp[a] <= gp[b]
    {
      GlobalParameterEntry(cp, w, a);
      GlobalParameterEntry(cp, w, b);
      if 0 < a && b < n - 1 {
        CumulativeWeightMonotone(cp, w, a, b);
        DivideMonotone(CumulativeWeight(cp, w, a), CumulativeWeight(cp, w, b), TotalWeight(cp, w));
      }
    }
  }

  /** Without repeated neighbours the table strictly increases. */
  lemma GlobalParameterStrictlyIncreasing(cp: seq<Point>, w: Weight)
    requires ValidWeight(w) && NoCoincident(cp)
    requires 2 <= |cp|
    ensures 3 <= |cp| ==> TotalWeight(cp, w) > 0.0
    ensures StrictlyIncreasing(GlobalParameter(cp, w))
  {
    TotalWeightPositive(cp, w);
    var gp := GlobalParameter(cp, w);
    var n := |cp|;
    var total := TotalWeight(cp, w);
    forall a, b | 0 <= a < b < n
      ensures gp[a] < gp[b]
    {
      GlobalParameterEntry(cp, w, a);
      GlobalParameterEntry(cp, w, b);
      if a == 0 && b == n - 1 {
      } else if a == 0 {
        CumulativeWeightStrict(cp, w, 0, b);
        CumulativeWeightMonotone(cp, w, b, n - 1);
        ShareOfTotal(CumulativeWeight(cp, w, b), total);
      } else if b == n - 1 {
        CumulativeWeightMonotone(cp, w, a, a);
        CumulativeWeightStrict(cp, w, a, n - 1);
        ShareOfTotal(CumulativeWeight(cp, w, a), total);
      } else {
        CumulativeWeightStrict(cp, w, a, b);
        DivideStrict(CumulativeWeight(cp, w, a), CumulativeWeight(cp, w, b), total);
      }
    }
  }

  /**
    The table is well formed: 0 first, 1 last, every entry in [0, 1],
    nondecreasing, and strictly increasing when no neighbours coincide.
   */
  lemma GlobalParameterWellFormed(cp: seq<Point>, w: Weight)
    requires ValidWeight(w)
    requires 2 <= |cp|
    requires 3 <= |cp| ==> TotalWeight(cp, w) > 0.0
    ensures IsTable(GlobalParameter(cp, w))
    ensures InUnitInterval(GlobalParameter(cp, w))
    ensures Nondecreasing(GlobalParameter(cp, w))
    ensures NoCoincident(cp) ==> StrictlyIncreasing(GlobalParameter(cp, w))
  {
    GlobalParameterEntry(cp, w, 0);
    GlobalParameterEntry(cp, w, |cp| - 1);
    GlobalParameterInUnitInterval(cp, w);
    GlobalParameterNondecreasing(cp, w);
    if NoCoincident(cp) {
      GlobalParameterStrictlyIncreasing(cp, w);
    }
  }

  /**
    Each step of the table is its chord's share of the total weight, so the
    table rises at step `i` exactly when that chord has positive weight.
   */
  lemma GlobalParameterStep(cp: seq<Point>, w: Weight, i: nat)
    requires 2 <= |cp| && TotalWeight(cp, w) > 0.0
    requires i < |cp| - 1
    ensures GlobalParameter(cp, w)[i + 1] - GlobalParameter(cp, w)[i]
         == w(cp[i], cp[i + 1]) / TotalWeight(cp, w)
    ensures GlobalParameter(cp, w)[i] < GlobalParameter(cp, w)[i + 1] <==> w(cp[i], cp[i + 1]) > 0.0
  {
    var total := TotalWeight(cp, w);
    var d := w(cp[i], cp[i + 1]);
    var low := CumulativeWeight(cp, w, i);
    var high := CumulativeWeight(cp, w, i + 1);
    assert high == low + d;
    GlobalParameterEntry(cp, w, i);
    GlobalParameterEntry(cp, w, i + 1);
    // Both ends of the table fit the running-sum formula too.
    var lowShare := if i == 0 then 0.0 / total else low / total;
    var highShare := if i + 1 == |cp| - 1 then total / total else high / total;
    assert GlobalParameter(cp, w)[i] == lowShare by {
      if i == 0 {
        assert 0.0 / total == 0.0;
      }
    }
    assert GlobalParameter(cp, w)[i + 1] == highShare by {
      if i + 1 == |cp| - 1 {
        assert total / total == 1.0;
      }
    }
    assert lowShare == low / total;
    assert highShare == high / total;
    DivideDifference(high, low, total);
    if d > 0.0 {
      DivideStrict(0.0, d, total);
    } else {
      DivideMonotone(d, 0.0, total);
    }
  }

  lemma DivideDifference(a: real, b: real, d: real)
    requires d > 0.0
    ensures a / d - b / d == (a - b) / d
  {
  }

  /**
    The source's first loop: running sums of chord weights, and their total
    accumulated alongside.
   */
  method RunningWeights(cp: seq<Point>, w: Weight) returns (cumulative: seq<real>, total: real)
    requires 0 < |cp|
    ensures |cumulative| == |cp|
    ensures forall k :: 0 <= k < |cp| ==> cumulative[k] == CumulativeWeight(cp, w, k)
    ensures total == TotalWeight(cp, w)
  {
    cumulative := [0.0];
    total := 0.0;
    var i := 1;
    while i < |cp|
      invariant 1 <= i <= |cp|
      invariant |cumulative| == i
      invariant forall k :: 0 <= k < i ==> cumulative[k] == CumulativeWeight(cp, w, k)
      invariant total == CumulativeWeight(cp, w, i - 1)
    {
      var d := w(cp[i - 1], cp[i]);
      cumulative := cumulative + [cumulative[i - 1] + d];
      total := total + d;
      i := i + 1;
    }
  }

  /**
    The table as the source builds it: 0 and 1 at the ends, then a second
    loop dividing each interior running sum by the total.
   */
  method ComputeGlobalParameter(cp: seq<Point>, w: Weight) returns (gp: seq<real>)
    requires 2 <= |cp|
    requires 3 <= |cp| ==> TotalWeight(cp, w) > 0.0
    ensures gp == GlobalParameter(cp, w)
  {
    var n := |cp|;
    gp := seq(n, _ => 0.0);
    gp := gp[0 := 0.0];
    gp := gp[n - 1 := 1.0];
    var cumulative, total := RunningWeights(cp, w);
    var i := 1;
    while i < n - 1
      invariant 1 <= i <= n - 1
      invariant |gp| == n
      invariant gp[0] == 0.0 && gp[n - 1] == 1.0
      invariant forall k :: 0 < k < i && k < n - 1 ==> gp[k] == cumulative[k] / total
    {
      gp := gp[i := cumulative[i] / total];
      i := i + 1;
    }
    forall k | 0 <= k < n
      ensures gp[k] == GlobalParameter(cp, w)[k]
    {
      GlobalParameterEntry(cp, w, k);
    }
  }
}
