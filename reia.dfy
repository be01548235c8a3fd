/**
 * The oldest variant of the extension, `reia_weighted_stats.c`: the pair
 * buffer has one slot per entry and is grown by one slot (`repalloc`) only
 * when the implicit zero is needed, the pairs are sorted by `qsort`, and
 * each probability is answered by a linear scan of the running sums that
 * stops at the first sum reaching the target. Its mean is
 * Legacy.UndividedMean and its array extraction is Extract's.
 */
module Reia {
  import opened Wrappers
  import opened Pairs
  import opened SparsePairs
  import opened Sorting
  import opened Extract
  import opened RealArith
  import opened EmpiricalQuantile
  import opened Legacy

  // ---------------------------------------------------------------------
  // Pair building.
  // ---------------------------------------------------------------------

  /**
   * The pairs of positive weight in a buffer of |vs| slots; when their total
   * is below 1 the buffer is replaced by a copy one slot longer that ends
   * with the implicit (0, 1 - total) pair, and the total becomes 1.
   */
  method ReiaClosedPairs(vs: seq<real>, ws: seq<real>) returns (pairs: array<ValueWeight>, nPairs: nat, total: real)
    requires |vs| == |ws|
    ensures fresh(pairs) && 1 <= nPairs <= pairs.Length
    ensures pairs[..nPairs] == ClosedPairs(vs, ws) && total == TotalWeight(pairs[..nPairs]) && total >= 1.0
    ensures TotalWeight(PositivePairs(vs, ws)) < 1.0 ==>
      pairs.Length == nPairs && nPairs == |PositivePairs(vs, ws)| + 1
    ensures TotalWeight(PositivePairs(vs, ws)) >= 1.0 ==>
      pairs.Length == |vs| && nPairs == |PositivePairs(vs, ws)|
  {
    pairs := new ValueWeight[|vs|](_ => ValueWeight(0.0, 0.0));
    nPairs, total := CollectPositive(vs, ws, pairs);
    if total < 1.0 {
      pairs, nPairs, total := AddImplicitZero(pairs, nPairs, total);
    } else {
      NoImplicitZero(PositivePairs(vs, ws));
      assert nPairs != 0;
    }
  }

  /**
   * The sparse step: a buffer one slot longer holding the n pairs and then
   * (0, 1 - total), whose weights sum to 1.
   */
  method AddImplicitZero(pairs: array<ValueWeight>, n: nat, total: real)
    returns (grown: array<ValueWeight>, n': nat, total': real)
    requires n <= pairs.Length && total == TotalWeight(pairs[..n]) && total < 1.0
    ensures fresh(grown) && grown.Length == n' && n' == n + 1
    ensures grown[..n'] == WithImplicitZero(pairs[..n]) && total' == TotalWeight(grown[..n']) && total' == 1.0
  {
    ghost var positive := pairs[..n];
    grown := Grown(pairs, n);
    grown[n] := ValueWeight(0.0, 1.0 - total);
    assert grown[..n + 1] == positive + [ValueWeight(0.0, 1.0 - total)];
    ImplicitZeroAdded(positive);
    n', total' := n + 1, 1.0;
  }

  /** `repalloc` to n + 1 slots: a fresh buffer whose first n records are those of the old one. */
  method Grown(pairs: array<ValueWeight>, n: nat) returns (grown: array<ValueWeight>)
    requires n <= pairs.Length
    ensures fresh(grown) && grown.Length == n + 1 && grown[..n] == pairs[..n]
  {
    grown := new ValueWeight[n + 1](_ => ValueWeight(0.0, 0.0));
    for i := 0 to n
      invariant grown[..i] == pairs[..i]
    {
      grown[i] := pairs[i];
      assert grown[..i + 1] == grown[..i] + [grown[i]];
      assert pairs[..i + 1] == pairs[..i] + [pairs[i]];
    }
  }

  // ---------------------------------------------------------------------
  // The linear scan.
  // ---------------------------------------------------------------------

  /**
   * The result for one probability. The first value answers q <= 0 and any
   * target within the first weight, then the last value answers q >= 1;
   * otherwise the linear scan answers. The result is the quantile of the
   * pairs at q, the value the binary search of the newer entry point finds,
   * for every q.
   */
  method ReiaQuantileAt(pairs: array<ValueWeight>, n: nat, total: real, q: real) returns (v: real)
    requires 0 < n <= pairs.Length && Closed(pairs[..n]) && total == TotalWeight(pairs[..n])
    ensures v == Quantile(pairs[..n], q)
  {
    ghost var sp := pairs[..n];
    var target := q * total;
    if q <= 0.0 || target <= pairs[0].weight {
      if q >= 1.0 {
        EdgeOrderHarmless(sp, q);
      } else if q > 0.0 {
        QuantileInterior(sp, q, target);
      }
      return pairs[0].value;
    } else if q >= 1.0 {
      return pairs[n - 1].value;
    }
    QuantileInterior(sp, q, target);
    TargetBelowTotal(sp, q, target);
    v := ScanAndInterpolate(pairs, n, target);
  }

  /**
   * The scan: adds one weight at a time and stops at the first running sum
   * that reaches the target, taking that value when the sum is hit exactly
   * and otherwise interpolating from the previous value by
   * (target - previous sum) / weight. For a real target inside the
   * distribution the default 0.0 is never returned: the last running sum is
   * the total, which exceeds the target. (A NaN probability, which the model
   * does not represent, fails every test and does return that 0.0.)
   */
  method ScanAndInterpolate(pairs: array<ValueWeight>, n: nat, target: real) returns (v: real)
    requires 0 < n <= pairs.Length && Closed(pairs[..n]) && pairs[0].weight < target < TotalWeight(pairs[..n])
    ensures v == ValueAtWeight(pairs[..n], target)
  {
    ghost var sp := pairs[..n];
    ghost var pos := SearchPosition(sp, target);
    var cumsum := 0.0;
    var i := 0;
    while i < n
      invariant i <= pos
      invariant cumsum == TotalWeight(sp[..i])
    {
      var prevCumsum := cumsum;
      cumsum := cumsum + pairs[i].weight;
      ScanStep(sp, target, i, prevCumsum);
      if cumsum >= target {
        ScanValue(sp, target, i, prevCumsum);
        if i == 0 || cumsum == target {
          return pairs[i].value;
        }
        var lowerVal := pairs[i - 1].value;
        var upperVal := pairs[i].value;
        var interpFactor := (target - prevCumsum) / pairs[i].weight;
        return Lerp(lowerVal, upperVal, interpFactor);
      }
      i := i + 1;
    }
    // The scan returns at pos at the latest.
    assert false;
  }

  /**
   * One step of the scan, before or at the step the search finds: the
   * running sum becomes the next running sum, and it reaches the target
   * exactly at that step.
   */
  lemma ScanStep(sp: seq<ValueWeight>, t: real, i: nat, prev: real)
    requires Closed(sp) && sp[0].weight < t < TotalWeight(sp)
    requires i <= SearchPosition(sp, t) && prev == TotalWeight(sp[..i])
    ensures prev + sp[i].weight == TotalWeight(sp[..i + 1])
    ensures prev + sp[i].weight >= t <==> i == SearchPosition(sp, t)
  {
    SearchFindsStep(sp, t);
    RunningSumAt(sp, i);
  }

  /**
   * At the step the search finds, the scan's value is the quantile value:
   * the step is not the first, and the value there is taken when its sum
   * hits the target and interpolated by (t - previous sum) / weight otherwise.
   */
  lemma ScanValue(sp: seq<ValueWeight>, t: real, i: nat, prev: real)
    requires Closed(sp) && sp[0].weight < t < TotalWeight(sp)
    requires i == SearchPosition(sp, t) && prev == TotalWeight(sp[..i])
    ensures i > 0
    ensures ValueAtWeight(sp, t) == if prev + sp[i].weight == t then sp[i].value
                                    else Lerp(sp[i - 1].value, sp[i].value, (t - prev) / sp[i].weight)
  {
    ValueInStep(sp, t);
    RunningSumAt(sp, i);
    FractionOfStep(prev, sp[i].weight, t);
    if prev + sp[i].weight == t {
      FractionBounds(prev, prev + sp[i].weight, t);
    }
  }

  /** Running sum i is the weight of the first i + 1 pairs: the one before it plus weight i. */
  lemma RunningSumAt(sp: seq<ValueWeight>, i: nat)
    requires i < |sp|
    ensures CumulativeWeights(sp)[i] == TotalWeight(sp[..i + 1]) == TotalWeight(sp[..i]) + sp[i].weight
    ensures i > 0 ==> CumulativeWeights(sp)[i - 1] == TotalWeight(sp[..i])
  {
    CumulativeWeightsFacts(sp);
    assert sp[..i + 1][..i] == sp[..i];
  }

  /** The fraction of a step of width w from c0 is the distance from c0 over w. */
  lemma FractionOfStep(c0: real, w: real, t: real)
    requires w > 0.0
    ensures Fraction(c0, c0 + w, t) == (t - c0) / w
  {
    assert (c0 + w) - c0 == w;
  }

  /**
   * The first value answers before the test for q >= 1, which is harmless:
   * at q >= 1 the target is within the first weight only when the first
   * pair is the only one, so the first value is also the last.
   */
  lemma EdgeOrderHarmless(sp: seq<ValueWeight>, q: real)
    requires Closed(sp) && q >= 1.0 && q * TotalWeight(sp) <= sp[0].weight
    ensures |sp| == 1
  {
    TotalWeightPositive(sp);
    AtLeastWhole(q, TotalWeight(sp), q * TotalWeight(sp));
    if |sp| > 1 {
      CumulativeRisesPast(sp);
    }
  }

  /** A multiple q >= 1 of a positive amount is at least that amount. */
  lemma AtLeastWhole(q: real, d: real, t: real)
    requires q >= 1.0 && d > 0.0 && t == q * d
    ensures t >= d
  {
    MulAboveOne(q, d);
  }

  /** With two pairs or more, the total exceeds the first weight. */
  lemma CumulativeRisesPast(sp: seq<ValueWeight>)
    requires Closed(sp) && |sp| > 1
    ensures sp[0].weight < TotalWeight(sp)
  {
    CumulativeWeightsFacts(sp);
    assert CumulativeWeights(sp)[0] < CumulativeWeights(sp)[|sp| - 1];
  }

  /** One result per probability, in argument order. */
  method ReiaQuantilesOf(pairs: array<ValueWeight>, n: nat, total: real, probs: seq<real>) returns (res: seq<real>)
    requires 0 < n <= pairs.Length && Closed(pairs[..n]) && total == TotalWeight(pairs[..n])
    ensures |res| == |probs| && forall i :: 0 <= i < |probs| ==> res[i] == Quantile(pairs[..n], probs[i])
  {
    var out := new real[|probs|];
    for k := 0 to |probs|
      invariant forall i :: 0 <= i < k ==> out[i] == Quantile(pairs[..n], probs[i])
    {
      out[k] := ReiaQuantileAt(pairs, n, total, probs[k]);
    }
    res := out[..];
  }

  /**
   * `weighted_quantile(values, weights, quantiles)` of the oldest variant.
   * A NULL values or weights argument gives one 0.0 per probability; a
   * length mismatch is an error; otherwise each result is the quantile of
   * the closed pairs, in the order `qsort` left them, at that probability,
   * NULL read as 0.0 and nothing rejected.
   */
  method ReiaQuantileSparse(values: SqlArray<real>, weights: SqlArray<real>, quantiles: SqlArray<real>)
    returns (r: Outcome<seq<real>>, ghost sorted: seq<ValueWeight>)
    requires quantiles.Some?
    ensures values.None? || weights.None? ==> r == Return(Zeros(|quantiles.value|))
    ensures values.Some? && weights.Some? && |values.value| != |weights.value| ==> r == Raise(LengthMismatch)
    ensures values.Some? && weights.Some? && |values.value| == |weights.value| ==>
      var probs := NullsToZero(quantiles.value, 0.0);
      multiset(sorted) == multiset(ClosedPairs(NullsToZero(values.value, 0.0), NullsToZero(weights.value, 0.0)))
      && SortedByValue(sorted) && Closed(sorted)
      && r.Return? && |r.value| == |probs|
      && forall i :: 0 <= i < |probs| ==> r.value[i] == Quantile(sorted, probs[i])
  {
    sorted := [];
    if values.None? || weights.None? {
      return Return(Zeros(|quantiles.value|)), sorted;
    }
    var probs := CopyProbabilities(quantiles.value);
    var columns := ExtractDoubleArrays(values.value, weights.value, 0.0);
    if columns.Raise? {
      return Raise(columns.error), sorted;
    }
    var vs, ws := columns.value.vals, columns.value.weights;
    var pairs, nPairs, total := ReiaClosedPairs(vs, ws);
    ghost var closed := pairs[..nPairs];
    ClosedPairsShape(vs, ws);
    ComparisonSort(pairs, nPairs);
    sorted := pairs[..nPairs];
    TotalWeightPermutation(closed, sorted);
    PermutationKeepsPositive(closed, sorted);
    var res := ReiaQuantilesOf(pairs, nPairs, total, probs);
    return Return(res), sorted;
  }

  /**
   * `qsort` leaves equal values in an unspecified order, and that order
   * reaches the result: two sorted orders of the same three pairs give
   * different interpolated quantiles at 0.6.
   */
  lemma TieOrderMatters(s: seq<ValueWeight>, t: seq<ValueWeight>)
    requires s == [ValueWeight(0.0, 0.5), ValueWeight(1.0, 0.2), ValueWeight(1.0, 0.3)]
    requires t == [ValueWeight(0.0, 0.5), ValueWeight(1.0, 0.3), ValueWeight(1.0, 0.2)]
    ensures multiset(s) == multiset(t) && SortedByValue(s) && SortedByValue(t) && Closed(s) && Closed(t)
    ensures Quantile(s, 0.6) == 0.5 && Quantile(t, 0.6) == 1.0 / 3.0
  {
    LastTwoSwapped(s[0], s[1], s[2]);
    StepAtPointSix(s, 0.2, 0.5);
    StepAtPointSix(t, 0.3, 1.0 / 3.0);
  }

  /** Swapping the last two of three records keeps the multiset. */
  lemma LastTwoSwapped(a: ValueWeight, b: ValueWeight, c: ValueWeight)
    ensures multiset([a, b, c]) == multiset([a, c, b])
  {
    assert [a, b, c] == [a] + [b] + [c] && [a, c, b] == [a] + [c] + [b];
  }

  /**
   * Over (0, 0.5), (1, w), (1, 0.5 - w) the target 0.6 falls in the second
   * step, at fraction r = 0.1 / w of it, and the quantile is r.
   */
  lemma StepAtPointSix(s: seq<ValueWeight>, w: real, r: real)
    requires 0.1 < w < 0.5 && s == [ValueWeight(0.0, 0.5), ValueWeight(1.0, w), ValueWeight(1.0, 0.5 - w)]
    requires r == 0.1 / w
    ensures SortedByValue(s) && Closed(s) && Quantile(s, 0.6) == r
  {
    assert TotalWeight(s[..1]) == 0.5 by {
      assert s[..1][..0] == [];
    }
    assert TotalWeight(s[..2]) == 0.5 + w by {
      assert s[..2][..1] == s[..1];
    }
    assert TotalWeight(s) == 1.0 by {
      assert s[..2] == s[..|s| - 1];
    }
    CumulativeWeightsFacts(s);
    var cum := CumulativeWeights(s);
    assert cum[0] == 0.5 && cum[1] == 0.5 + w;
    ValueInStep(s, 0.6);
    assert SearchPosition(s, 0.6) == 1;
  }
}
