/**
 * `weighted_quantile`: the empirical-CDF quantile of the closed (value,
 * weight) distribution. The probabilities are validated first; the pairs
 * are built, sorted and summed; each probability then picks the first
 * running sum that reaches its share of the total weight and interpolates
 * linearly inside that step.
 */
module EmpiricalQuantile {
  import opened Wrappers
  import opened Pairs
  import opened SparsePairs
  import opened RadixKeys
  import opened Sorting
  import opened Extract
  import opened RealArith

  // ---------------------------------------------------------------------
  // Probabilities.
  // ---------------------------------------------------------------------

  /** A probability argument passes the check: NULL (read as 0.0) or a finite value in [0, 1]. */
  predicate ValidProbability(q: Option<Double>)
  {
    q.None? || (q.value.Finite? && 0.0 <= q.value.r <= 1.0)
  }

  predicate AllValid(qs: seq<Option<Double>>)
  {
    forall i :: 0 <= i < |qs| ==> ValidProbability(qs[i])
  }

  /** The probability a valid argument stands for. */
  function ProbabilityValue(q: Option<Double>): (p: real)
    requires ValidProbability(q)
    ensures 0.0 <= p <= 1.0
    ensures q.None? ==> p == 0.0
  {
    if q.None? then 0.0 else q.value.r
  }

  /**
   * The validation loop: an entry below 0, above 1, NaN or infinite aborts
   * the call; otherwise the probabilities are returned in argument order.
   */
  method ReadProbabilities(qs: seq<Option<Double>>) returns (r: Outcome<seq<real>>)
    ensures !AllValid(qs) <==> r == Raise(InvalidProbability)
    ensures AllValid(qs) ==>
      r.Return? && |r.value| == |qs| && forall i :: 0 <= i < |qs| ==> r.value[i] == ProbabilityValue(qs[i])
  {
    var quantiles := new real[|qs|];
    for i := 0 to |qs|
      invariant forall j :: 0 <= j < i ==> ValidProbability(qs[j]) && quantiles[j] == ProbabilityValue(qs[j])
    {
      var q := if qs[i].None? then 0.0 else if qs[i].value.Finite? then qs[i].value.r else -1.0;
      if q < 0.0 || q > 1.0 || (qs[i].Some? && !qs[i].value.Finite?) {
        return Raise(InvalidProbability);
      }
      quantiles[i] := q;
    }
    return Return(quantiles[..]);
  }

  // ---------------------------------------------------------------------
  // The quantile of a sorted closed distribution.
  // ---------------------------------------------------------------------

  /** `lower + f * (upper - lower)`. */
  function Lerp(lower: real, upper: real, f: real): real
  {
    lower + f * (upper - lower)
  }

  /** A fraction in [0, 1] interpolates between the two values, reaching the upper one at 1. */
  lemma LerpBetween(lower: real, upper: real, f: real)
    requires lower <= upper && 0.0 <= f <= 1.0
    ensures lower <= Lerp(lower, upper, f) <= upper
    ensures f == 1.0 ==> Lerp(lower, upper, f) == upper
  {
    MulNonNegative(f, upper - lower);
    MulAtMostOne(f, upper - lower);
  }

  /** Between the same two values, a larger fraction interpolates no lower. */
  lemma LerpMonotone(lower: real, upper: real, f: real, g: real)
    requires lower <= upper && f <= g
    ensures Lerp(lower, upper, f) <= Lerp(lower, upper, g)
  {
    MulMonotone(f, g, upper - lower);
  }

  /** Where `t` falls inside the step from running sum c0 to c1. */
  function Fraction(c0: real, c1: real, t: real): real
    requires c0 < c1
  {
    (t - c0) / (c1 - c0)
  }

  /** A target inside the step gives a fraction in (0, 1], and exactly 1 at the step's end. */
  lemma FractionBounds(c0: real, c1: real, t: real)
    requires c0 < t <= c1
    ensures 0.0 < Fraction(c0, c1, t) <= 1.0
    ensures t == c1 ==> Fraction(c0, c1, t) == 1.0
  {
    DivBounds(t - c0, c1 - c0);
  }

  /** A larger target lies no earlier inside the same step. */
  lemma FractionMonotone(c0: real, c1: real, t: real, u: real)
    requires c0 < c1 && t <= u
    ensures Fraction(c0, c1, t) <= Fraction(c0, c1, u)
  {
    DivMonotone(t - c0, u - c0, c1 - c0);
  }

  /**
   * The index the search settles on: the first running sum that reaches t,
   * or the last index when none does.
   */
  function SearchPosition(sp: seq<ValueWeight>, t: real): (pos: nat)
    requires Closed(sp)
    ensures pos < |sp|
  {
    var found := FirstAtLeast(CumulativeWeights(sp), t);
    if found < |sp| then found else |sp| - 1
  }

  /**
   * The empirical quantile of the pairs at probability q: the first value
   * from q = 0 down and the last from q = 1 up; in between, the value the
   * target weight q * total reaches.
   */
  function Quantile(sp: seq<ValueWeight>, q: real): real
    requires Closed(sp)
  {
    if q <= 0.0 then sp[0].value
    else if q >= 1.0 then sp[|sp| - 1].value
    else ValueAtWeight(sp, q * TotalWeight(sp))
  }

  /**
   * The value a target weight t reaches: the first value while t is within
   * the first weight; otherwise the value whose running sum first reaches t,
   * interpolated from the previous value unless that sum is hit exactly.
   */
  function ValueAtWeight(sp: seq<ValueWeight>, t: real): real
    requires Closed(sp)
  {
    if t <= sp[0].weight then sp[0].value
    else
      var cum := CumulativeWeights(sp);
      var pos := SearchPosition(sp, t);
      if pos == 0 || cum[pos] == t then sp[pos].value
      else
        CumulativeRises(sp, pos);
        Lerp(sp[pos - 1].value, sp[pos].value, Fraction(cum[pos - 1], cum[pos], t))
  }

  /**
   * A target past the first weight and below the total is reached by a
   * running sum, not the first one, and the step before it stays below.
   */
  lemma SearchFindsStep(sp: seq<ValueWeight>, t: real)
    requires Closed(sp) && sp[0].weight < t < TotalWeight(sp)
    ensures var cum := CumulativeWeights(sp); var pos := SearchPosition(sp, t);
      0 < pos && pos == FirstAtLeast(cum, t) && cum[pos - 1] < t <= cum[pos]
  {
    CumulativeEnds(sp);
    var cum := CumulativeWeights(sp);
    var found := FirstAtLeast(cum, t);
    assert cum[|sp| - 1] >= t;
  }

  /**
   * Past the first weight and below the total, the value is the
   * interpolation inside the step the search finds.
   */
  lemma ValueInStep(sp: seq<ValueWeight>, t: real)
    requires Closed(sp) && sp[0].weight < t < TotalWeight(sp)
    ensures var cum := CumulativeWeights(sp); var pos := SearchPosition(sp, t);
      0 < pos && cum[pos - 1] < t <= cum[pos]
      && ValueAtWeight(sp, t) == Lerp(sp[pos - 1].value, sp[pos].value, Fraction(cum[pos - 1], cum[pos], t))
  {
    SearchFindsStep(sp, t);
    var pos := SearchPosition(sp, t);
    var cum := CumulativeWeights(sp);
    if cum[pos] == t {
      FractionBounds(cum[pos - 1], cum[pos], t);
      assert Lerp(sp[pos - 1].value, sp[pos].value, 1.0) == sp[pos].value;
    }
  }

  /** The target weight of a probability strictly inside (0, 1) is strictly between 0 and the total. */
  lemma TargetBelowTotal(sp: seq<ValueWeight>, q: real, t: real)
    requires Closed(sp) && 0.0 < q < 1.0 && t == q * TotalWeight(sp)
    ensures 0.0 < t < TotalWeight(sp)
  {
    TotalWeightPositive(sp);
    MulFraction(q, TotalWeight(sp), t);
  }

  /** Strictly inside (0, 1) the quantile is the value its target weight reaches. */
  lemma QuantileInterior(sp: seq<ValueWeight>, q: real, t: real)
    requires Closed(sp) && 0.0 < q < 1.0 && t == q * TotalWeight(sp)
    ensures Quantile(sp, q) == ValueAtWeight(sp, t)
  {
    var u := q * TotalWeight(sp);
    assert Quantile(sp, q) == ValueAtWeight(sp, u);
    assert u == t;
  }

  /** Over sorted pairs the value inside a step lies between the step's two values. */
  lemma ValueBetweenNeighbours(sp: seq<ValueWeight>, t: real)
    requires Closed(sp) && SortedByValue(sp) && sp[0].weight < t < TotalWeight(sp)
    ensures var pos := SearchPosition(sp, t);
      0 < pos && sp[pos - 1].value <= ValueAtWeight(sp, t) <= sp[pos].value
  {
    ValueInStep(sp, t);
    var cum := CumulativeWeights(sp);
    var pos := SearchPosition(sp, t);
    FractionBounds(cum[pos - 1], cum[pos], t);
    LerpBetween(sp[pos - 1].value, sp[pos].value, Fraction(cum[pos - 1], cum[pos], t));
  }

  /** Over sorted pairs every target weight below the total reaches a value between the extremes. */
  lemma ValueWithinRange(sp: seq<ValueWeight>, t: real)
    requires Closed(sp) && SortedByValue(sp) && t < TotalWeight(sp)
    ensures sp[0].value <= ValueAtWeight(sp, t) <= sp[|sp| - 1].value
  {
    if t > sp[0].weight {
      ValueBetweenNeighbours(sp, t);
      var pos := SearchPosition(sp, t);
      assert sp[0].value <= sp[pos - 1].value && sp[pos].value <= sp[|sp| - 1].value;
    }
  }

  /** Over sorted pairs every quantile lies between the smallest and the largest value. */
  lemma QuantileWithinRange(sp: seq<ValueWeight>, q: real)
    requires Closed(sp) && SortedByValue(sp)
    ensures sp[0].value <= Quantile(sp, q) <= sp[|sp| - 1].value
  {
    if 0.0 < q < 1.0 {
      QuantileInterior(sp, q, q * TotalWeight(sp));
      TargetBelowTotal(sp, q, q * TotalWeight(sp));
      ValueWithinRange(sp, q * TotalWeight(sp));
    }
  }

  /** Two targets inside the same step interpolate in order. */
  lemma SameStepMonotone(sp: seq<ValueWeight>, t1: real, t2: real)
    requires Closed(sp) && SortedByValue(sp) && sp[0].weight < t1 <= t2 < TotalWeight(sp)
    requires SearchPosition(sp, t1) == SearchPosition(sp, t2)
    ensures ValueAtWeight(sp, t1) <= ValueAtWeight(sp, t2)
  {
    ValueInStep(sp, t1);
    ValueInStep(sp, t2);
    var cum := CumulativeWeights(sp);
    var p := SearchPosition(sp, t1);
    FractionMonotone(cum[p - 1], cum[p], t1, t2);
    LerpMonotone(sp[p - 1].value, sp[p].value, Fraction(cum[p - 1], cum[p], t1), Fraction(cum[p - 1], cum[p], t2));
  }

  /** Over sorted pairs a larger target weight never reaches a smaller value. */
  lemma ValueMonotone(sp: seq<ValueWeight>, t1: real, t2: real)
    requires Closed(sp) && SortedByValue(sp) && t1 <= t2 < TotalWeight(sp)
    ensures ValueAtWeight(sp, t1) <= ValueAtWeight(sp, t2)
  {
    if t1 <= sp[0].weight {
      ValueWithinRange(sp, t2);
    } else {
      assert SearchPosition(sp, t1) <= SearchPosition(sp, t2) by {
        SearchFindsStep(sp, t1);
        SearchFindsStep(sp, t2);
        FirstAtLeastMonotone(CumulativeWeights(sp), t1, t2);
      }
      if SearchPosition(sp, t1) < SearchPosition(sp, t2) {
        LaterStepMonotone(sp, t1, t2);
      } else {
        SameStepMonotone(sp, t1, t2);
      }
    }
  }

  /** A target in a later step reaches at least every value of an earlier step. */
  lemma LaterStepMonotone(sp: seq<ValueWeight>, t1: real, t2: real)
    requires Closed(sp) && SortedByValue(sp) && sp[0].weight < t1 <= t2 < TotalWeight(sp)
    requires SearchPosition(sp, t1) < SearchPosition(sp, t2)
    ensures ValueAtWeight(sp, t1) <= ValueAtWeight(sp, t2)
  {
    var p1, p2 := SearchPosition(sp, t1), SearchPosition(sp, t2);
    assert ValueAtWeight(sp, t1) <= sp[p1].value by {
      ValueBetweenNeighbours(sp, t1);
    }
    assert sp[p2 - 1].value <= ValueAtWeight(sp, t2) by {
      ValueBetweenNeighbours(sp, t2);
    }
    assert sp[p1].value <= sp[p2 - 1].value;
  }

  lemma TargetsOrdered(sp: seq<ValueWeight>, q1: real, q2: real, t1: real, t2: real)
    requires Closed(sp) && q1 <= q2 && t1 == q1 * TotalWeight(sp) && t2 == q2 * TotalWeight(sp)
    ensures t1 <= t2
  {
    var w := TotalWeight(sp);
    assert w > 0.0 by {
      TotalWeightPositive(sp);
    }
    MulMonotone(q1, q2, w);
  }

  /** Monotone in the probability: a larger q never gives a smaller quantile. */
  lemma QuantileMonotone(sp: seq<ValueWeight>, q1: real, q2: real)
    requires Closed(sp) && SortedByValue(sp) && q1 <= q2
    ensures Quantile(sp, q1) <= Quantile(sp, q2)
  {
    if q1 <= 0.0 {
      QuantileWithinRange(sp, q2);
    } else if q2 >= 1.0 {
      QuantileWithinRange(sp, q1);
    } else {
      var t1, t2 := q1 * TotalWeight(sp), q2 * TotalWeight(sp);
      assert Quantile(sp, q1) == ValueAtWeight(sp, t1) && Quantile(sp, q2) == ValueAtWeight(sp, t2) by {
        QuantileInterior(sp, q1, t1);
        QuantileInterior(sp, q2, t2);
      }
      assert t1 <= t2 < TotalWeight(sp) by {
        TargetBelowTotal(sp, q2, t2);
        TargetsOrdered(sp, q1, q2, t1, t2);
      }
      ValueMonotone(sp, t1, t2);
    }
  }

  // ---------------------------------------------------------------------
  // The C procedure.
  // ---------------------------------------------------------------------

  /** The result for one probability, by the edge tests and the binary search of the C code. */
  method QuantileAt(pairs: array<ValueWeight>, n: nat, cum: array<real>, total: real, q: real) returns (v: real)
    requires 0 < n <= pairs.Length && Closed(pairs[..n])
    requires cum[..] == CumulativeWeights(pairs[..n]) && total == TotalWeight(pairs[..n])
    ensures v == Quantile(pairs[..n], q)
  {
    ghost var sp := pairs[..n];
    var t := q * total;
    if q <= 0.0 {
      return pairs[0].value;
    } else if q >= 1.0 {
      return pairs[n - 1].value;
    }
    QuantileInterior(sp, q, t);
    if t <= pairs[0].weight {
      return pairs[0].value;
    }
    TargetBelowTotal(sp, q, t);
    v := SearchAndInterpolate(pairs, n, cum, t);
  }

  /** The binary search for the step that reaches t, then the exact value or the interpolation. */
  method SearchAndInterpolate(pairs: array<ValueWeight>, n: nat, cum: array<real>, t: real) returns (v: real)
    requires 0 < n <= pairs.Length && Closed(pairs[..n])
    requires cum[..] == CumulativeWeights(pairs[..n]) && pairs[0].weight < t < TotalWeight(pairs[..n])
    ensures v == ValueAtWeight(pairs[..n], t)
  {
    ghost var sp := pairs[..n];
    SearchFindsStep(sp, t);
    CumulativeNonDecreasing(sp);
    CumulativeEnds(sp);
    assert cum[..n] == cum[..];
    var pos := BinarySearch(cum, n, t);
    BinarySearchIsFirstAtLeast(cum[..], t, pos);
    if pos == 0 || cum[pos] == t {
      v := pairs[pos].value;
    } else {
      var prevCumsum := cum[pos - 1];
      var currCumsum := cum[pos];
      var lowerVal := pairs[pos - 1].value;
      var upperVal := pairs[pos].value;
      var interpFactor := (t - prevCumsum) / (currCumsum - prevCumsum);
      v := lowerVal + interpFactor * (upperVal - lowerVal);
    }
  }

  /** The quantile loop: one result per probability, in argument order. */
  method QuantilesOf(pairs: array<ValueWeight>, n: nat, cum: array<real>, total: real, probs: seq<real>)
    returns (res: seq<real>)
    requires 0 < n <= pairs.Length && Closed(pairs[..n])
    requires cum[..] == CumulativeWeights(pairs[..n]) && total == TotalWeight(pairs[..n])
    ensures |res| == |probs| && forall i :: 0 <= i < |probs| ==> res[i] == Quantile(pairs[..n], probs[i])
  {
    var out := new real[|probs|];
    for k := 0 to |probs|
      invariant forall i :: 0 <= i < k ==> out[i] == Quantile(pairs[..n], probs[i])
    {
      out[k] := QuantileAt(pairs, n, cum, total, probs[k]);
    }
    res := out[..];
  }

  /** The values a (values, weights) input can put into the closed pairs: its own and the implicit 0. */
  function PairValues(vs: seq<real>): set<real>
  {
    (set i | 0 <= i < |vs| :: vs[i]) + {0.0}
  }

  /**
   * `weighted_quantile(values, weights, quantiles)`. A NULL values or weights
   * argument gives one 0.0 per probability; an invalid probability and then
   * a length mismatch are errors; otherwise each result is the quantile, at
   * that probability, of the closed pairs in the order the sort left them.
   * Equal values may be left in any order, so the ghost result `sorted`
   * names that order: a sorted permutation of the closed pairs.
   */
  method WeightedQuantileSparse(values: SqlArray<real>, weights: SqlArray<real>, quantiles: SqlArray<Double>,
                                bitsOf: real -> U64)
    returns (r: Outcome<seq<real>>, ghost sorted: seq<ValueWeight>)
    requires quantiles.Some?
    requires values.Some? ==> EncodesValues(bitsOf, PairValues(NullsToZero(values.value, 0.0)))
    ensures values.None? || weights.None? ==> r == Return(Zeros(|quantiles.value|))
    ensures values.Some? && weights.Some? && !AllValid(quantiles.value) ==> r == Raise(InvalidProbability)
    ensures values.Some? && weights.Some? && AllValid(quantiles.value) && |values.value| != |weights.value| ==>
      r == Raise(LengthMismatch)
    ensures values.Some? && weights.Some? && AllValid(quantiles.value) && |values.value| == |weights.value| ==>
      var qs := quantiles.value;
      multiset(sorted) == multiset(ClosedPairs(NullsToZero(values.value, 0.0), NullsToZero(weights.value, 0.0)))
      && SortedByValue(sorted) && Closed(sorted)
      && r.Return? && |r.value| == |qs|
      && forall i :: 0 <= i < |qs| ==> r.value[i] == Quantile(sorted, ProbabilityValue(qs[i]))
  {
    sorted := [];
    if values.None? || weights.None? {
      return Return(Zeros(|quantiles.value|)), sorted;
    }
    var probs := ReadProbabilities(quantiles.value);
    if probs.Raise? {
      return probs, sorted;
    }
    var columns := ExtractDoubleArrays(values.value, weights.value, 0.0);
    if columns.Raise? {
      return Raise(columns.error), sorted;
    }
    var res;
    res, sorted := QuantilesOfColumns(columns.value.vals, columns.value.weights, probs.value, bitsOf);
    return Return(res), sorted;
  }

  /**
   * The work after validation: build the closed pairs, sort them, sum them
   * and take one quantile per probability.
   */
  method QuantilesOfColumns(vs: seq<real>, ws: seq<real>, probs: seq<real>, bitsOf: real -> U64)
    returns (res: seq<real>, ghost sorted: seq<ValueWeight>)
    requires |vs| == |ws| && EncodesValues(bitsOf, PairValues(vs))
    ensures multiset(sorted) == multiset(ClosedPairs(vs, ws)) && SortedByValue(sorted) && Closed(sorted)
    ensures |res| == |probs| && forall i :: 0 <= i < |probs| ==> res[i] == Quantile(sorted, probs[i])
  {
    var pairs, nPairs, total;
    pairs, nPairs, total, sorted := SortedClosedPairs(vs, ws, bitsOf);
    var cum := CumulativeWeightsOf(pairs, nPairs);
    res := QuantilesOf(pairs, nPairs, cum, total, probs);
  }

  /**
   * Pair building, the implicit zero and the sort, shared by the three
   * quantile entry points: a fresh buffer whose first nPairs records are a
   * sorted permutation of the closed pairs, and their total weight.
   */
  method SortedClosedPairs(vs: seq<real>, ws: seq<real>, bitsOf: real -> U64)
    returns (pairs: array<ValueWeight>, nPairs: nat, total: real, ghost sorted: seq<ValueWeight>)
    requires |vs| == |ws| && EncodesValues(bitsOf, PairValues(vs))
    ensures fresh(pairs) && 0 < nPairs <= pairs.Length && sorted == pairs[..nPairs]
    ensures multiset(sorted) == multiset(ClosedPairs(vs, ws)) && SortedByValue(sorted) && Closed(sorted)
    ensures total == TotalWeight(sorted) && total >= 1.0
  {
    pairs, nPairs, total := BuildClosedPairs(vs, ws);
    ghost var closed := pairs[..nPairs];
    ClosedPairsShape(vs, ws);
    ClosedPairsValues(vs, ws);
    EncodesValuesOrder(closed, bitsOf, PairValues(vs));
    OptimizedSort(pairs, nPairs, bitsOf);
    sorted := pairs[..nPairs];
    TotalWeightPermutation(closed, sorted);
    PermutationKeepsPositive(closed, sorted);
  }

  lemma PermutationKeepsPositive(s: seq<ValueWeight>, t: seq<ValueWeight>)
    requires AllPositive(s) && multiset(s) == multiset(t)
    ensures AllPositive(t)
  {
    forall i | 0 <= i < |t| ensures t[i].weight > 0.0 {
      assert t[i] in multiset(s);
    }
  }
}
