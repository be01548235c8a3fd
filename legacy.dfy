/**
 * The monolithic variant of the extension, `src/weighted_statistics.c`: a
 * mean that hands back the weighted sum without dividing it, and a quantile
 * entry point that reads its probabilities without checking their range.
 * Its array extraction is Extract's; its sort dispatch is Sorting's (its
 * sign-bit transform computes the same key, RadixKeys.LegacyKeySame, and
 * its counting sort never reaches a bucket out of range,
 * Sorting.BucketInRange).
 */
module Legacy {
  import opened Wrappers
  import opened Pairs
  import opened RadixKeys
  import opened Sorting
  import opened Extract
  import opened Moments
  import opened EmpiricalQuantile

  // ---------------------------------------------------------------------
  // The mean.
  // ---------------------------------------------------------------------

  /**
   * `weighted_mean(values, weights)` of the monolithic variant. A NULL
   * argument gives 0.0, a length mismatch is an error, empty arrays give
   * 0.0, and otherwise the result is the sum of value * weight over the
   * entries of positive weight: negative weights are skipped, not rejected,
   * and the sum is not divided by the total weight.
   */
  method UndividedMean(values: SqlArray<real>, weights: SqlArray<real>) returns (r: Outcome<real>)
    ensures values.None? || weights.None? ==> r == Return(0.0)
    ensures values.Some? && weights.Some? && |values.value| != |weights.value| ==> r == Raise(LengthMismatch)
    ensures values.Some? && weights.Some? && |values.value| == |weights.value| ==>
      r == Return(WeightedSum(PositivePairs(NullsToZero(values.value, 0.0), NullsToZero(weights.value, 0.0))))
  {
    if values.None? || weights.None? {
      return Return(0.0);
    }
    var columns := ExtractDoubleArrays(values.value, weights.value, 0.0);
    if columns.Raise? {
      return Raise(columns.error);
    }
    if |columns.value.vals| == 0 {
      assert PositivePairs(columns.value.vals, columns.value.weights) == [];
      return Return(0.0);
    }
    var sum := SumWeightedValues(columns.value.vals, columns.value.weights);
    return Return(sum);
  }

  /**
   * The undivided sum is the mean while the positive weights sum to at most
   * 1 (the sparse inputs the variant was written for); past that the mean
   * is the sum divided by the total weight, which the variant leaves out.
   */
  lemma UndividedSumVersusMean(vs: seq<real>, ws: seq<real>)
    requires |vs| == |ws|
    ensures TotalWeight(PositivePairs(vs, ws)) <= 1.0 ==> WeightedSum(PositivePairs(vs, ws)) == MeanOf(vs, ws)
    ensures TotalWeight(PositivePairs(vs, ws)) >= 1.0 ==>
      MeanOf(vs, ws) == WeightedSum(PositivePairs(vs, ws)) / TotalWeight(PositivePairs(vs, ws))
  {
    if TotalWeight(PositivePairs(vs, ws)) <= 1.0 {
      MeanUnderUnitMass(vs, ws);
    } else {
      MeanAtFullMass(vs, ws);
    }
  }

  /**
   * A single value 2 of weight 2: the undivided sum is 4 while the mean,
   * and the newer entry point, give 2.
   */
  lemma UndividedMeanOverFullMass()
    ensures WeightedSum(PositivePairs([2.0], [2.0])) == 4.0
    ensures MeanOf([2.0], [2.0]) == 2.0
  {
    var ps := PositivePairs([2.0], [2.0]);
    assert PositivePairs([2.0], [2.0]) == PositivePairs([], []) + [ValueWeight(2.0, 2.0)] by {
      PositivePairsSnoc([], [], 2.0, 2.0);
      assert [] + [2.0] == [2.0];
    }
    assert ps == [ValueWeight(2.0, 2.0)];
    WeightedSumSingle(ps[0]);
    assert TotalWeight(ps) == TotalWeight(ps[..0]) + 2.0;
    NoImplicitZero(ps);
    assert WeightedSum(ps) / TotalWeight(ps) == 4.0 / 2.0;
  }

  // ---------------------------------------------------------------------
  // The quantiles.
  // ---------------------------------------------------------------------

  /** The probability copy: a NULL element reads as 0.0; no value is checked. */
  method CopyProbabilities(qs: seq<Option<real>>) returns (probs: seq<real>)
    ensures probs == NullsToZero(qs, 0.0)
  {
    var quantiles := new real[|qs|];
    for i := 0 to |qs|
      invariant quantiles[..i] == NullsToZero(qs[..i], 0.0)
    {
      quantiles[i] := if qs[i].Some? then qs[i].value else 0.0;
      assert qs[..i + 1][..i] == qs[..i];
      assert quantiles[..i + 1] == quantiles[..i] + [quantiles[i]];
    }
    assert qs[..|qs|] == qs && quantiles[..] == quantiles[..|qs|];
    probs := quantiles[..];
  }

  /**
   * `weighted_quantile(values, weights, quantiles)` of the monolithic
   * variant. A NULL values or weights argument gives one 0.0 per
   * probability; a length mismatch is an error; otherwise each result is
   * the quantile of the sorted closed pairs at that probability, NULL read
   * as 0.0 and nothing rejected. The ghost result `sorted` names the order
   * the sort left the pairs in.
   */
  method LegacyQuantileSparse(values: SqlArray<real>, weights: SqlArray<real>, quantiles: SqlArray<real>,
                              bitsOf: real -> U64)
    returns (r: Outcome<seq<real>>, ghost sorted: seq<ValueWeight>)
    requires quantiles.Some?
    requires values.Some? ==> EncodesValues(bitsOf, PairValues(NullsToZero(values.value, 0.0)))
    ensures values.None? || weights.None? ==> r == Return(Zeros(|quantiles.value|))
    ensures values.Some? && weights.Some? && |values.value| != |weights.value| ==> r == Raise(LengthMismatch)
    ensures values.Some? && weights.Some? && |values.value| == |weights.value| ==>
      var probs := NullsToZero(quantiles.value, 0.0);
      multiset(sorted) == multiset(ClosedPairs(NullsToZero(values.value, 0.0), NullsToZero(weights.value, 0.0)))
      && SortedByValue(sorted) && Closed(sorted)
      && r.Return? && |r.value| == |probs|
      && forall i :: 0 <= i < |probs| ==> r.value[i] == Quantile(sorted, probs[i])
  {
    sorted := [];
    if values.None? || weights.None? {
      return Return(Zeros(|quantiles.value|)), sorted;
    }
    var probs := CopyProbabilities(quantiles.value);
    var columns := ExtractDoubleArrays(values.value, weights.value, 0.0);
    if columns.Raise? {
      return Raise(columns.error), sorted;
    }
    var res;
    res, sorted := QuantilesOfColumns(columns.value.vals, columns.value.weights, probs, bitsOf);
    return Return(res), sorted;
  }

  /** A probability clamped into [0, 1]. */
  function Clamp01(q: real): (c: real)
    ensures 0.0 <= c <= 1.0
    ensures 0.0 <= q <= 1.0 ==> c == q
  {
    if q < 0.0 then 0.0 else if q > 1.0 then 1.0 else q
  }

  /**
   * An unchecked probability below 0 answers with the first sorted value
   * and one above 1 with the last: the quantile at q is the quantile at q
   * clamped into [0, 1].
   */
  lemma OutOfRangeClamps(sp: seq<ValueWeight>, q: real)
    requires Closed(sp)
    ensures Quantile(sp, q) == Quantile(sp, Clamp01(q))
    ensures q < 0.0 ==> Quantile(sp, q) == sp[0].value
    ensures q > 1.0 ==> Quantile(sp, q) == sp[|sp| - 1].value
  {
  }

  /** The probabilities of the monolithic variant as the checked entry point receives them. */
  function Lifted(qs: seq<Option<real>>): (l: seq<Option<Double>>)
    ensures |l| == |qs|
    ensures forall i :: 0 <= i < |qs| ==> l[i] == if qs[i].Some? then Some(Finite(qs[i].value)) else None
  {
    seq(|qs|, i requires 0 <= i < |qs| => if qs[i].Some? then Some(Finite(qs[i].value)) else None)
  }

  /**
   * On probabilities the checked entry point accepts, the unchecked copy
   * reads every entry as the same number, so both entry points take the
   * quantile of their sorted closed pairs at the same probabilities; the
   * checked one accepts exactly the inputs whose elements all lie in [0, 1].
   */
  lemma LegacyProbabilitiesAgree(qs: seq<Option<real>>)
    ensures AllValid(Lifted(qs)) <==> forall i :: 0 <= i < |qs| && qs[i].Some? ==> 0.0 <= qs[i].value <= 1.0
    ensures AllValid(Lifted(qs)) ==>
      forall i :: 0 <= i < |qs| ==> NullsToZero(qs, 0.0)[i] == ProbabilityValue(Lifted(qs)[i])
  {
    var l := Lifted(qs);
    if !AllValid(l) {
      var i :| 0 <= i < |l| && !ValidProbability(l[i]);
      assert qs[i].Some? && !(0.0 <= qs[i].value <= 1.0);
    }
  }
}
