/**
 * The SQL entry points `weighted_variance_sparse_c` and
 * `weighted_std_sparse_c`: argument checks, extraction of the two arrays,
 * and the shared accumulation of Moments.VarianceOfColumns.
 */
module WeightedVariance {
  import opened Wrappers
  import opened Pairs
  import opened Extract
  import opened Normalised
  import opened Moments

  /**
   * What the variance computation over extracted columns ends in: an error
   * for a negative weight, SQL NULL when the effective count leaves no
   * degrees of freedom, and otherwise the variance.
   */
  function VarianceOutcome(vs: seq<real>, ws: seq<real>, ddof: nat): Outcome<real>
    requires |vs| == |ws|
  {
    if HasNegative(ws) then Raise(NegativeWeight)
    else if VarianceOf(vs, ws, ddof).None? then Null
    else Return(VarianceOf(vs, ws, ddof).value)
  }

  /** The ddof argument: 0 when it is SQL NULL. */
  function DdofOf(ddof: Option<int>): int
  {
    if ddof.None? then 0 else ddof.value
  }

  /**
   * `weighted_variance(values, weights, ddof)`. A NULL array gives 0.0; a
   * negative ddof is an error, reported before the lengths are compared; a
   * length mismatch is an error; empty arrays give 0.0; otherwise the result
   * is the variance outcome of the arrays with NULL elements read as 0.0.
   */
  method WeightedVarianceSparse(values: SqlArray<real>, weights: SqlArray<real>, ddof: Option<int>)
    returns (r: Outcome<real>)
    ensures values.None? || weights.None? ==> r == Return(0.0)
    ensures values.Some? && weights.Some? && DdofOf(ddof) < 0 ==> r == Raise(NegativeDdof)
    ensures values.Some? && weights.Some? && DdofOf(ddof) >= 0 && |values.value| != |weights.value| ==>
      r == Raise(LengthMismatch)
    ensures values.Some? && weights.Some? && DdofOf(ddof) >= 0 && |values.value| == |weights.value| ==>
      r == if |values.value| == 0 then Return(0.0)
           else VarianceOutcome(NullsToZero(values.value, 0.0), NullsToZero(weights.value, 0.0), DdofOf(ddof))
  {
    if values.None? || weights.None? {
      return Return(0.0);
    }
    var d := DdofOf(ddof);
    if d < 0 {
      return Raise(NegativeDdof);
    }
    var columns := ExtractDoubleArrays(values.value, weights.value, 0.0);
    if columns.Raise? {
      return Raise(columns.error);
    }
    if |columns.value.vals| == 0 {
      return Return(0.0);
    }
    r := VarianceOfColumns(columns.value.vals, columns.value.weights, d);
  }

  /**
   * `weighted_std(values, weights, ddof)`: the same checks and the same
   * accumulation as the variance, with the square root taken of a variance
   * that is computed. The NULL-array and empty-array answers are 0.0
   * directly, without the square root. The square root is a parameter.
   */
  method WeightedStdSparse(values: SqlArray<real>, weights: SqlArray<real>, ddof: Option<int>, sqrt: real -> real)
    returns (r: Outcome<real>)
    ensures values.None? || weights.None? ==> r == Return(0.0)
    ensures values.Some? && weights.Some? && DdofOf(ddof) < 0 ==> r == Raise(NegativeDdof)
    ensures values.Some? && weights.Some? && DdofOf(ddof) >= 0 && |values.value| != |weights.value| ==>
      r == Raise(LengthMismatch)
    ensures values.Some? && weights.Some? && DdofOf(ddof) >= 0 && |values.value| == |weights.value| ==>
      var v := VarianceOutcome(NullsToZero(values.value, 0.0), NullsToZero(weights.value, 0.0), DdofOf(ddof));
      r == if |values.value| == 0 then Return(0.0)
           else if v.Return? then Return(sqrt(v.value))
           else v
  {
    if values.None? || weights.None? {
      return Return(0.0);
    }
    var d := DdofOf(ddof);
    if d < 0 {
      return Raise(NegativeDdof);
    }
    var columns := ExtractDoubleArrays(values.value, weights.value, 0.0);
    if columns.Raise? {
      return Raise(columns.error);
    }
    if |columns.value.vals| == 0 {
      return Return(0.0);
    }
    var variance := VarianceOfColumns(columns.value.vals, columns.value.weights, d);
    if variance.Return? {
      return Return(sqrt(variance.value));
    }
    return variance;
  }

  /**
   * Empty arrays are answered 0.0 before any accumulation. The general rule
   * would agree only for ddof = 0: the closed distribution of nothing is the
   * single implicit zero, whose effective count 1 leaves no degree of
   * freedom for ddof >= 1.
   */
  lemma EmptyShortcut(ddof: nat)
    ensures VarianceOutcome([], [], ddof) == if ddof == 0 then Return(0.0) else Null
  {
    var z := ValueWeight(0.0, 1.0);
    assert ClosedPairs([], []) == [z] by {
      assert TotalWeight(PositivePairs([], [])) == 0.0;
    }
    assert [z][..0] == [];
    assert MeanOf([], []) == 0.0;
    assert PopulationVariance([], []) == 0.0;
    assert SquaredWeights([z]) == 1.0 && ClampedTotal([], []) == 1.0;
    assert EffectiveCount([], []) == KishSize(1.0, 1.0) == 1.0;
  }

  /** Every variance the entry point returns is non-negative. */
  lemma VarianceOutcomeNonNegative(vs: seq<real>, ws: seq<real>, ddof: nat)
    requires |vs| == |ws|
    ensures VarianceOutcome(vs, ws, ddof).Return? ==> VarianceOutcome(vs, ws, ddof).value >= 0.0
  {
    VarianceNonNegative(vs, ws, ddof);
  }
}
