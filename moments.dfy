/**
 * The weighted moments of the sparse convention: the mean, the population
 * and the ddof-corrected variance of the closed distribution (entries of
 * positive weight plus, when their weights sum to less than 1, the implicit
 * value 0 carrying the missing mass). These functions are the specification
 * the accumulator loops of the mean and variance entry points are proved
 * against.
 */
module Moments {
  import opened Wrappers
  import opened Pairs
  import opened SparsePairs
  import opened Normalised
  import opened RealArith

  // ---------------------------------------------------------------------
  // Specification.
  // ---------------------------------------------------------------------

  /**
   * The denominator of every moment: the sum of the positive weights, raised
   * to 1 when it is below 1. It is the total weight of the closed distribution.
   */
  function ClampedTotal(vs: seq<real>, ws: seq<real>): (t: real)
    requires |vs| == |ws|
    ensures t >= 1.0
    ensures t == TotalWeight(ClosedPairs(vs, ws))
  {
    ClosedPairsShape(vs, ws);
    var s := TotalWeight(PositivePairs(vs, ws));
    if s < 1.0 then 1.0 else s
  }

  /** Sum of w * v over the positive weights, divided by the clamped total. */
  function MeanOf(vs: seq<real>, ws: seq<real>): real
    requires |vs| == |ws|
  {
    WeightedSum(PositivePairs(vs, ws)) / ClampedTotal(vs, ws)
  }

  /** Sum of w * (v - mean)^2 over the closed distribution, divided by the clamped total. */
  function PopulationVariance(vs: seq<real>, ws: seq<real>): real
    requires |vs| == |ws|
  {
    SquaredDeviations(ClosedPairs(vs, ws), MeanOf(vs, ws)) / ClampedTotal(vs, ws)
  }

  /** Kish's effective sample size of the closed distribution, on the raw weights. */
  function EffectiveCount(vs: seq<real>, ws: seq<real>): (n: real)
    requires |vs| == |ws|
    ensures n >= 1.0
  {
    ClosedPairsShape(vs, ws);
    EffectiveSizeScaleFree(ClosedPairs(vs, ws));
    KishSize(ClampedTotal(vs, ws), SquaredWeights(ClosedPairs(vs, ws)))
  }

  /**
   * Bessel's correction on an effective count n: the population variance for
   * ddof 0; otherwise None (SQL NULL, NaN in the shared helper) when n is at
   * most ddof, else the population variance times n / (n - ddof).
   */
  function Corrected(pop: real, n: real, ddof: nat): Option<real>
  {
    if ddof == 0 then Some(pop)
    else if n <= ddof as real then None
    else Some(pop * n / (n - ddof as real))
  }

  /** The variance with `ddof` degrees of freedom removed. */
  function VarianceOf(vs: seq<real>, ws: seq<real>, ddof: nat): Option<real>
    requires |vs| == |ws|
  {
    Corrected(PopulationVariance(vs, ws), EffectiveCount(vs, ws), ddof)
  }

  // ---------------------------------------------------------------------
  // Properties of the specification.
  // ---------------------------------------------------------------------

  /**
   * The mean is the average of the closed distribution: the implicit zero
   * adds its weight to the denominator and nothing to the numerator.
   */
  lemma MeanIsClosedAverage(vs: seq<real>, ws: seq<real>)
    requires |vs| == |ws|
    ensures TotalWeight(ClosedPairs(vs, ws)) >= 1.0
    ensures MeanOf(vs, ws) == WeightedSum(ClosedPairs(vs, ws)) / TotalWeight(ClosedPairs(vs, ws))
  {
    ClosedWeightedSum(vs, ws);
  }

  /** A weighted sum lies between lo and hi times the total weight when every value does. */
  lemma {:induction false} WeightedSumBetween(s: seq<ValueWeight>, lo: real, hi: real)
    requires AllPositive(s)
    requires forall i :: 0 <= i < |s| ==> lo <= s[i].value <= hi
    ensures lo * TotalWeight(s) <= WeightedSum(s) <= hi * TotalWeight(s)
    decreases |s|
  {
    if s != [] {
      var init, x := s[..|s| - 1], s[|s| - 1];
      WeightedSumBetween(init, lo, hi);
      WeightedStep(lo, hi, TotalWeight(init), WeightedSum(init), x.weight, x.value, TotalWeight(s), WeightedSum(s));
    }
  }

  /** The weighted average of records of positive weight lies between any bounds of their values. */
  lemma AverageBetween(s: seq<ValueWeight>, lo: real, hi: real)
    requires AllPositive(s) && TotalWeight(s) > 0.0
    requires forall x :: x in s ==> lo <= x.value <= hi
    ensures lo <= WeightedSum(s) / TotalWeight(s) <= hi
  {
    var m, t := WeightedSum(s), TotalWeight(s);
    assert forall i :: 0 <= i < |s| ==> lo <= s[i].value <= hi by {
      assert forall i :: 0 <= i < |s| ==> s[i] in s;
    }
    assert lo * t <= m <= hi * t by {
      WeightedSumBetween(s, lo, hi);
    }
    QuotientBetween(lo, hi, m, t);
  }

  /** The mean lies between any bounds of the values of the closed distribution. */
  lemma MeanWithinRange(vs: seq<real>, ws: seq<real>, lo: real, hi: real)
    requires |vs| == |ws|
    requires forall x :: x in ClosedPairs(vs, ws) ==> lo <= x.value <= hi
    ensures lo <= MeanOf(vs, ws) <= hi
  {
    ClosedPairsShape(vs, ws);
    AverageBetween(ClosedPairs(vs, ws), lo, hi);
    MeanIsClosedAverage(vs, ws);
  }

  /**
   * When the positive weights sum to at least 1 there is no implicit zero,
   * and the mean lies between the least and the greatest input value.
   */
  lemma MeanWithinValues(vs: seq<real>, ws: seq<real>, lo: real, hi: real)
    requires |vs| == |ws| && TotalWeight(PositivePairs(vs, ws)) >= 1.0
    requires forall i :: 0 <= i < |vs| ==> lo <= vs[i] <= hi
    ensures lo <= MeanOf(vs, ws) <= hi
  {
    PositivePairsValues(vs, ws);
    assert ClosedPairs(vs, ws) == PositivePairs(vs, ws);
    MeanWithinRange(vs, ws, lo, hi);
  }

  /** A weighted sum over records all of value c is c times the total weight. */
  lemma {:induction false} WeightedSumOfConstant(s: seq<ValueWeight>, c: real)
    requires forall i :: 0 <= i < |s| ==> s[i].value == c
    ensures WeightedSum(s) == c * TotalWeight(s)
    decreases |s|
  {
    if s != [] {
      var init, x := s[..|s| - 1], s[|s| - 1];
      WeightedSumOfConstant(init, c);
      ScaleStep(c, TotalWeight(init), x.weight, TotalWeight(s), WeightedSum(init), WeightedSum(s));
    }
  }

  /** The squared deviations from the common value of records that all share it vanish. */
  lemma {:induction false} SquaredDeviationsOfConstant(s: seq<ValueWeight>, c: real)
    requires forall i :: 0 <= i < |s| ==> s[i].value == c
    ensures SquaredDeviations(s, c) == 0.0
    decreases |s|
  {
    if s != [] {
      SquaredDeviationsOfConstant(s[..|s| - 1], c);
    }
  }

  /** The weighted average of records that all have value c is c. */
  lemma ConstantAverage(s: seq<ValueWeight>, c: real)
    requires TotalWeight(s) > 0.0
    requires forall i :: 0 <= i < |s| ==> s[i].value == c
    ensures WeightedSum(s) / TotalWeight(s) == c
  {
    WeightedSumOfConstant(s, c);
    CancelQuotient(c, TotalWeight(s), WeightedSum(s));
  }

  /** When every input value is c and the positive weights sum to at least 1, the mean is c. */
  lemma MeanOfConstant(vs: seq<real>, ws: seq<real>, c: real)
    requires |vs| == |ws| && TotalWeight(PositivePairs(vs, ws)) >= 1.0
    requires forall i :: 0 <= i < |vs| ==> vs[i] == c
    ensures MeanOf(vs, ws) == c
  {
    PositivePairsOfConstant(vs, ws, c);
    ConstantAverage(PositivePairs(vs, ws), c);
    MeanAtFullMass(vs, ws);
  }

  /** With at least unit mass nothing is clamped: the mean is the plain weighted average. */
  lemma MeanAtFullMass(vs: seq<real>, ws: seq<real>)
    requires |vs| == |ws| && TotalWeight(PositivePairs(vs, ws)) >= 1.0
    ensures MeanOf(vs, ws) == WeightedSum(PositivePairs(vs, ws)) / TotalWeight(PositivePairs(vs, ws))
  {
  }

  /**
   * When every input value is c and the positive weights sum to at least 1,
   * the population variance and every variance that is defined are 0.
   */
  lemma VarianceOfConstant(vs: seq<real>, ws: seq<real>, c: real, ddof: nat)
    requires |vs| == |ws| && TotalWeight(PositivePairs(vs, ws)) >= 1.0
    requires forall i :: 0 <= i < |vs| ==> vs[i] == c
    ensures PopulationVariance(vs, ws) == 0.0
    ensures VarianceOf(vs, ws, ddof).Some? ==> VarianceOf(vs, ws, ddof).value == 0.0
  {
    assert MeanOf(vs, ws) == c && SquaredDeviations(ClosedPairs(vs, ws), c) == 0.0 by {
      MeanOfConstant(vs, ws, c);
      NoImplicitZero(PositivePairs(vs, ws));
      PositivePairsOfConstant(vs, ws, c);
      SquaredDeviationsOfConstant(ClosedPairs(vs, ws), c);
    }
    NoDeviationNoVariance(vs, ws, ddof);
  }

  /** Squared deviations that vanish give a population variance and every defined variance of 0. */
  lemma NoDeviationNoVariance(vs: seq<real>, ws: seq<real>, ddof: nat)
    requires |vs| == |ws| && SquaredDeviations(ClosedPairs(vs, ws), MeanOf(vs, ws)) == 0.0
    ensures PopulationVariance(vs, ws) == 0.0
    ensures VarianceOf(vs, ws, ddof).Some? ==> VarianceOf(vs, ws, ddof).value == 0.0
  {
  }

  /** With no positive weight the mean and every defined variance are 0, not NULL. */
  lemma MomentsOfZeroWeights(vs: seq<real>, ws: seq<real>)
    requires |vs| == |ws|
    requires forall i :: 0 <= i < |ws| ==> ws[i] <= 0.0
    ensures ClosedPairs(vs, ws) == [ValueWeight(0.0, 1.0)]
    ensures MeanOf(vs, ws) == 0.0 && PopulationVariance(vs, ws) == 0.0
  {
    NoPositivePairs(vs, ws);
    var z := ValueWeight(0.0, 1.0);
    assert [z][..0] == [];
    assert SquaredDeviations([z], 0.0) == 0.0;
  }

  lemma {:induction false} NoPositivePairs(vs: seq<real>, ws: seq<real>)
    requires |vs| == |ws|
    requires forall i :: 0 <= i < |ws| ==> ws[i] <= 0.0
    ensures PositivePairs(vs, ws) == []
    decreases |vs|
  {
    if vs != [] {
      NoPositivePairs(vs[..|vs| - 1], ws[..|ws| - 1]);
    }
  }

  /**
   * Kish's count on the raw closed weights equals the effective size of the
   * normalised closed distribution, 1 / sum of squared normalised weights:
   * the quantity the Harrell-Davis and Type-7 quantiles use.
   */
  lemma EffectiveCountIsEffectiveSize(vs: seq<real>, ws: seq<real>)
    requires |vs| == |ws|
    ensures Closed(ClosedPairs(vs, ws))
    ensures EffectiveCount(vs, ws) == EffectiveSize(Normalise(ClosedPairs(vs, ws)))
  {
    ClosedPairsShape(vs, ws);
    EffectiveSizeScaleFree(ClosedPairs(vs, ws));
  }

  /**
   * With one degree of freedom removed the variance is NULL exactly when the
   * closed distribution is a single entry: two or more entries always give
   * an effective count above 1.
   */
  lemma SampleVarianceDefined(vs: seq<real>, ws: seq<real>)
    requires |vs| == |ws|
    ensures VarianceOf(vs, ws, 1).None? <==> |ClosedPairs(vs, ws)| == 1
  {
    EffectiveCountIsEffectiveSize(vs, ws);
    var cp := ClosedPairs(vs, ws);
    EffectiveSizeAboveOne(Normalise(cp));
  }

  /**
   * Every defined variance is non-negative, and removing degrees of freedom
   * never makes it smaller than the population variance.
   */
  lemma VarianceNonNegative(vs: seq<real>, ws: seq<real>, ddof: nat)
    requires |vs| == |ws|
    ensures PopulationVariance(vs, ws) >= 0.0
    ensures VarianceOf(vs, ws, ddof).Some? ==> VarianceOf(vs, ws, ddof).value >= PopulationVariance(vs, ws)
  {
    var pop := PopulationVariance(vs, ws);
    assert pop >= 0.0 by {
      ClosedPairsShape(vs, ws);
      SquaredDeviationsNonNegative(ClosedPairs(vs, ws), MeanOf(vs, ws));
      DivMonotone(0.0, SquaredDeviations(ClosedPairs(vs, ws), MeanOf(vs, ws)), ClampedTotal(vs, ws));
    }
    CorrectionInflates(pop, EffectiveCount(vs, ws), ddof);
  }

  /** The correction never makes a non-negative variance smaller. */
  lemma CorrectionInflates(pop: real, n: real, ddof: nat)
    requires pop >= 0.0
    ensures Corrected(pop, n, ddof).Some? ==> Corrected(pop, n, ddof).value >= pop
  {
    if ddof > 0 && n > ddof as real {
      InflateAtLeast(pop, n, ddof as real);
    }
  }

  /**
   * The corrected formula with ddof 0 is the population variance: the
   * separate ddof 0 branch of the C code is a special case of the general rule.
   */
  lemma CorrectionVanishesAtZero(vs: seq<real>, ws: seq<real>)
    requires |vs| == |ws|
    ensures var n := EffectiveCount(vs, ws);
      n > 0.0 && PopulationVariance(vs, ws) * n / (n - 0.0) == PopulationVariance(vs, ws)
  {
    NoCorrection(PopulationVariance(vs, ws), EffectiveCount(vs, ws));
  }

  /**
   * Writing the missing mass out as an explicit (0, gap) entry, gap being
   * 1 minus the positive weights, gives the same closed distribution.
   */
  lemma DensifyKeepsClosedPairs(vs: seq<real>, ws: seq<real>, gap: real)
    requires |vs| == |ws| && gap > 0.0 && TotalWeight(PositivePairs(vs, ws)) + gap == 1.0
    ensures ClosedPairs(vs + [0.0], ws + [gap]) == ClosedPairs(vs, ws)
  {
    var ps := PositivePairs(vs, ws);
    PositivePairsSnoc(vs, ws, 0.0, gap);
    ImplicitZeroAdded(ps);
    NoImplicitZero(ps + [ValueWeight(0.0, gap)]);
  }

  /** The moments depend on an input only through its closed distribution. */
  lemma MomentsOfSameClosedPairs(vs: seq<real>, ws: seq<real>, vs': seq<real>, ws': seq<real>, ddof: nat)
    requires |vs| == |ws| && |vs'| == |ws'| && ClosedPairs(vs, ws) == ClosedPairs(vs', ws')
    ensures MeanOf(vs, ws) == MeanOf(vs', ws')
    ensures VarianceOf(vs, ws, ddof) == VarianceOf(vs', ws', ddof)
  {
    assert MeanOf(vs, ws) == MeanOf(vs', ws') by {
      MeanIsClosedAverage(vs, ws);
      MeanIsClosedAverage(vs', ws');
    }
    assert ClampedTotal(vs, ws) == ClampedTotal(vs', ws');
    assert PopulationVariance(vs, ws) == PopulationVariance(vs', ws');
    assert EffectiveCount(vs, ws) == EffectiveCount(vs', ws');
  }

  /** The sparse and the dense form of an input have the same mean and the same variances. */
  lemma DensifyKeepsMoments(vs: seq<real>, ws: seq<real>, gap: real, ddof: nat)
    requires |vs| == |ws| && gap > 0.0 && TotalWeight(PositivePairs(vs, ws)) + gap == 1.0
    ensures MeanOf(vs + [0.0], ws + [gap]) == MeanOf(vs, ws)
    ensures VarianceOf(vs + [0.0], ws + [gap], ddof) == VarianceOf(vs, ws, ddof)
  {
    DensifyKeepsClosedPairs(vs, ws, gap);
    MomentsOfSameClosedPairs(vs + [0.0], ws + [gap], vs, ws, ddof);
  }

  /** Reordering the input rows in lockstep changes neither the mean nor any variance. */
  lemma MomentsPermutation(vs: seq<real>, ws: seq<real>, vs': seq<real>, ws': seq<real>, ddof: nat)
    requires |vs| == |ws| && |vs'| == |ws'|
    requires multiset(Rows(vs, ws)) == multiset(Rows(vs', ws'))
    ensures MeanOf(vs, ws) == MeanOf(vs', ws')
    ensures VarianceOf(vs, ws, ddof) == VarianceOf(vs', ws', ddof)
  {
    var cp, cp' := ClosedPairs(vs, ws), ClosedPairs(vs', ws');
    ClosedPairsPermutation(vs, ws, vs', ws');
    assert ClampedTotal(vs, ws) == ClampedTotal(vs', ws') by {
      TotalWeightPermutation(cp, cp');
    }
    assert MeanOf(vs, ws) == MeanOf(vs', ws') by {
      WeightedSumPermutation(cp, cp');
      MeanIsClosedAverage(vs, ws);
      MeanIsClosedAverage(vs', ws');
    }
    assert PopulationVariance(vs, ws) == PopulationVariance(vs', ws') by {
      SquaredDeviationsPermutation(cp, cp', MeanOf(vs, ws));
    }
    assert EffectiveCount(vs, ws) == EffectiveCount(vs', ws') by {
      SquaredWeightsPermutation(cp, cp');
    }
  }

  /**
   * Appending entries of value 0 whose weights keep the positive total at
   * most 1 leaves the mean unchanged: they only take mass from the implicit
   * zero.
   */
  lemma MeanAppendZeroValues(vs: seq<real>, ws: seq<real>, us: seq<real>, xs: seq<real>)
    requires |vs| == |ws| && |us| == |xs|
    requires forall i :: 0 <= i < |us| ==> us[i] == 0.0
    requires TotalWeight(PositivePairs(vs + us, ws + xs)) <= 1.0
    ensures MeanOf(vs + us, ws + xs) == MeanOf(vs, ws)
  {
    ZeroPadding(vs, ws, us, xs);
    MeanUnderUnitMass(vs, ws);
    MeanUnderUnitMass(vs + us, ws + xs);
  }

  /** Entries of value 0 add weight but nothing to the weighted sum. */
  lemma ZeroPadding(vs: seq<real>, ws: seq<real>, us: seq<real>, xs: seq<real>)
    requires |vs| == |ws| && |us| == |xs|
    requires forall i :: 0 <= i < |us| ==> us[i] == 0.0
    ensures WeightedSum(PositivePairs(vs + us, ws + xs)) == WeightedSum(PositivePairs(vs, ws))
    ensures TotalWeight(PositivePairs(vs, ws)) <= TotalWeight(PositivePairs(vs + us, ws + xs))
  {
    var ps, zs := PositivePairs(vs, ws), PositivePairs(us, xs);
    assert PositivePairs(vs + us, ws + xs) == ps + zs by {
      PositivePairsAppend(vs, ws, us, xs);
    }
    assert WeightedSum(ps + zs) == WeightedSum(ps) by {
      ZeroValuesWeighNothing(us, xs);
      WeightedSumAppend(ps, zs);
    }
    assert TotalWeight(ps) <= TotalWeight(ps + zs) by {
      TotalWeightAppend(ps, zs);
      TotalWeightPositive(zs);
    }
  }

  /** Entries of value 0 add nothing to the weighted sum, whatever their weights. */
  lemma {:induction false} ZeroValuesWeighNothing(us: seq<real>, xs: seq<real>)
    requires |us| == |xs|
    requires forall i :: 0 <= i < |us| ==> us[i] == 0.0
    ensures WeightedSum(PositivePairs(us, xs)) == 0.0
    decreases |us|
  {
    if us != [] {
      var us0, xs0 := us[..|us| - 1], xs[..|xs| - 1];
      ZeroValuesWeighNothing(us0, xs0);
      var x := ValueWeight(0.0, xs[|xs| - 1]);
      assert us[|us| - 1] == 0.0;
      assert PositivePairs(us, xs) == PositivePairs(us0, xs0) + (if x.weight > 0.0 then [x] else []);
      if x.weight > 0.0 {
        WeightedSumAppend(PositivePairs(us0, xs0), [x]);
        WeightedSumSingle(x);
      } else {
        assert PositivePairs(us0, xs0) + [] == PositivePairs(us0, xs0);
      }
    }
  }

  /** While the positive weights sum to at most 1 the mean is the plain weighted sum. */
  lemma MeanUnderUnitMass(vs: seq<real>, ws: seq<real>)
    requires |vs| == |ws| && TotalWeight(PositivePairs(vs, ws)) <= 1.0
    ensures MeanOf(vs, ws) == WeightedSum(PositivePairs(vs, ws))
  {
  }

  /**
   * The sparse and the padded form of a small input: weights 0.2 and 0.3 on
   * 10 and 20 leave mass 0.5 on the implicit zero, and spelling that mass
   * out as two explicit zeros of weight 0.25 gives the same mean, 8.
   */
  lemma MeanPaddingExample()
    ensures MeanOf([10.0, 20.0], [0.2, 0.3]) == 8.0
    ensures MeanOf([10.0, 20.0, 0.0, 0.0], [0.2, 0.3, 0.25, 0.25]) == 8.0
  {
    var vs, ws := [10.0, 20.0], [0.2, 0.3];
    var ps := [ValueWeight(10.0, 0.2), ValueWeight(20.0, 0.3)];
    PositivePairsOfTwo(10.0, 20.0, 0.2, 0.3);
    assert WeightedSum(ps) == 8.0 && TotalWeight(ps) == 0.5 by {
      assert ps[..1] == [ps[0]];
      WeightedSumSingle(ps[0]);
    }
    assert MeanOf(vs, ws) == 8.0 by {
      assert ClampedTotal(vs, ws) == 1.0;
    }
    var us, xs := [0.0, 0.0], [0.25, 0.25];
    var zs := [ValueWeight(0.0, 0.25), ValueWeight(0.0, 0.25)];
    assert TotalWeight(PositivePairs(vs + us, ws + xs)) == 1.0 by {
      PositivePairsOfTwo(0.0, 0.0, 0.25, 0.25);
      assert zs[..1] == [zs[0]];
      PositivePairsAppend(vs, ws, us, xs);
      TotalWeightAppend(ps, zs);
    }
    MeanAppendZeroValues(vs, ws, us, xs);
    assert vs + us == [10.0, 20.0, 0.0, 0.0] && ws + xs == [0.2, 0.3, 0.25, 0.25];
  }

  /**
   * Two equal halves have effective count 2, so removing 5 degrees of
   * freedom leaves nothing: the variance is NULL.
   */
  lemma VarianceNullExample()
    ensures EffectiveCount([1.0, 2.0], [0.5, 0.5]) == 2.0
    ensures VarianceOf([1.0, 2.0], [0.5, 0.5], 5) == None
  {
    var vs, ws := [1.0, 2.0], [0.5, 0.5];
    var ps := [ValueWeight(1.0, 0.5), ValueWeight(2.0, 0.5)];
    PositivePairsOfTwo(1.0, 2.0, 0.5, 0.5);
    assert TotalWeight(ps) == 1.0 && SquaredWeights(ps) == 0.5 by {
      assert ps[..1] == [ps[0]];
      SquaredWeightsSingle(ps[0]);
    }
    NoImplicitZero(ps);
    assert ClampedTotal(vs, ws) == 1.0;
    assert KishSize(1.0, 0.5) == 2.0;
  }

  // ---------------------------------------------------------------------
  // The accumulator loops shared by `weighted_variance_sparse_c`,
  // `weighted_std_sparse_c` and `calculate_weighted_variance`.
  // ---------------------------------------------------------------------

  lemma WeightedSumStep(vs: seq<real>, ws: seq<real>, i: nat)
    requires |vs| == |ws| && i < |vs|
    ensures WeightedSum(PositivePairs(vs[..i + 1], ws[..i + 1]))
      == WeightedSum(PositivePairs(vs[..i], ws[..i])) + (if ws[i] > 0.0 then vs[i] * ws[i] else 0.0)
  {
    PositivePairsStep(vs, ws, i);
    var x := ValueWeight(vs[i], ws[i]);
    if ws[i] > 0.0 {
      WeightedSumAppend(PositivePairs(vs[..i], ws[..i]), [x]);
      WeightedSumSingle(x);
    } else {
      assert PositivePairs(vs[..i], ws[..i]) + [] == PositivePairs(vs[..i], ws[..i]);
    }
  }

  lemma SquaredDeviationsStep(vs: seq<real>, ws: seq<real>, i: nat, m: real)
    requires |vs| == |ws| && i < |vs|
    ensures SquaredDeviations(PositivePairs(vs[..i + 1], ws[..i + 1]), m)
      == SquaredDeviations(PositivePairs(vs[..i], ws[..i]), m)
         + (if ws[i] > 0.0 then ws[i] * (vs[i] - m) * (vs[i] - m) else 0.0)
  {
    var before := PositivePairs(vs[..i], ws[..i]);
    var x := ValueWeight(vs[i], ws[i]);
    if ws[i] > 0.0 {
      assert PositivePairs(vs[..i + 1], ws[..i + 1]) == before + [x] by {
        PositivePairsStep(vs, ws, i);
      }
      assert SquaredDeviations(before + [x], m) == SquaredDeviations(before, m) + SquaredDeviations([x], m) by {
        SquaredDeviationsAppend(before, [x], m);
      }
      SquaredDeviationsSingle(x, m);
    } else {
      assert PositivePairs(vs[..i + 1], ws[..i + 1]) == before by {
        PositivePairsStep(vs, ws, i);
        assert before + [] == before;
      }
    }
  }

  lemma SquaredWeightsStep(vs: seq<real>, ws: seq<real>, i: nat)
    requires |vs| == |ws| && i < |vs|
    ensures SquaredWeights(PositivePairs(vs[..i + 1], ws[..i + 1]))
      == SquaredWeights(PositivePairs(vs[..i], ws[..i])) + (if ws[i] > 0.0 then ws[i] * ws[i] else 0.0)
  {
    PositivePairsStep(vs, ws, i);
    var x := ValueWeight(vs[i], ws[i]);
    if ws[i] > 0.0 {
      SquaredWeightsAppend(PositivePairs(vs[..i], ws[..i]), [x]);
      SquaredWeightsSingle(x);
    } else {
      assert PositivePairs(vs[..i], ws[..i]) + [] == PositivePairs(vs[..i], ws[..i]);
    }
  }

  predicate HasNegative(ws: seq<real>)
  {
    exists i :: 0 <= i < |ws| && ws[i] < 0.0
  }

  /**
   * The validation loop: stops at the first negative weight, otherwise sums
   * the positive weights.
   */
  method SumPositiveWeights(vs: seq<real>, ws: seq<real>) returns (negative: bool, total: real)
    requires |vs| == |ws|
    ensures negative <==> HasNegative(ws)
    ensures !negative ==> total == TotalWeight(PositivePairs(vs, ws))
  {
    total := 0.0;
    for i := 0 to |vs|
      invariant forall j :: 0 <= j < i ==> ws[j] >= 0.0
      invariant total == TotalWeight(PositivePairs(vs[..i], ws[..i]))
    {
      if ws[i] < 0.0 {
        return true, total;
      }
      PositivePairsStep(vs, ws, i);
      if ws[i] > 0.0 {
        total := total + ws[i];
      }
    }
    assert vs[..|vs|] == vs && ws[..|ws|] == ws;
    return false, total;
  }

  /** The mean loop: sum of value * weight over the positive weights. */
  method SumWeightedValues(vs: seq<real>, ws: seq<real>) returns (sum: real)
    requires |vs| == |ws|
    ensures sum == WeightedSum(PositivePairs(vs, ws))
  {
    sum := 0.0;
    for i := 0 to |vs|
      invariant sum == WeightedSum(PositivePairs(vs[..i], ws[..i]))
    {
      ghost var term := if ws[i] > 0.0 then vs[i] * ws[i] else 0.0;
      assert WeightedSum(PositivePairs(vs[..i + 1], ws[..i + 1])) == sum + term by {
        WeightedSumStep(vs, ws, i);
      }
      if ws[i] > 0.0 {
        sum := sum + vs[i] * ws[i];
      }
    }
    assert vs[..|vs|] == vs && ws[..|ws|] == ws;
  }

  /**
   * Squared deviations from `mean` over the positive weights, then the
   * implicit zero's term (1 - original) * (0 - mean)^2 when the original
   * total is below 1.
   */
  method SumSquaredDeviations(vs: seq<real>, ws: seq<real>, mean: real, original: real) returns (dev: real)
    requires |vs| == |ws| && original == TotalWeight(PositivePairs(vs, ws))
    ensures dev == SquaredDeviations(ClosedPairs(vs, ws), mean)
  {
    dev := PositiveSquaredDeviations(vs, ws, mean);
    if original < 1.0 {
      var zeroWeight := 1.0 - original;
      var deviation := 0.0 - mean;
      ClosedPairsWithGap(vs, ws, zeroWeight);
      ImplicitZeroDeviation(PositivePairs(vs, ws), zeroWeight, mean);
      dev := dev + zeroWeight * deviation * deviation;
    }
  }

  /** The deviation loop over the explicit entries of positive weight. */
  method PositiveSquaredDeviations(vs: seq<real>, ws: seq<real>, mean: real) returns (dev: real)
    requires |vs| == |ws|
    ensures dev == SquaredDeviations(PositivePairs(vs, ws), mean)
  {
    dev := 0.0;
    for i := 0 to |vs|
      invariant dev == SquaredDeviations(PositivePairs(vs[..i], ws[..i]), mean)
    {
      ghost var term := if ws[i] > 0.0 then ws[i] * (vs[i] - mean) * (vs[i] - mean) else 0.0;
      assert SquaredDeviations(PositivePairs(vs[..i + 1], ws[..i + 1]), mean) == dev + term by {
        SquaredDeviationsStep(vs, ws, i, mean);
      }
      if ws[i] > 0.0 {
        var deviation := vs[i] - mean;
        dev := dev + ws[i] * deviation * deviation;
      }
    }
    assert vs[..|vs|] == vs && ws[..|ws|] == ws;
  }

  lemma ImplicitZeroDeviation(ps: seq<ValueWeight>, gap: real, m: real)
    ensures SquaredDeviations(ps + [ValueWeight(0.0, gap)], m) == SquaredDeviations(ps, m) + gap * (0.0 - m) * (0.0 - m)
  {
    var z := ValueWeight(0.0, gap);
    SquaredDeviationsAppend(ps, [z], m);
    assert [z][..0] == [];
  }

  /**
   * Squared weights over the positive weights, then the implicit zero's
   * (1 - original)^2 when the original total is below 1.
   */
  method SumSquaredWeights(vs: seq<real>, ws: seq<real>, original: real) returns (sq: real)
    requires |vs| == |ws| && original == TotalWeight(PositivePairs(vs, ws))
    ensures sq == SquaredWeights(ClosedPairs(vs, ws))
  {
    sq := 0.0;
    for i := 0 to |vs|
      invariant sq == SquaredWeights(PositivePairs(vs[..i], ws[..i]))
    {
      ghost var term := if ws[i] > 0.0 then ws[i] * ws[i] else 0.0;
      assert SquaredWeights(PositivePairs(vs[..i + 1], ws[..i + 1])) == sq + term by {
        SquaredWeightsStep(vs, ws, i);
      }
      if ws[i] > 0.0 {
        sq := sq + ws[i] * ws[i];
      }
    }
    assert vs[..|vs|] == vs && ws[..|ws|] == ws;
    if original < 1.0 {
      var zeroWeight := 1.0 - original;
      ClosedPairsWithGap(vs, ws, zeroWeight);
      ImplicitZeroSquare(PositivePairs(vs, ws), zeroWeight);
      sq := sq + zeroWeight * zeroWeight;
    }
  }

  lemma ImplicitZeroSquare(ps: seq<ValueWeight>, gap: real)
    ensures SquaredWeights(ps + [ValueWeight(0.0, gap)]) == SquaredWeights(ps) + gap * gap
  {
    var z := ValueWeight(0.0, gap);
    SquaredWeightsAppend(ps, [z]);
    assert [z][..0] == [];
  }

  /**
   * The variance computation after extraction, as the SQL entry points and
   * the shared helper run it: the validation loop, the clamp of the total to
   * 1, the mean, the squared deviations with the implicit zero's term, and
   * for ddof > 0 Kish's effective count and Bessel's correction. A negative
   * weight is an error; an effective count at most ddof gives no value.
   */
  method VarianceOfColumns(vs: seq<real>, ws: seq<real>, ddof: nat) returns (r: Outcome<real>)
    requires |vs| == |ws|
    ensures HasNegative(ws) ==> r == Raise(NegativeWeight)
    ensures !HasNegative(ws) && VarianceOf(vs, ws, ddof).None? ==> r == Null
    ensures !HasNegative(ws) && VarianceOf(vs, ws, ddof).Some? ==> r == Return(VarianceOf(vs, ws, ddof).value)
  {
    var negative, sumWeights := SumPositiveWeights(vs, ws);
    if negative {
      return Raise(NegativeWeight);
    }
    var original := sumWeights;
    if sumWeights < 1.0 {
      sumWeights := 1.0;
    }
    // After the clamp the C test for a zero total can no longer fire.
    assert sumWeights == ClampedTotal(vs, ws) && sumWeights != 0.0;
    var dev := DeviationsFromMean(vs, ws, sumWeights, original);
    assert dev / sumWeights == PopulationVariance(vs, ws);
    if ddof == 0 {
      return Return(dev / sumWeights);
    }
    var nEff := EffectiveCountOf(vs, ws, sumWeights, original);
    var corrected := ApplyCorrection(dev / sumWeights, nEff, ddof);
    assert corrected == VarianceOf(vs, ws, ddof);
    if corrected.None? {
      return Null;
    }
    return Return(corrected.value);
  }

  /**
   * Bessel's correction with the effective count: no value when the count
   * does not exceed ddof, otherwise the population variance scaled by
   * n / (n - ddof).
   */
  method ApplyCorrection(pop: real, n: real, ddof: nat) returns (r: Option<real>)
    requires ddof > 0
    ensures r == Corrected(pop, n, ddof)
    ensures r.None? <==> n <= ddof as real
  {
    if n <= ddof as real {
      return None;
    }
    return Some(pop * n / (n - ddof as real));
  }

  /** The mean, then the squared deviations from it over the closed distribution. */
  method DeviationsFromMean(vs: seq<real>, ws: seq<real>, sumWeights: real, original: real) returns (dev: real)
    requires |vs| == |ws| && original == TotalWeight(PositivePairs(vs, ws)) && sumWeights == ClampedTotal(vs, ws)
    ensures dev == SquaredDeviations(ClosedPairs(vs, ws), MeanOf(vs, ws))
  {
    var sum := SumWeightedValues(vs, ws);
    var mean := sum / sumWeights;
    dev := SumSquaredDeviations(vs, ws, mean, original);
  }

  /** n_eff = (clamped total)^2 / (sum of squared closed weights). */
  method EffectiveCountOf(vs: seq<real>, ws: seq<real>, sumWeights: real, original: real) returns (nEff: real)
    requires |vs| == |ws| && original == TotalWeight(PositivePairs(vs, ws)) && sumWeights == ClampedTotal(vs, ws)
    ensures nEff == EffectiveCount(vs, ws)
  {
    var sq := SumSquaredWeights(vs, ws, original);
    assert sq > 0.0 by {
      ClosedPairsShape(vs, ws);
      SquaredWeightsPositive(ClosedPairs(vs, ws));
    }
    nEff := sumWeights * sumWeights / sq;
    EffectiveCountIs(vs, ws, sumWeights, sq);
  }

  lemma EffectiveCountIs(vs: seq<real>, ws: seq<real>, t: real, q: real)
    requires |vs| == |ws| && t == ClampedTotal(vs, ws) && q == SquaredWeights(ClosedPairs(vs, ws)) && q > 0.0
    ensures EffectiveCount(vs, ws) == t * t / q
  {
  }

  /**
   * `calculate_weighted_variance`: NaN for a missing array, a negative count
   * or a negative ddof, 0 for an empty input, NaN for a negative weight or
   * an effective count at most ddof, otherwise the variance.
   */
  method CalculateWeightedVariance(vals: Option<seq<real>>, weights: Option<seq<real>>, n: int, ddof: int)
    returns (d: Double)
    requires vals.Some? && weights.Some? && n >= 0 ==> n <= |vals.value| && n <= |weights.value|
    ensures vals.None? || weights.None? || n < 0 || ddof < 0 ==> d == NaN
    ensures vals.Some? && weights.Some? && n == 0 && ddof >= 0 ==> d == Finite(0.0)
    ensures vals.Some? && weights.Some? && n > 0 && ddof >= 0 ==>
      var vs, ws := vals.value[..n], weights.value[..n];
      d == if HasNegative(ws) || VarianceOf(vs, ws, ddof).None? then NaN else Finite(VarianceOf(vs, ws, ddof).value)
  {
    if vals.None? || weights.None? || n < 0 || ddof < 0 {
      return NaN;
    }
    if n == 0 {
      return Finite(0.0);
    }
    var r := VarianceOfColumns(vals.value[..n], weights.value[..n], ddof);
    if r.Return? {
      return Finite(r.value);
    }
    return NaN;
  }
}
