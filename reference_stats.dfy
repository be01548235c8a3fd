/**
 * The Python reference of the moments, `reference/weighted_stats.py`, as
 * pure functions. Its numpy arrays are sequences of reals, and its numpy
 * reductions are the small recursive sums below. The reference
 * returns a float or raises `ValueError`: a float is `Return` of a
 * `Double` (numpy's NaN included), and `ValueError` is `Raise` with the
 * error whose message it carries. Its `np.sqrt` is a parameter.
 */
module ReferenceStats {
  import opened Wrappers
  import opened Pairs
  import opened Normalised
  import opened RealArith
  import opened Moments
  import opened WeightedVariance

  // ---------------------------------------------------------------------
  // numpy reductions.
  // ---------------------------------------------------------------------

  /** `np.sum(xs)`. */
  function Sum(xs: seq<real>): real
  {
    if xs == [] then 0.0 else Sum(xs[..|xs| - 1]) + xs[|xs| - 1]
  }

  /** `np.sum(xs * ws)`: the numerator of `np.average(xs, weights=ws)`. */
  function Dot(xs: seq<real>, ws: seq<real>): real
    requires |xs| == |ws|
  {
    if xs == [] then 0.0 else Dot(xs[..|xs| - 1], ws[..|ws| - 1]) + xs[|xs| - 1] * ws[|ws| - 1]
  }

  /** `ws ** 2`. */
  function Squares(ws: seq<real>): (r: seq<real>)
    ensures |r| == |ws|
  {
    if ws == [] then [] else Squares(ws[..|ws| - 1]) + [ws[|ws| - 1] * ws[|ws| - 1]]
  }

  /** `(vs - m) ** 2`. */
  function SquaredFrom(vs: seq<real>, m: real): (r: seq<real>)
    ensures |r| == |vs|
  {
    if vs == [] then [] else SquaredFrom(vs[..|vs| - 1], m) + [(vs[|vs| - 1] - m) * (vs[|vs| - 1] - m)]
  }

  /** `np.average(xs, weights=ws)`, for weights whose sum is not zero. */
  function Average(xs: seq<real>, ws: seq<real>): real
    requires |xs| == |ws| && Sum(ws) != 0.0
  {
    Dot(xs, ws) / Sum(ws)
  }

  /** A sum of squares is never negative. */
  lemma {:induction false} SquaresNonNegative(ws: seq<real>)
    ensures Sum(Squares(ws)) >= 0.0
    decreases |ws|
  {
    if ws != [] {
      var n := |ws| - 1;
      SquaresNonNegative(ws[..n]);
      assert Squares(ws)[..n] == Squares(ws[..n]);
      MulNonNegativeSquare(ws[n]);
    }
  }

  // ---------------------------------------------------------------------
  // The reference functions.
  // ---------------------------------------------------------------------

  /** The arrays after the sparse-data step, with the `sum_weights` it leaves behind. */
  datatype Padded = Padded(values: seq<real>, weights: seq<real>, total: real)

  /**
   * Below a weight sum of 1, a 0.0 value with the missing weight is
   * appended and `sum_weights` becomes 1.0. Either way `sum_weights` is
   * then the sum of the weights and at least 1, so the `sum_weights == 0`
   * test that follows never succeeds.
   */
  function Pad(vs: seq<real>, ws: seq<real>): (p: Padded)
    requires |vs| == |ws|
    ensures |p.values| == |p.weights|
    ensures p.total >= 1.0 && p.total == Sum(p.weights)
  {
    var s := Sum(ws);
    if s < 1.0 then
      assert (ws + [1.0 - s])[..|ws|] == ws;
      Padded(vs + [0.0], ws + [1.0 - s], 1.0)
    else Padded(vs, ws, s)
  }

  /**
   * `weighted_mean(values, weights)`: 0.0 when either array is empty, a
   * length mismatch and then any negative weight raise `ValueError`, and
   * otherwise the weighted average of the padded arrays.
   */
  function PyWeightedMean(vs: seq<real>, ws: seq<real>): Outcome<Double>
  {
    if |vs| == 0 || |ws| == 0 then Return(Finite(0.0))
    else if |vs| != |ws| then Raise(LengthMismatch)
    else if HasNegative(ws) then Raise(NegativeWeight)
    else
      var p := Pad(vs, ws);
      if p.total == 0.0 then Return(Finite(0.0))
      else Return(Finite(Average(p.values, p.weights)))
  }

  /**
   * `weighted_variance(values, weights, ddof)`: the checks of the mean,
   * then the weighted average of the squared deviations from the mean;
   * for ddof other than 0 (negative included, which nothing rejects), NaN
   * when n_eff = sum_weights^2 / sum(weights^2), Kish's formula, is at most ddof, and
   * otherwise the average times n_eff / (n_eff - ddof).
   */
  function PyWeightedVariance(vs: seq<real>, ws: seq<real>, ddof: int): Outcome<Double>
  {
    if |vs| == 0 || |ws| == 0 then Return(Finite(0.0))
    else if |vs| != |ws| then Raise(LengthMismatch)
    else if HasNegative(ws) then Raise(NegativeWeight)
    else
      var p := Pad(vs, ws);
      if p.total == 0.0 then Return(Finite(0.0))
      else
        var mean := Average(p.values, p.weights);
        var spread := Average(SquaredFrom(p.values, mean), p.weights);
        SquaresNonNegative(p.weights);
        Return(PyRescaled(spread, p.total, Sum(Squares(p.weights)), ddof))
  }

  /**
   * The ddof step of `weighted_variance` on the spread, the padded total
   * and the padded sum of squared weights: the spread itself for ddof 0;
   * otherwise NaN when n_eff = total^2 / squares, Kish's formula, is at
   * most ddof, and the spread times n_eff / (n_eff - ddof) when it is not.
   */
  function PyRescaled(spread: real, total: real, squares: real, ddof: int): Double
    requires squares >= 0.0
  {
    if ddof == 0 then Finite(spread)
    // numpy divides by zero to an infinite n_eff and ends in NaN; the
    // weights are never all zero where this is used (NEffIsEffectiveCount),
    // so this branch is not taken.
    else if squares == 0.0 then NaN
    else
      var nEff := KishSize(total, squares);
      if nEff <= ddof as real then NaN
      else Finite(spread * nEff / (nEff - ddof as real))
  }

  /** For ddof >= 0 the ddof step is the extension's correction, its "no value" read as NaN. */
  lemma RescaledIsCorrected(spread: real, total: real, squares: real, ddof: nat)
    requires squares > 0.0
    ensures var c := Corrected(spread, KishSize(total, squares), ddof);
      PyRescaled(spread, total, squares, ddof) == if c.Some? then Finite(c.value) else NaN
  {
  }

  /** For ddof < 0 the ddof step shrinks a non-negative spread, and stays non-negative. */
  lemma RescaledShrinks(spread: real, total: real, squares: real, ddof: int)
    requires squares > 0.0 && total > 0.0 && spread >= 0.0 && ddof < 0
    ensures var r := PyRescaled(spread, total, squares, ddof);
      r.Finite? && 0.0 <= r.r <= spread
  {
    MulPositive(total, total, total * total);
    DivPositive(total * total, squares);
    DeflateAtMost(spread, KishSize(total, squares), ddof as real);
  }

  /** `weighted_std(values, weights, ddof)`: `np.sqrt` of the variance; NaN and errors pass through. */
  function PyWeightedStd(vs: seq<real>, ws: seq<real>, ddof: int, sqrt: real -> real): Outcome<Double>
  {
    var v := PyWeightedVariance(vs, ws, ddof);
    if v.Return? && v.value.Finite? then Return(Finite(sqrt(v.value.r))) else v
  }

  // ---------------------------------------------------------------------
  // The reference against the specification of the extension.
  // ---------------------------------------------------------------------

  /** A C variance outcome as the reference reports it: SQL NULL is NaN. */
  function AsFloat(o: Outcome<real>): (r: Outcome<Double>)
    ensures o.Null? <==> r == Return(NaN)
    ensures o.Raise? <==> r.Raise?
    ensures o.Raise? ==> r.error == o.error
    ensures o.Return? <==> r.Return? && r.value.Finite?
    ensures o.Return? ==> r.value.r == o.value
  {
    match o
    case Null => Return(NaN)
    case Raise(e) => Raise(e)
    case Return(x) => Return(Finite(x))
  }

  /**
   * With no negative weight, the numpy sums over the arrays are the sums
   * over their positive pairs: a zero weight adds nothing to any of them.
   */
  lemma SumsOverPositivePairs(vs: seq<real>, ws: seq<real>, m: real)
    requires |vs| == |ws| && !HasNegative(ws)
    ensures Sum(ws) == TotalWeight(PositivePairs(vs, ws))
    ensures Dot(vs, ws) == WeightedSum(PositivePairs(vs, ws))
    ensures Dot(SquaredFrom(vs, m), ws) == SquaredDeviations(PositivePairs(vs, ws), m)
    ensures Sum(Squares(ws)) == SquaredWeights(PositivePairs(vs, ws))
  {
    WeightSumOverPositivePairs(vs, ws);
    DotOverPositivePairs(vs, ws);
    DeviationsOverPositivePairs(vs, ws, m);
    SquaresOverPositivePairs(vs, ws);
  }

  /** The entries before the last carry no negative weight either. */
  lemma NoNegativeBefore(vs: seq<real>, ws: seq<real>)
    requires |vs| == |ws| > 0 && !HasNegative(ws)
    ensures !HasNegative(ws[..|ws| - 1]) && ws[|ws| - 1] >= 0.0
    ensures PositivePairs(vs, ws) == PositivePairs(vs[..|vs| - 1], ws[..|ws| - 1])
      + (if ws[|ws| - 1] > 0.0 then [ValueWeight(vs[|vs| - 1], ws[|ws| - 1])] else [])
  {
    var n := |ws| - 1;
    assert forall i :: 0 <= i < n ==> ws[..n][i] == ws[i];
  }

  lemma {:induction false} WeightSumOverPositivePairs(vs: seq<real>, ws: seq<real>)
    requires |vs| == |ws| && !HasNegative(ws)
    ensures Sum(ws) == TotalWeight(PositivePairs(vs, ws))
    decreases |vs|
  {
    if vs != [] {
      var n := |vs| - 1;
      var ps := PositivePairs(vs[..n], ws[..n]);
      assert !HasNegative(ws[..n]) && ws[n] >= 0.0 by {
        NoNegativeBefore(vs, ws);
      }
      assert Sum(ws[..n]) == TotalWeight(ps) by {
        WeightSumOverPositivePairs(vs[..n], ws[..n]);
      }
      assert TotalWeight(PositivePairs(vs, ws)) == TotalWeight(ps) + ws[n] by {
        NoNegativeBefore(vs, ws);
        if ws[n] > 0.0 {
          TotalWeightAppend(ps, [ValueWeight(vs[n], ws[n])]);
          assert [ValueWeight(vs[n], ws[n])][..0] == [];
        } else {
          assert ps + [] == ps;
        }
      }
    }
  }

  lemma DotOverPositivePairs(vs: seq<real>, ws: seq<real>)
    requires |vs| == |ws| && !HasNegative(ws)
    ensures Dot(vs, ws) == WeightedSum(PositivePairs(vs, ws))
  {
    DotIsRowSum(vs, ws);
    RowSumOverPositivePairs(Product, vs, ws);
    WeightedSumIsPairSum(PositivePairs(vs, ws));
  }

  lemma DeviationsOverPositivePairs(vs: seq<real>, ws: seq<real>, m: real)
    requires |vs| == |ws| && !HasNegative(ws)
    ensures Dot(SquaredFrom(vs, m), ws) == SquaredDeviations(PositivePairs(vs, ws), m)
  {
    DeviationsAreRowSum(vs, ws, m);
    assert forall v: real :: Deviation(m)(v, 0.0) == 0.0;
    RowSumOverPositivePairs(Deviation(m), vs, ws);
    SquaredDeviationsIsPairSum(PositivePairs(vs, ws), m);
  }

  lemma SquaresOverPositivePairs(vs: seq<real>, ws: seq<real>)
    requires |vs| == |ws| && !HasNegative(ws)
    ensures Sum(Squares(ws)) == SquaredWeights(PositivePairs(vs, ws))
  {
    SquaresAreRowSum(vs, ws);
    RowSumOverPositivePairs(SquareOfWeight, vs, ws);
    SquaredWeightsIsPairSum(PositivePairs(vs, ws));
  }

  // ---------------------------------------------------------------------
  // A term of one (value, weight) entry, summed over the rows of the
  // arrays and over a list of pairs. Every sum above is one of these.
  // ---------------------------------------------------------------------

  function RowSum(f: (real, real) -> real, vs: seq<real>, ws: seq<real>): real
    requires |vs| == |ws|
  {
    if vs == [] then 0.0 else RowSum(f, vs[..|vs| - 1], ws[..|ws| - 1]) + f(vs[|vs| - 1], ws[|ws| - 1])
  }

  function PairSum(f: (real, real) -> real, ps: seq<ValueWeight>): real
  {
    if ps == [] then 0.0 else PairSum(f, ps[..|ps| - 1]) + f(ps[|ps| - 1].value, ps[|ps| - 1].weight)
  }

  function Product(v: real, w: real): real
  {
    v * w
  }

  function SquareOfWeight(v: real, w: real): real
  {
    w * w
  }

  function Deviation(m: real): (real, real) -> real
  {
    (v: real, w: real) => w * (v - m) * (v - m)
  }

  /**
   * A term that vanishes at weight 0 sums to the same over the rows as
   * over the positive pairs: the rows of weight 0 are the ones dropped.
   */
  lemma {:induction false} RowSumOverPositivePairs(f: (real, real) -> real, vs: seq<real>, ws: seq<real>)
    requires |vs| == |ws| && !HasNegative(ws)
    requires forall v: real :: f(v, 0.0) == 0.0
    ensures RowSum(f, vs, ws) == PairSum(f, PositivePairs(vs, ws))
    decreases |vs|
  {
    if vs != [] {
      var n := |vs| - 1;
      var ps := PositivePairs(vs[..n], ws[..n]);
      NoNegativeBefore(vs, ws);
      RowSumOverPositivePairs(f, vs[..n], ws[..n]);
      if ws[n] > 0.0 {
        var t := ps + [ValueWeight(vs[n], ws[n])];
        assert t[..|t| - 1] == ps && t[|t| - 1] == ValueWeight(vs[n], ws[n]);
      } else {
        assert ws[n] == 0.0 && ps + [] == ps;
      }
    }
  }

  lemma {:induction false} DotIsRowSum(xs: seq<real>, ws: seq<real>)
    requires |xs| == |ws|
    ensures Dot(xs, ws) == RowSum(Product, xs, ws)
    decreases |xs|
  {
    if xs != [] {
      DotIsRowSum(xs[..|xs| - 1], ws[..|ws| - 1]);
    }
  }

  lemma {:induction false} SquaresAreRowSum(vs: seq<real>, ws: seq<real>)
    requires |vs| == |ws|
    ensures Sum(Squares(ws)) == RowSum(SquareOfWeight, vs, ws)
    decreases |vs|
  {
    if vs != [] {
      var n := |vs| - 1;
      SquaresAreRowSum(vs[..n], ws[..n]);
      SquaresLast(ws);
      SumSnoc(Squares(ws[..n]), ws[n] * ws[n]);
    }
  }

  lemma {:induction false} DeviationsAreRowSum(vs: seq<real>, ws: seq<real>, m: real)
    requires |vs| == |ws|
    ensures Dot(SquaredFrom(vs, m), ws) == RowSum(Deviation(m), vs, ws)
    decreases |vs|
  {
    if vs != [] {
      var n := |vs| - 1;
      var d := (vs[n] - m) * (vs[n] - m);
      var sf := SquaredFrom(vs, m);
      DeviationsAreRowSum(vs[..n], ws[..n], m);
      SquaredFromLast(vs, m);
      assert sf[..|sf| - 1] == SquaredFrom(vs[..n], m) && sf[|sf| - 1] == d;
      ReorderSquare(ws[n], vs[n] - m, d);
    }
  }

  lemma {:induction false} WeightedSumIsPairSum(ps: seq<ValueWeight>)
    ensures WeightedSum(ps) == PairSum(Product, ps)
    decreases |ps|
  {
    if ps != [] {
      WeightedSumIsPairSum(ps[..|ps| - 1]);
    }
  }

  lemma {:induction false} SquaredWeightsIsPairSum(ps: seq<ValueWeight>)
    ensures SquaredWeights(ps) == PairSum(SquareOfWeight, ps)
    decreases |ps|
  {
    if ps != [] {
      SquaredWeightsIsPairSum(ps[..|ps| - 1]);
    }
  }

  lemma {:induction false} SquaredDeviationsIsPairSum(ps: seq<ValueWeight>, m: real)
    ensures SquaredDeviations(ps, m) == PairSum(Deviation(m), ps)
    decreases |ps|
  {
    if ps != [] {
      SquaredDeviationsIsPairSum(ps[..|ps| - 1], m);
    }
  }

  lemma SquaredFromLast(vs: seq<real>, m: real)
    requires vs != []
    ensures SquaredFrom(vs, m) == SquaredFrom(vs[..|vs| - 1], m) + [(vs[|vs| - 1] - m) * (vs[|vs| - 1] - m)]
  {
  }

  lemma SquaresLast(ws: seq<real>)
    requires ws != []
    ensures Squares(ws) == Squares(ws[..|ws| - 1]) + [ws[|ws| - 1] * ws[|ws| - 1]]
  {
  }

  /** `np.sum` over one more entry. */
  lemma SumSnoc(xs: seq<real>, x: real)
    ensures Sum(xs + [x]) == Sum(xs) + x
  {
    var a := xs + [x];
    assert a[..|a| - 1] == xs && a[|a| - 1] == x;
  }

  /**
   * The padded arrays hold exactly the closed distribution as their
   * positive pairs, no negative weight, and `sum_weights` is the clamped
   * total of the extension.
   */
  lemma PadIsClosed(vs: seq<real>, ws: seq<real>)
    requires |vs| == |ws| && !HasNegative(ws)
    ensures var p := Pad(vs, ws);
      !HasNegative(p.weights)
      && PositivePairs(p.values, p.weights) == ClosedPairs(vs, ws)
      && p.total == ClampedTotal(vs, ws)
  {
    var p := Pad(vs, ws);
    var s := Sum(ws);
    SumsOverPositivePairs(vs, ws, 0.0);
    if s < 1.0 {
      var gap := 1.0 - s;
      assert forall i :: 0 <= i < |ws| ==> p.weights[i] == ws[i];
      assert p.weights[|ws|] == gap;
      PositivePairsSnoc(vs, ws, 0.0, gap);
      ClosedPairsWithGap(vs, ws, gap);
    } else {
      NoImplicitZero(PositivePairs(vs, ws));
    }
  }

  /**
   * The sums of the padded arrays are the sums of the closed distribution.
   */
  lemma PaddedSums(vs: seq<real>, ws: seq<real>, m: real)
    requires |vs| == |ws| && !HasNegative(ws)
    ensures var p := Pad(vs, ws); var cp := ClosedPairs(vs, ws);
      p.total == ClampedTotal(vs, ws)
      && Sum(p.weights) == TotalWeight(cp)
      && Dot(p.values, p.weights) == WeightedSum(cp)
      && Dot(SquaredFrom(p.values, m), p.weights) == SquaredDeviations(cp, m)
      && Sum(Squares(p.weights)) == SquaredWeights(cp)
  {
    var p := Pad(vs, ws);
    PadIsClosed(vs, ws);
    SumsOverPositivePairs(p.values, p.weights, m);
  }

  /**
   * The reference mean: 0.0 when either array is empty (also when only one
   * is), `ValueError` for a length mismatch and then for a negative
   * weight, and otherwise exactly the mean of the closed distribution that
   * the extension computes.
   */
  lemma PyMeanAgrees(vs: seq<real>, ws: seq<real>)
    ensures |vs| == 0 || |ws| == 0 ==> PyWeightedMean(vs, ws) == Return(Finite(0.0))
    ensures |vs| > 0 && |ws| > 0 && |vs| != |ws| ==> PyWeightedMean(vs, ws) == Raise(LengthMismatch)
    ensures |vs| == |ws| > 0 && HasNegative(ws) ==> PyWeightedMean(vs, ws) == Raise(NegativeWeight)
    ensures |vs| == |ws| > 0 && !HasNegative(ws) ==> PyWeightedMean(vs, ws) == Return(Finite(MeanOf(vs, ws)))
  {
    if |vs| == |ws| > 0 && !HasNegative(ws) {
      PaddedSums(vs, ws, 0.0);
      MeanIsClosedAverage(vs, ws);
    }
  }

  /** The reference's squared-deviation average is the population variance of the extension. */
  lemma SpreadIsPopulationVariance(vs: seq<real>, ws: seq<real>)
    requires |vs| == |ws| && !HasNegative(ws)
    ensures var p := Pad(vs, ws);
      Sum(p.weights) != 0.0
      && Average(p.values, p.weights) == MeanOf(vs, ws)
      && Average(SquaredFrom(p.values, MeanOf(vs, ws)), p.weights) == PopulationVariance(vs, ws)
  {
    PaddedSums(vs, ws, MeanOf(vs, ws));
    MeanIsClosedAverage(vs, ws);
  }

  /** The reference's n_eff is the effective count of the extension. */
  lemma NEffIsEffectiveCount(vs: seq<real>, ws: seq<real>)
    requires |vs| == |ws| && !HasNegative(ws)
    ensures var p := Pad(vs, ws);
      Sum(Squares(p.weights)) > 0.0
      && KishSize(p.total, Sum(Squares(p.weights))) == EffectiveCount(vs, ws)
  {
    var p := Pad(vs, ws);
    var t, q := p.total, Sum(Squares(p.weights));
    assert t == ClampedTotal(vs, ws) && q == SquaredWeights(ClosedPairs(vs, ws)) by {
      PaddedSums(vs, ws, 0.0);
    }
    assert q > 0.0 by {
      EffectiveCountIsEffectiveSize(vs, ws);
      SquaredWeightsPositive(ClosedPairs(vs, ws));
    }
    assert EffectiveCount(vs, ws) == KishSize(t, q);
  }

  /**
   * The reference variance: the same checks as the mean, and for ddof >= 0
   * exactly the variance outcome of the extension, its SQL NULL read as
   * NaN. A negative ddof, which the extension rejects, gives a finite value
   * between 0 and the population variance.
   */
  lemma PyVarianceAgrees(vs: seq<real>, ws: seq<real>, ddof: int)
    ensures |vs| == 0 || |ws| == 0 ==> PyWeightedVariance(vs, ws, ddof) == Return(Finite(0.0))
    ensures |vs| > 0 && |ws| > 0 && |vs| != |ws| ==> PyWeightedVariance(vs, ws, ddof) == Raise(LengthMismatch)
    ensures |vs| == |ws| > 0 && ddof >= 0 ==>
      PyWeightedVariance(vs, ws, ddof) == AsFloat(VarianceOutcome(vs, ws, ddof))
    ensures |vs| == |ws| > 0 && ddof < 0 && !HasNegative(ws) ==>
      var r := PyWeightedVariance(vs, ws, ddof);
      r.Return? && r.value.Finite? && 0.0 <= r.value.r <= PopulationVariance(vs, ws)
  {
    if |vs| == |ws| > 0 && !HasNegative(ws) {
      if ddof >= 0 {
        CorrectedVarianceAgrees(vs, ws, ddof);
      } else {
        NegativeDdofShrinks(vs, ws, ddof);
      }
    }
  }

  /**
   * The reference's variance after its checks is the extension's
   * ddof-corrected variance: the same spread, the same n_eff, and NaN
   * exactly where the extension has no value.
   */
  lemma CorrectedVarianceAgrees(vs: seq<real>, ws: seq<real>, ddof: nat)
    requires |vs| == |ws| > 0 && !HasNegative(ws)
    ensures PyWeightedVariance(vs, ws, ddof) == AsFloat(VarianceOutcome(vs, ws, ddof))
  {
    var p := Pad(vs, ws);
    var q := Sum(Squares(p.weights));
    assert Average(SquaredFrom(p.values, Average(p.values, p.weights)), p.weights)
      == PopulationVariance(vs, ws) by {
      SpreadIsPopulationVariance(vs, ws);
    }
    assert q > 0.0 && KishSize(p.total, q) == EffectiveCount(vs, ws) by {
      NEffIsEffectiveCount(vs, ws);
    }
    RescaledIsCorrected(PopulationVariance(vs, ws), p.total, q, ddof);
  }

  /** A negative ddof scales the spread by n_eff / (n_eff - ddof) < 1. */
  lemma NegativeDdofShrinks(vs: seq<real>, ws: seq<real>, ddof: int)
    requires |vs| == |ws| > 0 && !HasNegative(ws) && ddof < 0
    ensures var r := PyWeightedVariance(vs, ws, ddof);
      r.Return? && r.value.Finite? && 0.0 <= r.value.r <= PopulationVariance(vs, ws)
  {
    var p := Pad(vs, ws);
    var q := Sum(Squares(p.weights));
    assert Average(SquaredFrom(p.values, Average(p.values, p.weights)), p.weights)
      == PopulationVariance(vs, ws) by {
      SpreadIsPopulationVariance(vs, ws);
    }
    assert q > 0.0 && KishSize(p.total, q) == EffectiveCount(vs, ws) by {
      NEffIsEffectiveCount(vs, ws);
    }
    assert PopulationVariance(vs, ws) >= 0.0 by {
      VarianceNonNegative(vs, ws, 0);
    }
    RescaledShrinks(PopulationVariance(vs, ws), p.total, q, ddof);
  }

  /**
   * The reference standard deviation for ddof >= 0: the square root of the
   * extension's variance where that is a value, NaN where the extension
   * answers SQL NULL, and the same errors.
   */
  lemma PyStdAgrees(vs: seq<real>, ws: seq<real>, ddof: nat, sqrt: real -> real)
    requires |vs| == |ws| > 0
    ensures var v := VarianceOutcome(vs, ws, ddof);
      PyWeightedStd(vs, ws, ddof, sqrt) ==
        if v.Return? then Return(Finite(sqrt(v.value))) else AsFloat(v)
  {
    PyVarianceAgrees(vs, ws, ddof);
  }
}
