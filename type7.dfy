/**
 * `wquantile`: the weighted Hyndman-Fan Type-7 estimator. After the shared
 * pair building and sort, the weights are normalised, Kish's effective size
 * n_eff is taken, and each probability p in (0, 1) weights every sorted
 * value by the rise of a clamped-linear CDF across that value's cell.
 */
module Type7 {
  import opened Wrappers
  import opened Pairs
  import opened SparsePairs
  import opened RadixKeys
  import opened Sorting
  import opened Extract
  import opened RealArith
  import opened EmpiricalQuantile
  import opened Normalised
  import opened CdfWeights
  import opened ClampedCdf

  /** The CDF evaluated at every cumulative probability. */
  function Type7Grid(n: real, p: real, c: seq<real>): (g: seq<real>)
    ensures |g| == |c|
  {
    seq(|c|, i requires 0 <= i < |c| => Type7Cdf(n, p, c[i]))
  }

  /**
   * Over normalised closed pairs the grid starts at 0, ends at 1 and never
   * falls: every element weight lies in [0, 1] and together they sum to 1.
   */
  lemma Type7GridShape(np: seq<ValueWeight>, p: real)
    requires Closed(np) && TotalWeight(np) == 1.0 && 0.0 < p < 1.0
    ensures var g := Type7Grid(EffectiveSize(np), p, CumulativeProbs(np));
      g[0] == 0.0 && g[|np|] == 1.0 && NonDecreasing(g)
      && (forall i :: 0 <= i < |np| ==> 0.0 <= g[i + 1] - g[i] <= 1.0)
      && RiseTotal(g) == 1.0
  {
    var n := EffectiveSize(np);
    var c := CumulativeProbs(np);
    var g := Type7Grid(n, p, c);
    CumulativeProbsAt(np);
    CumulativeProbsNonDecreasing(np);
    Type7CdfEnds(n, p);
    forall i, j | 0 <= i <= j < |g| ensures g[i] <= g[j] {
      Type7CdfMonotone(n, p, c[i], c[j]);
    }
    forall i | 0 <= i < |np| ensures 0.0 <= g[i + 1] - g[i] <= 1.0 {
      Type7CdfBounds(n, p, c[i]);
      Type7CdfBounds(n, p, c[i + 1]);
    }
    RiseTotalTelescopes(g);
  }

  /**
   * The estimate at p over sorted closed pairs: the first value for p <= 0,
   * the last for p >= 1, otherwise the Type-7 mix over the normalised pairs.
   */
  function Type7Quantile(sp: seq<ValueWeight>, p: real): real
    requires Closed(sp)
  {
    if p <= 0.0 then sp[0].value
    else if p >= 1.0 then sp[|sp| - 1].value
    else
      var np := Normalise(sp);
      CdfMix(np, Type7Grid(EffectiveSize(np), p, CumulativeProbs(np)))
  }

  /** Over sorted pairs every Type-7 estimate lies between the smallest and the largest value. */
  lemma Type7WithinRange(sp: seq<ValueWeight>, p: real)
    requires Closed(sp) && SortedByValue(sp)
    ensures sp[0].value <= Type7Quantile(sp, p) <= sp[|sp| - 1].value
  {
    if 0.0 < p < 1.0 {
      var np := Normalise(sp);
      Type7GridShape(np, p);
      CdfMixWithinRange(np, Type7Grid(EffectiveSize(np), p, CumulativeProbs(np)));
    } else {
      assert sp[0].value <= sp[|sp| - 1].value;
    }
  }

  /** When every value is c, every Type-7 estimate is c. */
  lemma Type7OfConstant(sp: seq<ValueWeight>, p: real, c: real)
    requires Closed(sp) && forall i :: 0 <= i < |sp| ==> sp[i].value == c
    ensures Type7Quantile(sp, p) == c
  {
    if 0.0 < p < 1.0 {
      var np := Normalise(sp);
      Type7GridShape(np, p);
      CdfMixOfConstant(np, Type7Grid(EffectiveSize(np), p, CumulativeProbs(np)), c);
    }
  }

  /**
   * The inner loop for 0 < p < 1: `result_value += w * value`, where w is
   * the CDF at cum_probs[i + 1] less, from the second pair on, the CDF at
   * cum_probs[i].
   */
  method Type7Sum(pairs: array<ValueWeight>, n: nat, cum: array<real>, nEff: real, p: real)
    returns (v: real)
    requires n <= pairs.Length && cum.Length == n + 1 && cum[0] == 0.0
    requires nEff >= 1.0 && 0.0 < p < 1.0
    ensures v == CdfMix(pairs[..n], Type7Grid(nEff, p, cum[..]))
  {
    var h := p * (nEff - 1.0) + 1.0;
    ghost var g := Type7Grid(nEff, p, cum[..]);
    Type7CdfEnds(nEff, p);
    v := 0.0;
    for i := 0 to n
      invariant v == CdfMix(pairs[..i], g[..i + 1])
    {
      var w := CellWeight(cum, i, h, nEff, p);
      v := v + w * pairs[i].value;
      assert pairs[..i + 1][..i] == pairs[..i];
      assert g[..i + 2][..i + 1] == g[..i + 1];
    }
    assert g[..n + 1] == g;
  }

  /**
   * The weight of cell i: the clamped line at cum_probs[i + 1] less, from
   * the second cell on, the clamped line at cum_probs[i]; that is the rise
   * of the Type-7 CDF across the cell once cum_probs starts at 0.
   */
  method CellWeight(cum: array<real>, i: nat, h: real, nEff: real, p: real) returns (w: real)
    requires i + 1 < cum.Length && cum[0] == 0.0 && nEff >= 1.0 && 0.0 < p < 1.0
    requires h == p * (nEff - 1.0) + 1.0
    ensures w == Type7Cdf(nEff, p, cum[i + 1]) - Type7Cdf(nEff, p, cum[i])
  {
    w := ClampedLine(h, nEff, cum[i + 1]);
    ClampedLineIsType7Cdf(nEff, p, cum[i + 1]);
    if i > 0 {
      var wPrev := ClampedLine(h, nEff, cum[i]);
      ClampedLineIsType7Cdf(nEff, p, cum[i]);
      w := w - wPrev;
    } else {
      Type7CdfEnds(nEff, p);
    }
  }

  /**
   * One probability: the endpoint tests, then the inner loop over the
   * normalised pairs.
   */
  method Type7At(pairs: array<ValueWeight>, n: nat, cum: array<real>, nEff: real, p: real,
                 ghost sp: seq<ValueWeight>)
    returns (v: real)
    requires Closed(sp) && n <= pairs.Length && pairs[..n] == Normalise(sp)
    requires nEff == EffectiveSize(pairs[..n]) && cum[..] == CumulativeProbs(pairs[..n])
    ensures v == Type7Quantile(sp, p)
  {
    if p <= 0.0 {
      v := pairs[0].value;
    } else if p >= 1.0 {
      v := pairs[n - 1].value;
    } else {
      CumulativeProbsAt(pairs[..n]);
      v := Type7Sum(pairs, n, cum, nEff, p);
    }
  }

  /** One estimate per probability, in argument order, over normalised and tabulated pairs. */
  method Type7Of(pairs: array<ValueWeight>, n: nat, cum: array<real>, nEff: real, probs: seq<real>,
                 ghost sp: seq<ValueWeight>)
    returns (res: seq<real>)
    requires Closed(sp) && n <= pairs.Length && pairs[..n] == Normalise(sp)
    requires nEff == EffectiveSize(pairs[..n]) && cum[..] == CumulativeProbs(pairs[..n])
    ensures |res| == |probs| && forall i :: 0 <= i < |probs| ==> res[i] == Type7Quantile(sp, probs[i])
  {
    var out := new real[|probs|];
    for k := 0 to |probs|
      invariant forall i :: 0 <= i < k ==> out[i] == Type7Quantile(sp, probs[i])
    {
      out[k] := Type7At(pairs, n, cum, nEff, probs[k], sp);
    }
    res := out[..];
  }

  /** The sorted closed pairs of the columns, normalised, then one estimate per probability. */
  method Type7OfColumns(vs: seq<real>, ws: seq<real>, probs: seq<real>, bitsOf: real -> U64)
    returns (res: seq<real>, ghost sorted: seq<ValueWeight>)
    requires |vs| == |ws| && EncodesValues(bitsOf, PairValues(vs))
    ensures multiset(sorted) == multiset(ClosedPairs(vs, ws)) && SortedByValue(sorted) && Closed(sorted)
    ensures |res| == |probs| && forall i :: 0 <= i < |probs| ==> res[i] == Type7Quantile(sorted, probs[i])
  {
    var pairs, nPairs, total;
    pairs, nPairs, total, sorted := SortedClosedPairs(vs, ws, bitsOf);
    var nEff, cum := NormaliseAndTabulate(pairs, nPairs, total);
    res := Type7Of(pairs, nPairs, cum, nEff, probs, sorted);
  }

  /**
   * `wquantile(values, weights, quantiles)`: a NULL values or weights
   * argument gives one 0.0 per probability; an invalid probability and then
   * a length mismatch are errors; otherwise one Type-7 estimate per
   * probability over the sorted closed pairs.
   */
  method WQuantileSparse(values: SqlArray<real>, weights: SqlArray<real>, quantiles: SqlArray<Double>,
                         bitsOf: real -> U64)
    returns (r: Outcome<seq<real>>, ghost sorted: seq<ValueWeight>)
    requires quantiles.Some?
    requires values.Some? ==> EncodesValues(bitsOf, PairValues(NullsToZero(values.value, 0.0)))
    ensures values.None? || weights.None? ==> r == Return(Zeros(|quantiles.value|))
    ensures values.Some? && weights.Some? && !AllValid(quantiles.value) ==> r == Raise(InvalidProbability)
    ensures values.Some? && weights.Some? && AllValid(quantiles.value) && |values.value| != |weights.value| ==>
      r == Raise(LengthMismatch)
    ensures values.Some? && weights.Some? && AllValid(quantiles.value) && |values.value| == |weights.value| ==>
      var qs := quantiles.value;
      multiset(sorted) == multiset(ClosedPairs(NullsToZero(values.value, 0.0), NullsToZero(weights.value, 0.0)))
      && SortedByValue(sorted) && Closed(sorted)
      && r.Return? && |r.value| == |qs|
      && forall i :: 0 <= i < |qs| ==> r.value[i] == Type7Quantile(sorted, ProbabilityValue(qs[i]))
  {
    sorted := [];
    if values.None? || weights.None? {
      return Return(Zeros(|quantiles.value|)), sorted;
    }
    var probs := ReadProbabilities(quantiles.value);
    if probs.Raise? {
      return probs, sorted;
    }
    var columns := ExtractDoubleArrays(values.value, weights.value, 0.0);
    if columns.Raise? {
      return Raise(columns.error), sorted;
    }
    var res;
    res, sorted := Type7OfColumns(columns.value.vals, columns.value.weights, probs.value, bitsOf);
    return Return(res), sorted;
  }
}
