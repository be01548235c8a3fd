/**
 * `whdquantile`: the weighted Harrell-Davis estimator. It shares the pair
 * building, sort, normalisation, Kish size n_eff and cumulative
 * probabilities with the Type-7 estimator; each probability p in (0, 1)
 * then weights every sorted value by the rise, across that value's cell,
 * of the regularised incomplete beta function with a = (n_eff + 1) p and
 * b = (n_eff + 1) (1 - p).
 */
module HarrellDavis {
  import opened Wrappers
  import opened Pairs
  import opened SparsePairs
  import opened RadixKeys
  import opened Sorting
  import opened Extract
  import opened EmpiricalQuantile
  import opened Normalised
  import opened CdfWeights
  import opened RealArith

  // ---------------------------------------------------------------------
  // beta_cdf: edge rules and the one-level symmetry reflection.
  // ---------------------------------------------------------------------

  /**
   * The continued-fraction evaluation inside `beta_cdf` (Lentz's method on
   * lgamma, exp and log, at most 201 iterations): for x, a, b it gives the
   * regularised incomplete beta value, or None where the C gives NaN
   * because the iteration did not converge. Its numerics are not part of
   * the model, so every operation takes it as a parameter.
   */
  type LentzCore = (real, real, real) -> Option<real>

  /** Below (a + 1) / (a + b + 2) the continued fraction converges well and is used directly. */
  function SymmetryPoint(a: real, b: real): real
    requires a > 0.0 && b > 0.0
  {
    (a + 1.0) / (a + b + 2.0)
  }

  /** A reflected point lies at or below the reflected parameters' symmetry point. */
  lemma ReflectionBelowPoint(x: real, a: real, b: real)
    requires a > 0.0 && b > 0.0 && x > SymmetryPoint(a, b)
    ensures 1.0 - x < SymmetryPoint(b, a)
  {
    var d := a + b + 2.0;
    assert b + a + 2.0 == d;
    assert (a + 1.0) / d + (b + 1.0) / d == (a + b + 2.0) / d;
    assert d / d == 1.0;
  }

  /** 1 - y where y is defined; NaN stays NaN. */
  function Complement(y: Option<real>): Option<real>
  {
    if y.Some? then Some(1.0 - y.value) else None
  }

  /**
   * `beta_cdf(x, a, b)`: 0 for x <= 0, 1 for x >= 1, NaN (None) for a <= 0
   * or b <= 0, one minus the reflected value above the symmetry point, and
   * the continued fraction otherwise. The decreases clause is the proof
   * that the reflection recurses at most once.
   */
  function BetaCdf(core: LentzCore, x: real, a: real, b: real): Option<real>
    decreases if 0.0 < x < 1.0 && a > 0.0 && b > 0.0 && x > SymmetryPoint(a, b) then 1 else 0
  {
    if x <= 0.0 then Some(0.0)
    else if x >= 1.0 then Some(1.0)
    else if a <= 0.0 || b <= 0.0 then None
    else if x > SymmetryPoint(a, b) then
      ReflectionBelowPoint(x, a, b);
      Complement(BetaCdf(core, 1.0 - x, b, a))
    else core(x, a, b)
  }

  /**
   * Inside (0, 1) with positive parameters the continued fraction is
   * reached after at most one reflection: directly below the symmetry
   * point, at (1 - x, b, a) above it.
   */
  lemma BetaCdfOneReflection(core: LentzCore, x: real, a: real, b: real)
    requires 0.0 < x < 1.0 && a > 0.0 && b > 0.0
    ensures x <= SymmetryPoint(a, b) ==> BetaCdf(core, x, a, b) == core(x, a, b)
    ensures x > SymmetryPoint(a, b) ==> BetaCdf(core, x, a, b) == Complement(core(1.0 - x, b, a))
  {
    if x > SymmetryPoint(a, b) {
      ReflectionBelowPoint(x, a, b);
      assert BetaCdf(core, 1.0 - x, b, a) == core(1.0 - x, b, a);
    }
  }

  /**
   * The edge rules come before everything else, so they hold for any
   * continued fraction: 0 at or below 0 and 1 at or above 1, even for
   * parameters that are not positive; NaN inside (0, 1) for a <= 0 or b <= 0.
   */
  lemma BetaCdfEdges(core: LentzCore, x: real, a: real, b: real)
    ensures x <= 0.0 ==> BetaCdf(core, x, a, b) == Some(0.0)
    ensures x >= 1.0 ==> BetaCdf(core, x, a, b) == Some(1.0)
    ensures 0.0 < x < 1.0 && (a <= 0.0 || b <= 0.0) ==> BetaCdf(core, x, a, b).None?
    ensures BetaCdf(core, x, a, b).Some? && 0.0 < x < 1.0 ==> a > 0.0 && b > 0.0
  {
  }

  // ---------------------------------------------------------------------
  // The weighted sum, with NaN propagation.
  // ---------------------------------------------------------------------

  /** `result_value += (q_high - q_low) * value`, where a NaN anywhere makes the sum NaN. */
  function AccumulateCell(acc: Option<real>, qLow: Option<real>, qHigh: Option<real>, v: real): Option<real>
  {
    if acc.Some? && qLow.Some? && qHigh.Some? then Some(acc.value + (qHigh.value - qLow.value) * v) else None
  }

  /** The C accumulation over the pairs in order, starting from 0.0. */
  function HdMix(s: seq<ValueWeight>, g: seq<Option<real>>): Option<real>
    requires |g| == |s| + 1
  {
    if s == [] then Some(0.0)
    else AccumulateCell(HdMix(s[..|s| - 1], g[..|s|]), g[|s| - 1], g[|s|], s[|s| - 1].value)
  }

  predicate Defined(g: seq<Option<real>>)
  {
    forall i :: 0 <= i < |g| ==> g[i].Some?
  }

  /** The grid with NaN points read as 0; only used where every point is defined. */
  function Values(g: seq<Option<real>>): (r: seq<real>)
    ensures |r| == |g|
  {
    seq(|g|, i requires 0 <= i < |g| => if g[i].Some? then g[i].value else 0.0)
  }

  /**
   * Over at least one pair the accumulation is defined exactly when every
   * grid point is, and it then equals the CDF mix of the grid's values.
   */
  lemma {:induction false} HdMixIsCdfMix(s: seq<ValueWeight>, g: seq<Option<real>>)
    requires |g| == |s| + 1 && s != []
    ensures HdMix(s, g).Some? <==> Defined(g)
    ensures HdMix(s, g).Some? ==> HdMix(s, g).value == CdfMix(s, Values(g))
    decreases |s|
  {
    var k := |s| - 1;
    var g' := g[..k + 1];
    assert Values(g)[..k + 1] == Values(g');
    if k == 0 {
      assert s[..0] == [];
      assert Defined(g) <==> g[0].Some? && g[1].Some?;
    } else {
      HdMixIsCdfMix(s[..k], g');
      assert Defined(g) <==> Defined(g') && g[k + 1].Some?;
    }
  }

  // ---------------------------------------------------------------------
  // The estimate of a sorted closed distribution.
  // ---------------------------------------------------------------------

  /** The first beta parameter, (n_eff + 1) p. */
  function ShapeA(nEff: real, p: real): real
  {
    (nEff + 1.0) * p
  }

  /** The second beta parameter, (n_eff + 1) (1 - p). */
  function ShapeB(nEff: real, p: real): real
  {
    (nEff + 1.0) * (1.0 - p)
  }

  /** beta_cdf at every cumulative probability. */
  function HdGrid(core: LentzCore, a: real, b: real, c: seq<real>): (g: seq<Option<real>>)
    ensures |g| == |c|
  {
    seq(|c|, i requires 0 <= i < |c| => BetaCdf(core, c[i], a, b))
  }

  /** The NaN test in front of the sum. */
  predicate Degenerate(p: real, nEff: real, nPairs: nat)
  {
    p <= 0.0 || p >= 1.0 || nEff <= 1.0 || nPairs <= 1 || ShapeA(nEff, p) <= 0.0 || ShapeB(nEff, p) <= 0.0
  }

  /** The grid of a closed distribution at p, over its normalised pairs. */
  function GridAt(core: LentzCore, sp: seq<ValueWeight>, p: real): (g: seq<Option<real>>)
    requires Closed(sp)
    ensures |g| == |sp| + 1
  {
    var np := Normalise(sp);
    var nEff := EffectiveSize(np);
    HdGrid(core, ShapeA(nEff, p), ShapeB(nEff, p), CumulativeProbs(np))
  }

  /** The Harrell-Davis estimate at p over sorted closed pairs; None is the NaN result. */
  function HdQuantile(core: LentzCore, sp: seq<ValueWeight>, p: real): Option<real>
    requires Closed(sp)
  {
    var np := Normalise(sp);
    if Degenerate(p, EffectiveSize(np), |sp|) then None
    else HdMix(np, GridAt(core, sp, p))
  }

  /**
   * The NaN test reduces to p outside (0, 1) or fewer than two pairs: a
   * single pair is exactly n_eff <= 1, and inside (0, 1) both beta
   * parameters are positive, so those two tests never fire.
   */
  lemma DegenerateExactly(sp: seq<ValueWeight>, p: real)
    requires Closed(sp)
    ensures var nEff := EffectiveSize(Normalise(sp));
      Degenerate(p, nEff, |sp|) <==> p <= 0.0 || p >= 1.0 || |sp| <= 1
    ensures var nEff := EffectiveSize(Normalise(sp));
      0.0 < p < 1.0 ==> ShapeA(nEff, p) > 0.0 && ShapeB(nEff, p) > 0.0
  {
    var np := Normalise(sp);
    var nEff := EffectiveSize(np);
    assert nEff >= 1.0 && (nEff > 1.0 <==> |sp| >= 2) by {
      EffectiveSizeAboveOne(np);
    }
    if 0.0 < p < 1.0 {
      ShapesPositive(nEff, p);
    }
  }

  lemma ShapesPositive(nEff: real, p: real)
    requires nEff >= 1.0 && 0.0 < p < 1.0
    ensures ShapeA(nEff, p) > 0.0 && ShapeB(nEff, p) > 0.0
  {
    MulPositive(nEff + 1.0, p, ShapeA(nEff, p));
    MulPositive(nEff + 1.0, 1.0 - p, ShapeB(nEff, p));
  }

  /**
   * The grid starts at beta_cdf(0) = 0 and ends at beta_cdf(1) = 1 for any
   * continued fraction, so the element weights telescope to 1.
   */
  lemma HdWeightsTelescope(core: LentzCore, sp: seq<ValueWeight>, p: real)
    requires Closed(sp)
    ensures var g := GridAt(core, sp, p);
      g[0] == Some(0.0) && g[|sp|] == Some(1.0) && RiseTotal(Values(g)) == 1.0
  {
    var np := Normalise(sp);
    CumulativeProbsAt(np);
    RiseTotalTelescopes(Values(GridAt(core, sp, p)));
  }

  /** A defined estimate of a distribution whose every value is c is c. */
  lemma HdOfConstant(core: LentzCore, sp: seq<ValueWeight>, p: real, c: real)
    requires Closed(sp) && forall i :: 0 <= i < |sp| ==> sp[i].value == c
    requires HdQuantile(core, sp, p).Some?
    ensures HdQuantile(core, sp, p) == Some(c)
  {
    var np := Normalise(sp);
    var g := GridAt(core, sp, p);
    HdMixIsCdfMix(np, g);
    HdWeightsTelescope(core, sp, p);
    CdfMixOfConstant(np, Values(g), c);
  }

  /**
   * Where the continued fraction makes the grid non-decreasing, as a CDF
   * is, a defined estimate lies between the first and last sorted values.
   */
  lemma HdWithinRange(core: LentzCore, sp: seq<ValueWeight>, p: real)
    requires Closed(sp) && SortedByValue(sp) && NonDecreasing(Values(GridAt(core, sp, p)))
    requires HdQuantile(core, sp, p).Some?
    ensures sp[0].value <= HdQuantile(core, sp, p).value <= sp[|sp| - 1].value
  {
    var np := Normalise(sp);
    var g := GridAt(core, sp, p);
    HdMixIsCdfMix(np, g);
    HdWeightsTelescope(core, sp, p);
    CdfMixWithinRange(np, Values(g));
  }

  // ---------------------------------------------------------------------
  // The C loops.
  // ---------------------------------------------------------------------

  /** The inner loop: beta_cdf at both ends of every cell, accumulated in pair order. */
  method HdSum(core: LentzCore, pairs: array<ValueWeight>, n: nat, cum: array<real>, a: real, b: real)
    returns (v: Option<real>)
    requires n <= pairs.Length && cum.Length == n + 1
    ensures v == HdMix(pairs[..n], HdGrid(core, a, b, cum[..]))
  {
    ghost var g := HdGrid(core, a, b, cum[..]);
    v := Some(0.0);
    for i := 0 to n
      invariant v == HdMix(pairs[..i], g[..i + 1])
    {
      var qLow := BetaCdf(core, cum[i], a, b);
      var qHigh := BetaCdf(core, cum[i + 1], a, b);
      v := AccumulateCell(v, qLow, qHigh, pairs[i].value);
      assert pairs[..i + 1][..i] == pairs[..i];
      assert g[..i + 2][..i + 1] == g[..i + 1];
    }
    assert g[..n + 1] == g;
  }

  /** One probability: the NaN test, then the inner loop. */
  method HdAt(core: LentzCore, pairs: array<ValueWeight>, n: nat, cum: array<real>, nEff: real, p: real,
              ghost sp: seq<ValueWeight>)
    returns (v: Option<real>)
    requires Closed(sp) && n == |sp| && n <= pairs.Length && pairs[..n] == Normalise(sp)
    requires nEff == EffectiveSize(pairs[..n]) && cum[..] == CumulativeProbs(pairs[..n])
    ensures v == HdQuantile(core, sp, p)
  {
    var a := ShapeA(nEff, p);
    var b := ShapeB(nEff, p);
    assert GridAt(core, sp, p) == HdGrid(core, a, b, cum[..]);
    if p <= 0.0 || p >= 1.0 || nEff <= 1.0 || n <= 1 || a <= 0.0 || b <= 0.0 {
      v := None;
    } else {
      v := HdSum(core, pairs, n, cum, a, b);
    }
  }

  /** A C double result: NaN where the estimate is undefined. */
  function AsDouble(v: Option<real>): Double
  {
    if v.Some? then Finite(v.value) else NaN
  }

  /** One estimate per probability, in argument order. */
  method HdOf(core: LentzCore, pairs: array<ValueWeight>, n: nat, cum: array<real>, nEff: real, probs: seq<real>,
              ghost sp: seq<ValueWeight>)
    returns (res: seq<Double>)
    requires Closed(sp) && n == |sp| && n <= pairs.Length && pairs[..n] == Normalise(sp)
    requires nEff == EffectiveSize(pairs[..n]) && cum[..] == CumulativeProbs(pairs[..n])
    ensures |res| == |probs| && forall i :: 0 <= i < |probs| ==> res[i] == AsDouble(HdQuantile(core, sp, probs[i]))
  {
    var out := new Double[|probs|];
    for k := 0 to |probs|
      invariant forall i :: 0 <= i < k ==> out[i] == AsDouble(HdQuantile(core, sp, probs[i]))
    {
      var v := HdAt(core, pairs, n, cum, nEff, probs[k], sp);
      out[k] := AsDouble(v);
    }
    res := out[..];
  }

  /** The sorted closed pairs of the columns, normalised, then one estimate per probability. */
  method HdOfColumns(core: LentzCore, vs: seq<real>, ws: seq<real>, probs: seq<real>, bitsOf: real -> U64)
    returns (res: seq<Double>, ghost sorted: seq<ValueWeight>)
    requires |vs| == |ws| && EncodesValues(bitsOf, PairValues(vs))
    ensures multiset(sorted) == multiset(ClosedPairs(vs, ws)) && SortedByValue(sorted) && Closed(sorted)
    ensures |res| == |probs| && forall i :: 0 <= i < |probs| ==> res[i] == AsDouble(HdQuantile(core, sorted, probs[i]))
  {
    var pairs, nPairs, total;
    pairs, nPairs, total, sorted := SortedClosedPairs(vs, ws, bitsOf);
    var nEff, cum := NormaliseAndTabulate(pairs, nPairs, total);
    res := HdOf(core, pairs, nPairs, cum, nEff, probs, sorted);
  }

  /** n finite zeros: the result for a NULL values or weights argument. */
  function ZeroDoubles(n: nat): (z: seq<Double>)
    ensures |z| == n && forall i :: 0 <= i < n ==> z[i] == Finite(0.0)
  {
    seq(n, i => Finite(0.0))
  }

  /**
   * `whdquantile(values, weights, quantiles)`: a NULL values or weights
   * argument gives one 0.0 per probability; an invalid probability and then
   * a length mismatch are errors; otherwise one Harrell-Davis estimate, or
   * NaN, per probability over the sorted closed pairs.
   */
  method WhdQuantileSparse(core: LentzCore, values: SqlArray<real>, weights: SqlArray<real>,
                           quantiles: SqlArray<Double>, bitsOf: real -> U64)
    returns (r: Outcome<seq<Double>>, ghost sorted: seq<ValueWeight>)
    requires quantiles.Some?
    requires values.Some? ==> EncodesValues(bitsOf, PairValues(NullsToZero(values.value, 0.0)))
    ensures values.None? || weights.None? ==> r == Return(ZeroDoubles(|quantiles.value|))
    ensures values.Some? && weights.Some? && !AllValid(quantiles.value) ==> r == Raise(InvalidProbability)
    ensures values.Some? && weights.Some? && AllValid(quantiles.value) && |values.value| != |weights.value| ==>
      r == Raise(LengthMismatch)
    ensures values.Some? && weights.Some? && AllValid(quantiles.value) && |values.value| == |weights.value| ==>
      var qs := quantiles.value;
      multiset(sorted) == multiset(ClosedPairs(NullsToZero(values.value, 0.0), NullsToZero(weights.value, 0.0)))
      && SortedByValue(sorted) && Closed(sorted)
      && r.Return? && |r.value| == |qs|
      && forall i :: 0 <= i < |qs| ==> r.value[i] == AsDouble(HdQuantile(core, sorted, ProbabilityValue(qs[i])))
  {
    sorted := [];
    if values.None? || weights.None? {
      return Return(ZeroDoubles(|quantiles.value|)), sorted;
    }
    var probs := ReadProbabilities(quantiles.value);
    if probs.Raise? {
      return Raise(probs.error), sorted;
    }
    var columns := ExtractDoubleArrays(values.value, weights.value, 0.0);
    if columns.Raise? {
      return Raise(columns.error), sorted;
    }
    var res;
    res, sorted := HdOfColumns(core, columns.value.vals, columns.value.weights, probs.value, bitsOf);
    return Return(res), sorted;
  }
}
