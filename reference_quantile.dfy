/**
 * The Python reference of the quantile estimators,
 * `reference/weighted_quantile.py`, as pure functions. Its numpy arrays are
 * sequences of reals; `np.argsort` with the indexing that follows it is a
 * parameter that reorders the (value, weight) rows by value, `np.interp` is
 * written out for the points it is given, and `scipy.stats.beta.cdf` is a
 * parameter. The lemmas state where the reference computes what the
 * extension computes and where it does not.
 */
module ReferenceQuantile {
  import opened Wrappers
  import opened Pairs
  import opened SparsePairs
  import opened RealArith
  import opened EmpiricalQuantile
  import opened Normalised
  import opened CdfWeights
  import opened ClampedCdf
  import opened Type7
  import opened HarrellDavis
  import opened ReferenceStats

  // ---------------------------------------------------------------------
  // The steps every estimator shares.
  // ---------------------------------------------------------------------

  /** A values array and a weights array. */
  datatype Columns = Columns(values: seq<real>, weights: seq<real>)

  /**
   * `add_missing_zeroes(values, weights)`: appends the value 0 with weight
   * 1 - sum(weights), so that the weights then sum to exactly 1.
   */
  function AddMissingZeroes(vs: seq<real>, ws: seq<real>): (c: Columns)
    ensures |c.values| == |vs| + 1 && |c.weights| == |ws| + 1
    ensures c.values[..|vs|] == vs && c.weights[..|ws|] == ws && c.values[|vs|] == 0.0
    ensures Sum(c.weights) == 1.0
  {
    SumSnoc(ws, 1.0 - Sum(ws));
    Columns(vs + [0.0], ws + [1.0 - Sum(ws)])
  }

  /**
   * The `sum_weight < 1` step of both estimators (`sum_weight != 1 and
   * sum_weight < 1` in the generic one is the same test): the arrays with
   * the missing mass added at 0, or unchanged.
   */
  function Completed(vs: seq<real>, ws: seq<real>): (c: Columns)
    requires |vs| == |ws|
    ensures |c.values| == |c.weights| >= 1
    ensures Sum(c.weights) >= 1.0
  {
    if Sum(ws) < 1.0 then AddMissingZeroes(vs, ws)
    else
      assert ws != [];
      Columns(vs, ws)
  }

  /**
   * `sorter = np.argsort(values)` followed by `values[sorter]` and
   * `weights[sorter]`: a reordering of the rows by value. numpy's default
   * sort is not stable, so nothing is assumed about the order of ties.
   */
  type Sorter = seq<ValueWeight> -> seq<ValueWeight>

  ghost predicate SortsByValue(sort: Sorter)
  {
    forall rows: seq<ValueWeight> :: multiset(sort(rows)) == multiset(rows) && SortedByValue(sort(rows))
  }

  /** The rows of the completed arrays in sorted order. */
  function SortedRows(vs: seq<real>, ws: seq<real>, sort: Sorter): (sr: seq<ValueWeight>)
    requires |vs| == |ws| && SortsByValue(sort)
    ensures |sr| >= 1
  {
    var c := Completed(vs, ws);
    var rows := Rows(c.values, c.weights);
    assert |multiset(sort(rows))| == |rows|;
    sort(rows)
  }

  function ValuesOf(s: seq<ValueWeight>): (r: seq<real>)
    ensures |r| == |s|
  {
    if s == [] then [] else ValuesOf(s[..|s| - 1]) + [s[|s| - 1].value]
  }

  function WeightsOf(s: seq<ValueWeight>): (r: seq<real>)
    ensures |r| == |s|
  {
    if s == [] then [] else WeightsOf(s[..|s| - 1]) + [s[|s| - 1].weight]
  }

  /** `np.cumsum(xs)`: entry i is the sum of xs[0..i]. */
  function CumSum(xs: seq<real>): (r: seq<real>)
    ensures |r| == |xs|
  {
    if xs == [] then [] else CumSum(xs[..|xs| - 1]) + [Sum(xs)]
  }

  // ---------------------------------------------------------------------
  // weighted_quantile.
  // ---------------------------------------------------------------------

  /**
   * `np.interp(x, xp, fp)`: fp[0] at or below xp[0], the last fp at or
   * above the last xp, and otherwise the straight line between the two
   * points around x, taken at the first xp that reaches x. For increasing
   * xp this is numpy's documented result.
   */
  function Interp(x: real, xp: seq<real>, fp: seq<real>): real
    requires |xp| == |fp| >= 1
  {
    if x <= xp[0] then fp[0]
    else if x >= xp[|xp| - 1] then fp[|fp| - 1]
    else
      var j := FirstAtLeast(xp, x);
      if xp[j] == x then fp[j]
      else Lerp(fp[j - 1], fp[j], Fraction(xp[j - 1], xp[j], x))
  }

  /** `np.interp(quantiles, np.cumsum(weights), values)` on the sorted rows. */
  function Interpolated(sr: seq<ValueWeight>, qs: seq<real>): (r: seq<real>)
    requires |sr| >= 1
    ensures |r| == |qs|
  {
    seq(|qs|, i requires 0 <= i < |qs| => Interp(qs[i], CumSum(WeightsOf(sr)), ValuesOf(sr)))
  }

  /** The extension's empirical quantile at each probability, in order. */
  function Quantiles(sp: seq<ValueWeight>, qs: seq<real>): (r: seq<real>)
    requires Closed(sp)
    ensures |r| == |qs|
  {
    seq(|qs|, i requires 0 <= i < |qs| => Quantile(sp, qs[i]))
  }

  predicate InUnitRange(qs: seq<real>)
  {
    forall i :: 0 <= i < |qs| ==> 0.0 <= qs[i] <= 1.0
  }

  /**
   * `weighted_quantile(values, quantiles, weights)`: a quantile outside
   * [0, 1] fails its assertion; otherwise the sorted values are read off at
   * each quantile by `np.interp` against the running weight sums.
   */
  function PyWeightedQuantile(vs: seq<real>, qs: seq<real>, ws: seq<real>, sort: Sorter): Outcome<seq<real>>
    requires |vs| == |ws| && SortsByValue(sort)
  {
    if !InUnitRange(qs) then Raise(InvalidProbability)
    else Return(Interpolated(SortedRows(vs, ws, sort), qs))
  }

  /** Every weight is positive: the inputs on which the reference and the extension build the same rows. */
  predicate PositiveWeights(ws: seq<real>)
  {
    forall i :: 0 <= i < |ws| ==> ws[i] > 0.0
  }

  /**
   * With positive weights the completed rows are exactly the closed pairs
   * of the extension, so the sorted rows are a sorted arrangement of them.
   */
  lemma SortedRowsAreClosed(vs: seq<real>, ws: seq<real>, sort: Sorter)
    requires |vs| == |ws| && SortsByValue(sort) && PositiveWeights(ws)
    ensures var sr := SortedRows(vs, ws, sort);
      multiset(sr) == multiset(ClosedPairs(vs, ws)) && SortedByValue(sr) && Closed(sr)
      && TotalWeight(sr) == TotalWeight(ClosedPairs(vs, ws))
      && SquaredWeights(sr) == SquaredWeights(ClosedPairs(vs, ws))
  {
    var c := Completed(vs, ws);
    var cp := ClosedPairs(vs, ws);
    var sr := SortedRows(vs, ws, sort);
    assert Rows(c.values, c.weights) == cp by {
      CompletedRows(vs, ws);
    }
    ClosedPairsShape(vs, ws);
    PermutationKeepsPositive(cp, sr);
    TotalWeightPermutation(cp, sr);
    SquaredWeightsPermutation(cp, sr);
  }

  /** Positive weights that sum to at most 1 are completed to a total of exactly 1. */
  lemma SortedRowsTotalOne(vs: seq<real>, ws: seq<real>, sort: Sorter)
    requires |vs| == |ws| && SortsByValue(sort) && PositiveWeights(ws) && Sum(ws) <= 1.0
    ensures Closed(SortedRows(vs, ws, sort)) && TotalWeight(SortedRows(vs, ws, sort)) == 1.0
  {
    SortedRowsAreClosed(vs, ws, sort);
    ClosedPairsShape(vs, ws);
    WeightSumOverPositivePairs(vs, ws);
  }

  /** The completed rows of positive weights are the closed pairs. */
  lemma CompletedRows(vs: seq<real>, ws: seq<real>)
    requires |vs| == |ws| && PositiveWeights(ws)
    ensures var c := Completed(vs, ws); Rows(c.values, c.weights) == ClosedPairs(vs, ws)
  {
    var ps := PositivePairs(vs, ws);
    assert ps == Rows(vs, ws) by {
      PositivePairsOfRows(vs, ws);
      PositiveOfPositiveRows(Rows(vs, ws));
    }
    assert Sum(ws) == TotalWeight(ps) by {
      WeightSumOverPositivePairs(vs, ws);
    }
    if Sum(ws) < 1.0 {
      RowsSnoc(vs, ws, 0.0, 1.0 - Sum(ws));
    } else {
      NoImplicitZero(ps);
    }
  }

  /** Appending one entry to both columns appends one row. */
  lemma RowsSnoc(vs: seq<real>, ws: seq<real>, v: real, w: real)
    requires |vs| == |ws|
    ensures Rows(vs + [v], ws + [w]) == Rows(vs, ws) + [ValueWeight(v, w)]
  {
  }

  /** Rows whose weights are all positive are all kept. */
  lemma {:induction false} PositiveOfPositiveRows(s: seq<ValueWeight>)
    requires AllPositive(s)
    ensures Positive(s) == s
    decreases |s|
  {
    if s != [] {
      PositiveOfPositiveRows(s[..|s| - 1]);
    }
  }

  /** Entry i of ValuesOf is value i. */
  lemma {:induction false} ValuesOfAt(s: seq<ValueWeight>)
    ensures forall i :: 0 <= i < |s| ==> ValuesOf(s)[i] == s[i].value
    decreases |s|
  {
    if s != [] {
      ValuesOfAt(s[..|s| - 1]);
    }
  }

  /** The weights of a sequence sum to its total weight. */
  lemma {:induction false} SumOfWeights(s: seq<ValueWeight>)
    ensures Sum(WeightsOf(s)) == TotalWeight(s)
    decreases |s|
  {
    if s != [] {
      var n := |s| - 1;
      SumOfWeights(s[..n]);
      SumSnoc(WeightsOf(s[..n]), s[n].weight);
    }
  }

  /** `np.cumsum(weights)` is the extension's running weight sums. */
  lemma {:induction false} CumSumOfWeights(s: seq<ValueWeight>)
    ensures CumSum(WeightsOf(s)) == CumulativeWeights(s)
    decreases |s|
  {
    if s != [] {
      var n := |s| - 1;
      var w := WeightsOf(s);
      CumSumOfWeights(s[..n]);
      assert w[..|w| - 1] == WeightsOf(s[..n]);
      SumOfWeights(s);
    }
  }

  /** At or past a total of 1, interpolation gives the last value. */
  lemma InterpAtTop(sp: seq<ValueWeight>, q: real)
    requires Closed(sp) && TotalWeight(sp) == 1.0 && q >= 1.0
    ensures Interp(q, CumulativeWeights(sp), ValuesOf(sp)) == sp[|sp| - 1].value
  {
    var cum := CumulativeWeights(sp);
    CumulativeEnds(sp);
    ValuesOfAt(sp);
    if |sp| >= 2 {
      CumulativeWeightsFacts(sp);
      assert cum[0] < cum[|sp| - 1];
    }
  }

  /**
   * Strictly past the first weight and below a total of 1, interpolation
   * finds the step the extension's search finds and takes the same
   * fraction within it.
   */
  lemma InterpInside(sp: seq<ValueWeight>, q: real)
    requires Closed(sp) && TotalWeight(sp) == 1.0 && sp[0].weight < q < 1.0
    ensures Interp(q, CumulativeWeights(sp), ValuesOf(sp)) == ValueAtWeight(sp, q)
  {
    CumulativeEnds(sp);
    ValuesOfAt(sp);
    SearchFindsStep(sp, q);
  }

  /**
   * On a sorted closed distribution of total 1, interpolating at q against
   * the running sums is the extension's quantile at q: the same end rules,
   * the same step and the same fraction within it.
   */
  lemma InterpIsQuantile(sp: seq<ValueWeight>, q: real)
    requires Closed(sp) && TotalWeight(sp) == 1.0
    ensures Interp(q, CumSum(WeightsOf(sp)), ValuesOf(sp)) == Quantile(sp, q)
  {
    CumSumOfWeights(sp);
    if q >= 1.0 {
      InterpAtTop(sp, q);
    } else if q > sp[0].weight {
      assert q * TotalWeight(sp) == q;
      InterpInside(sp, q);
    } else {
      CumulativeEnds(sp);
      ValuesOfAt(sp);
    }
  }

  /** At every probability, interpolating a closed distribution of total 1 is its quantile. */
  lemma InterpolatedIsQuantiles(sp: seq<ValueWeight>, qs: seq<real>)
    requires Closed(sp) && TotalWeight(sp) == 1.0
    ensures Interpolated(sp, qs) == Quantiles(sp, qs)
  {
    forall i | 0 <= i < |qs| ensures Interpolated(sp, qs)[i] == Quantiles(sp, qs)[i] {
      InterpIsQuantile(sp, qs[i]);
    }
  }

  /** A quantile outside [0, 1] fails the reference's assertion. */
  lemma PyQuantileRejects(vs: seq<real>, qs: seq<real>, ws: seq<real>, sort: Sorter, i: nat)
    requires |vs| == |ws| && SortsByValue(sort) && i < |qs| && !(0.0 <= qs[i] <= 1.0)
    ensures PyWeightedQuantile(vs, qs, ws, sort) == Raise(InvalidProbability)
  {
  }

  /**
   * With positive weights summing to at most 1 and every quantile in
   * [0, 1], `weighted_quantile` is the extension's empirical quantile of a
   * sorted arrangement of the extension's closed pairs, at every quantile.
   */
  lemma PyQuantileAgrees(vs: seq<real>, qs: seq<real>, ws: seq<real>, sort: Sorter)
    requires |vs| == |ws| && SortsByValue(sort) && PositiveWeights(ws) && Sum(ws) <= 1.0 && InUnitRange(qs)
    ensures var sr := SortedRows(vs, ws, sort);
      multiset(sr) == multiset(ClosedPairs(vs, ws)) && SortedByValue(sr) && Closed(sr)
      && PyWeightedQuantile(vs, qs, ws, sort) == Return(Quantiles(sr, qs))
  {
    SortedRowsAreClosed(vs, ws, sort);
    SortedRowsTotalOne(vs, ws, sort);
    InterpolatedIsQuantiles(SortedRows(vs, ws, sort), qs);
  }

  /** A sorted arrangement of two rows of different values is the two in order. */
  lemma TwoRowsSorted(sort: Sorter, a: ValueWeight, b: ValueWeight)
    requires SortsByValue(sort) && a.value < b.value
    ensures sort([a, b]) == [a, b]
  {
    var s := sort([a, b]);
    assert multiset(s) == multiset([a, b]) && SortedByValue(s);
    assert |s| == 2 by {
      assert |multiset(s)| == |s|;
    }
    assert multiset(s) == multiset{s[0], s[1]} by {
      assert s == [s[0], s[1]];
    }
    assert s[0].value <= s[1].value;
  }

  /**
   * When the weights sum to more than 1 the running sums are not divided
   * by their total, so quantile 1 need not reach the largest value: for
   * values [1, 2] with weights [1, 1] the reference answers 1 where the
   * extension answers 2.
   */
  lemma PyQuantileUnnormalised(vs: seq<real>, qs: seq<real>, ws: seq<real>, sort: Sorter)
    requires vs == [1.0, 2.0] && ws == [1.0, 1.0] && qs == [1.0] && SortsByValue(sort)
    ensures PyWeightedQuantile(vs, qs, ws, sort) == Return([1.0])
    ensures var sr := SortedRows(vs, ws, sort); Closed(sr) && Quantile(sr, 1.0) == 2.0
  {
    var a, b := ValueWeight(1.0, 1.0), ValueWeight(2.0, 1.0);
    var sr := SortedRows(vs, ws, sort);
    TwoSortedRows(vs, ws, sort, a, b);
    var xp, fp := CumSum(WeightsOf(sr)), ValuesOf(sr);
    assert xp == [1.0, 2.0] && fp == [1.0, 2.0] by {
      TwoRowsColumns(sr, a, b);
    }
    assert Interp(1.0, xp, fp) == 1.0;
    var r := Interpolated(sr, qs);
    assert r == [1.0] by {
      assert |r| == 1 && r[0] == Interp(qs[0], xp, fp);
    }
    assert InUnitRange(qs);
  }

  /** Two columns of two entries, weighing at least 1 and with increasing values, sort to their two rows. */
  lemma TwoSortedRows(vs: seq<real>, ws: seq<real>, sort: Sorter, a: ValueWeight, b: ValueWeight)
    requires vs == [a.value, b.value] && ws == [a.weight, b.weight] && SortsByValue(sort)
    requires a.value < b.value && a.weight + b.weight >= 1.0
    ensures SortedRows(vs, ws, sort) == [a, b]
  {
    SumOfTwo(a.weight, b.weight);
    RowsOfTwo(vs, ws, a, b);
    TwoRowsSorted(sort, a, b);
  }

  lemma SumOfTwo(x: real, y: real)
    ensures Sum([x, y]) == x + y
  {
    SumSnoc([x], y);
    SumSnoc([], x);
    assert [x] + [y] == [x, y] && [] + [x] == [x];
  }

  lemma RowsOfTwo(vs: seq<real>, ws: seq<real>, a: ValueWeight, b: ValueWeight)
    requires vs == [a.value, b.value] && ws == [a.weight, b.weight]
    ensures Rows(vs, ws) == [a, b]
  {
  }

  /** The total weight and the squared weights of two pairs. */
  lemma WeightsOfTwo(a: ValueWeight, b: ValueWeight)
    ensures TotalWeight([a, b]) == a.weight + b.weight
    ensures SquaredWeights([a, b]) == a.weight * a.weight + b.weight * b.weight
  {
    var s := [a, b];
    assert s[..1] == [a] && [a][..0] == [];
    assert TotalWeight([a]) == a.weight;
    assert SquaredWeights([a]) == a.weight * a.weight;
  }

  /** The values and the running weight sums of two rows. */
  lemma TwoRowsColumns(sr: seq<ValueWeight>, a: ValueWeight, b: ValueWeight)
    requires sr == [a, b]
    ensures ValuesOf(sr) == [a.value, b.value]
    ensures CumSum(WeightsOf(sr)) == [a.weight, a.weight + b.weight]
  {
    assert sr[..1] == [a] && [a][..0] == [];
    var w := WeightsOf(sr);
    assert WeightsOf([a]) == [a.weight];
    assert w == [a.weight, b.weight];
    assert w[..1] == [a.weight] && [a.weight][..0] == [];
    SumSnoc([a.weight], b.weight);
    assert CumSum([a.weight]) == [a.weight];
  }

  // ---------------------------------------------------------------------
  // wquantile_generic.
  // ---------------------------------------------------------------------

  /** A positive real: the effective sample size a CDF generator receives. */
  type PositiveReal = r: real | r > 0.0 witness 1.0

  /** `cdf_gen(n_eff, p)` evaluated at one grid point x. */
  type CdfGen = (PositiveReal, real, real) -> real

  /** The sum of squares vanishes only when every entry does, and so the sum. */
  lemma {:induction false} SquaresVanish(ws: seq<real>)
    ensures Sum(Squares(ws)) >= 0.0
    ensures Sum(Squares(ws)) == 0.0 ==> Sum(ws) == 0.0
    decreases |ws|
  {
    if ws != [] {
      var n := |ws| - 1;
      var x := ws[n];
      SquaresVanish(ws[..n]);
      SquaresLast(ws);
      SumSnoc(Squares(ws[..n]), x * x);
      MulNonNegativeSquare(x);
      if x > 0.0 {
        MulPositive(x, x, x * x);
      } else if x < 0.0 {
        MulPositive(0.0 - x, 0.0 - x, (0.0 - x) * (0.0 - x));
      }
    }
  }

  /** `sum(weights)**2 / sum(weights**2)` of weights summing to at least 1. */
  function PyKishSize(ws: seq<real>): (n: PositiveReal)
    requires Sum(ws) >= 1.0
    ensures Sum(Squares(ws)) > 0.0 && n == KishSize(Sum(ws), Sum(Squares(ws)))
  {
    SquaresVanish(ws);
    MulPositive(Sum(ws), Sum(ws), Sum(ws) * Sum(ws));
    DivPositive(Sum(ws) * Sum(ws), Sum(Squares(ws)));
    KishSize(Sum(ws), Sum(Squares(ws)))
  }

  /** `np.cumsum(np.insert(weights, 0, [0]))`: 0 followed by the running sums. */
  function CdfProbs(s: seq<ValueWeight>): (c: seq<real>)
    ensures |c| == |s| + 1
  {
    CumSum([0.0] + WeightsOf(s))
  }

  /** `q[1:] - q[:-1]`: the rise of q over each step. */
  function Rises(q: seq<real>): (r: seq<real>)
    requires |q| >= 1
    ensures |r| == |q| - 1
  {
    seq(|q| - 1, i requires 0 <= i < |q| - 1 => q[i + 1] - q[i])
  }

  /** `np.sum(w * values)` with w the rises of the CDF grid q. */
  function PyMix(q: seq<real>, vs: seq<real>): real
    requires |q| == |vs| + 1
  {
    Dot(Rises(q), vs)
  }

  /** The CDF of the generator at n and p over a grid of points. */
  function GenGrid(gen: CdfGen, n: PositiveReal, p: real, c: seq<real>): (g: seq<real>)
    ensures |g| == |c|
  {
    seq(|c|, k requires 0 <= k < |c| => gen(n, p, c[k]))
  }

  /**
   * `wquantile_generic(values, quantiles, cdf_gen, weights)`: the missing
   * mass is added at 0, n_eff is Kish's size of the completed weights, the
   * rows are sorted and their weights divided by their sum, and each
   * quantile is the sum of the values weighted by the rises of the CDF over
   * the running probabilities.
   */
  function PyWQuantileGeneric(vs: seq<real>, qs: seq<real>, gen: CdfGen, ws: seq<real>, sort: Sorter): (r: seq<real>)
    requires |vs| == |ws| && SortsByValue(sort)
    ensures |r| == |qs|
  {
    var c := Completed(vs, ws);
    var nw := PyKishSize(c.weights);
    var sr := SortedRows(vs, ws, sort);
    SortedRowsWeigh(vs, ws, sort);
    var np := Scaled(sr, Sum(WeightsOf(sr)));
    var cdfProbs := CdfProbs(np);
    seq(|qs|, i requires 0 <= i < |qs| => PyMix(GenGrid(gen, nw, qs[i], cdfProbs), ValuesOf(sr)))
  }

  /** Sorting keeps the sum of the weights and the sum of their squares. */
  lemma SortedRowsWeigh(vs: seq<real>, ws: seq<real>, sort: Sorter)
    requires |vs| == |ws| && SortsByValue(sort)
    ensures var c := Completed(vs, ws); var sr := SortedRows(vs, ws, sort);
      Sum(WeightsOf(sr)) == TotalWeight(sr) == Sum(c.weights) && SquaredWeights(sr) == Sum(Squares(c.weights))
  {
    var c := Completed(vs, ws);
    var rows := Rows(c.values, c.weights);
    var sr := SortedRows(vs, ws, sort);
    SumOfWeights(sr);
    TotalWeightPermutation(rows, sr);
    SquaredWeightsPermutation(rows, sr);
    RowsSums(c.values, c.weights);
  }

  /** The rows of two columns weigh what the weights column sums to. */
  lemma {:induction false} RowsSums(vs: seq<real>, ws: seq<real>)
    requires |vs| == |ws|
    ensures TotalWeight(Rows(vs, ws)) == Sum(ws) && SquaredWeights(Rows(vs, ws)) == Sum(Squares(ws))
    decreases |vs|
  {
    if vs != [] {
      var n := |vs| - 1;
      var r := Rows(vs, ws);
      RowsSums(vs[..n], ws[..n]);
      assert r[..n] == Rows(vs[..n], ws[..n]);
      SquaresLast(ws);
      SumSnoc(Squares(ws[..n]), ws[n] * ws[n]);
    }
  }

  /** A leading 0 does not change a sum. */
  lemma {:induction false} SumAfterZero(xs: seq<real>)
    ensures Sum([0.0] + xs) == Sum(xs)
    decreases |xs|
  {
    if xs != [] {
      var n := |xs| - 1;
      var a := [0.0] + xs;
      SumAfterZero(xs[..n]);
      assert a[..|a| - 1] == [0.0] + xs[..n] && a[|a| - 1] == xs[n];
    }
  }

  /** The running sums after a leading 0 are 0 followed by the running sums. */
  lemma {:induction false} CumSumAfterZero(xs: seq<real>)
    ensures CumSum([0.0] + xs) == [0.0] + CumSum(xs)
    decreases |xs|
  {
    var a := [0.0] + xs;
    if xs == [] {
      assert a[..0] == [];
    } else {
      var n := |xs| - 1;
      CumSumAfterZero(xs[..n]);
      assert a[..|a| - 1] == [0.0] + xs[..n];
      SumAfterZero(xs);
    }
  }

  /** `cdf_probs` is the extension's running probabilities: 0, then each running sum. */
  lemma CdfProbsAreCumulative(s: seq<ValueWeight>)
    ensures CdfProbs(s) == CumulativeProbs(s)
  {
    CumSumAfterZero(WeightsOf(s));
    CumSumOfWeights(s);
  }

  /** Summing the rise-weighted values is the extension's CDF mix, cell by cell. */
  lemma {:induction false} PyMixIsCdfMix(s: seq<ValueWeight>, q: seq<real>)
    requires |q| == |s| + 1
    ensures PyMix(q, ValuesOf(s)) == CdfMix(s, q)
    decreases |s|
  {
    if s != [] {
      var k := |s| - 1;
      var q' := q[..k + 1];
      PyMixIsCdfMix(s[..k], q');
      assert Rises(q)[..k] == Rises(q');
      assert ValuesOf(s)[..k] == ValuesOf(s[..k]);
    }
  }

  /** Normalising keeps the values column. */
  lemma ValuesOfNormalised(s: seq<ValueWeight>)
    requires Closed(s)
    ensures ValuesOf(Normalise(s)) == ValuesOf(s)
  {
    ValuesOfAt(s);
    ValuesOfAt(Normalise(s));
  }

  /**
   * The mix the extension forms with a CDF: the CDF at the effective size of
   * the normalised pairs, evaluated over their running probabilities, with
   * its rises weighting the values.
   */
  function GenMix(sp: seq<ValueWeight>, gen: CdfGen, p: real): real
    requires Closed(sp)
  {
    var np := Normalise(sp);
    CdfMix(np, GenGrid(gen, EffectiveSize(np), p, CumulativeProbs(np)))
  }

  function GenMixes(sp: seq<ValueWeight>, gen: CdfGen, qs: seq<real>): (r: seq<real>)
    requires Closed(sp)
    ensures |r| == |qs|
  {
    seq(|qs|, i requires 0 <= i < |qs| => GenMix(sp, gen, qs[i]))
  }

  /**
   * With positive weights, `wquantile_generic` is, at every quantile and for
   * every CDF generator, the extension's mix over a sorted arrangement of
   * its closed pairs: the completed n_eff is the effective size of the
   * normalised pairs and `cdf_probs` their running probabilities.
   */
  lemma GenericIsGenMix(vs: seq<real>, qs: seq<real>, gen: CdfGen, ws: seq<real>, sort: Sorter)
    requires |vs| == |ws| && SortsByValue(sort) && PositiveWeights(ws)
    ensures var sr := SortedRows(vs, ws, sort);
      Closed(sr) && PyWQuantileGeneric(vs, qs, gen, ws, sort) == GenMixes(sr, gen, qs)
  {
    var c := Completed(vs, ws);
    var nw := PyKishSize(c.weights);
    var sr := SortedRows(vs, ws, sort);
    SortedRowsAreClosed(vs, ws, sort);
    SortedRowsWeigh(vs, ws, sort);
    var np := Scaled(sr, Sum(WeightsOf(sr)));
    assert np == Normalise(sr);
    assert nw == EffectiveSize(np) by {
      EffectiveSizeScaleFree(sr);
    }
    var cp := CdfProbs(np);
    assert cp == CumulativeProbs(np) by {
      CdfProbsAreCumulative(np);
    }
    ValuesOfNormalised(sr);
    forall i | 0 <= i < |qs|
      ensures PyWQuantileGeneric(vs, qs, gen, ws, sort)[i] == GenMixes(sr, gen, qs)[i]
    {
      PyMixIsCdfMix(np, GenGrid(gen, nw, qs[i], cp));
    }
  }

  // ---------------------------------------------------------------------
  // type_7_cdf and wquantile.
  // ---------------------------------------------------------------------

  /**
   * `type_7_cdf(x, n, p)`: with h = p (n - 1) + 1, x is clamped to
   * [(h - 1)/n, h/n] and that interval is mapped linearly onto [0, 1].
   */
  function PyType7Cdf(n: PositiveReal, p: real, x: real): real
  {
    ClampedLine(p * (n - 1.0) + 1.0, n, x)
  }

  /** The Type-7 CDF rises from 0 at (h - 1)/n to 1 at h/n, never falls and stays in [0, 1]. */
  lemma PyType7CdfShape(n: PositiveReal, p: real, x: real, y: real)
    ensures 0.0 <= PyType7Cdf(n, p, x) <= 1.0
    ensures x <= y ==> PyType7Cdf(n, p, x) <= PyType7Cdf(n, p, y)
    ensures var h := p * (n - 1.0) + 1.0; PyType7Cdf(n, p, (h - 1.0) / n) == 0.0 && PyType7Cdf(n, p, h / n) == 1.0
  {
    ClampedLineIsType7Cdf(n, p, x);
    ClampedLineIsType7Cdf(n, p, y);
    Type7CdfBounds(n, p, x);
    if x <= y {
      Type7CdfMonotone(n, p, x, y);
    }
    ClampedLineEnds(p * (n - 1.0) + 1.0, n);
  }

  /** `cdf_gen_t7`. */
  const Type7Gen: CdfGen := (n: PositiveReal, p: real, x: real) => PyType7Cdf(n, p, x)

  /** `wquantile(values, quantiles, weights)`: the generic estimator with the Type-7 CDF. */
  function PyWQuantile(vs: seq<real>, qs: seq<real>, ws: seq<real>, sort: Sorter): (r: seq<real>)
    requires |vs| == |ws| && SortsByValue(sort)
    ensures |r| == |qs|
  {
    PyWQuantileGeneric(vs, qs, Type7Gen, ws, sort)
  }

  /** Strictly inside (0, 1), the Type-7 mix is the extension's Type-7 estimate. */
  lemma Type7MixAgrees(sp: seq<ValueWeight>, p: real)
    requires Closed(sp) && 0.0 < p < 1.0
    ensures GenMix(sp, Type7Gen, p) == Type7Quantile(sp, p)
  {
    var np := Normalise(sp);
    Type7GridIsGenGrid(EffectiveSize(np), p, CumulativeProbs(np));
  }

  /** Over any grid, `type_7_cdf` computes the extension's Type-7 CDF point by point. */
  lemma Type7GridIsGenGrid(n: PositiveReal, p: real, c: seq<real>)
    ensures GenGrid(Type7Gen, n, p, c) == Type7Grid(n, p, c)
  {
    forall k | 0 <= k < |c| ensures GenGrid(Type7Gen, n, p, c)[k] == Type7Grid(n, p, c)[k] {
      ClampedLineIsType7Cdf(n, p, c[k]);
    }
  }

  predicate InOpenUnit(qs: seq<real>)
  {
    forall i :: 0 <= i < |qs| ==> 0.0 < qs[i] < 1.0
  }

  function Type7Quantiles(sp: seq<ValueWeight>, qs: seq<real>): (r: seq<real>)
    requires Closed(sp)
    ensures |r| == |qs|
  {
    seq(|qs|, i requires 0 <= i < |qs| => Type7Quantile(sp, qs[i]))
  }

  /**
   * With positive weights and every quantile strictly inside (0, 1),
   * `wquantile` is the extension's Type-7 estimate of a sorted arrangement
   * of its closed pairs, quantile by quantile.
   */
  lemma PyWQuantileAgrees(vs: seq<real>, qs: seq<real>, ws: seq<real>, sort: Sorter)
    requires |vs| == |ws| && SortsByValue(sort) && PositiveWeights(ws) && InOpenUnit(qs)
    ensures var sr := SortedRows(vs, ws, sort);
      multiset(sr) == multiset(ClosedPairs(vs, ws)) && SortedByValue(sr) && Closed(sr)
      && PyWQuantile(vs, qs, ws, sort) == Type7Quantiles(sr, qs)
  {
    var sr := SortedRows(vs, ws, sort);
    SortedRowsAreClosed(vs, ws, sort);
    GenericIsGenMix(vs, qs, Type7Gen, ws, sort);
    forall i | 0 <= i < |qs| ensures GenMixes(sr, Type7Gen, qs)[i] == Type7Quantiles(sr, qs)[i] {
      Type7MixAgrees(sr, qs[i]);
    }
  }

  // ---------------------------------------------------------------------
  // whdquantile.
  // ---------------------------------------------------------------------

  /** `scipy.stats.beta.cdf(x, a, b)`, a library call the model takes as given. */
  type BetaCdfFn = (real, real, real) -> real

  /** `cdf_gen_whd`: the beta CDF with shapes (n + 1) p and (n + 1)(1 - p). */
  function WhdGen(betaCdf: BetaCdfFn): CdfGen
  {
    (n: PositiveReal, p: real, x: real) => betaCdf(x, ShapeA(n, p), ShapeB(n, p))
  }

  /** `whdquantile(values, quantiles, weights)`: the generic estimator with the beta CDF. */
  function PyWhdQuantile(vs: seq<real>, qs: seq<real>, ws: seq<real>, sort: Sorter, betaCdf: BetaCdfFn): (r: seq<real>)
    requires |vs| == |ws| && SortsByValue(sort)
    ensures |r| == |qs|
  {
    PyWQuantileGeneric(vs, qs, WhdGen(betaCdf), ws, sort)
  }

  /** The library beta CDF and the extension's continued-fraction evaluation agree wherever both shapes are positive. */
  ghost predicate SameBeta(core: LentzCore, betaCdf: BetaCdfFn)
  {
    forall x, a, b :: a > 0.0 && b > 0.0 ==> BetaCdf(core, x, a, b) == Some(betaCdf(x, a, b))
  }

  /**
   * Over at least two pairs and strictly inside (0, 1), the extension's
   * Harrell-Davis estimate is defined and is the mix of the beta CDF.
   */
  lemma HdMixAgrees(core: LentzCore, betaCdf: BetaCdfFn, sp: seq<ValueWeight>, p: real)
    requires Closed(sp) && |sp| >= 2 && 0.0 < p < 1.0 && SameBeta(core, betaCdf)
    ensures HdQuantile(core, sp, p) == Some(GenMix(sp, WhdGen(betaCdf), p))
  {
    var np := Normalise(sp);
    var n := EffectiveSize(np);
    var cp := CumulativeProbs(np);
    DegenerateExactly(sp, p);
    var g := GridAt(core, sp, p);
    var gen := GenGrid(WhdGen(betaCdf), n, p, cp);
    forall k | 0 <= k < |g| ensures g[k] == Some(gen[k]) {
      assert BetaCdf(core, cp[k], ShapeA(n, p), ShapeB(n, p)) == Some(betaCdf(cp[k], ShapeA(n, p), ShapeB(n, p)));
    }
    assert Values(g) == gen;
    HdMixIsCdfMix(np, g);
  }

  /**
   * With positive weights leaving at least two closed pairs and every
   * quantile strictly inside (0, 1), `whdquantile` is the extension's
   * Harrell-Davis estimate of a sorted arrangement of the closed pairs,
   * given a beta CDF that agrees with the extension's.
   */
  lemma PyWhdQuantileAgrees(vs: seq<real>, qs: seq<real>, ws: seq<real>, sort: Sorter,
                            core: LentzCore, betaCdf: BetaCdfFn)
    requires |vs| == |ws| && SortsByValue(sort) && PositiveWeights(ws) && InOpenUnit(qs)
    requires |ClosedPairs(vs, ws)| >= 2 && SameBeta(core, betaCdf)
    ensures var sr := SortedRows(vs, ws, sort);
      multiset(sr) == multiset(ClosedPairs(vs, ws)) && SortedByValue(sr) && Closed(sr)
      && forall i :: 0 <= i < |qs| ==> HdQuantile(core, sr, qs[i]) == Some(PyWhdQuantile(vs, qs, ws, sort, betaCdf)[i])
  {
    var sr := SortedRows(vs, ws, sort);
    SortedRowsAreClosed(vs, ws, sort);
    assert |sr| == |ClosedPairs(vs, ws)| by {
      assert |multiset(sr)| == |sr|;
    }
    GenericIsGenMix(vs, qs, WhdGen(betaCdf), ws, sort);
    forall i | 0 <= i < |qs| ensures HdQuantile(core, sr, qs[i]) == Some(GenMixes(sr, WhdGen(betaCdf), qs)[i]) {
      HdMixAgrees(core, betaCdf, sr, qs[i]);
    }
  }

  /**
   * Over a single closed pair the extension answers NaN (a degenerate
   * estimate), while `whdquantile` returns the pair's value, since the
   * beta CDF rises from 0 to 1 across the one step.
   */
  lemma PyWhdSingleRow(vs: seq<real>, qs: seq<real>, ws: seq<real>, sort: Sorter,
                       core: LentzCore, betaCdf: BetaCdfFn)
    requires |vs| == |ws| && SortsByValue(sort) && PositiveWeights(ws) && InOpenUnit(qs)
    requires |ClosedPairs(vs, ws)| == 1 && SameBeta(core, betaCdf)
    ensures var sr := SortedRows(vs, ws, sort);
      Closed(sr) && forall i :: 0 <= i < |qs| ==>
        HdQuantile(core, sr, qs[i]) == None && PyWhdQuantile(vs, qs, ws, sort, betaCdf)[i] == sr[0].value
  {
    var sr := SortedRows(vs, ws, sort);
    SortedRowsAreClosed(vs, ws, sort);
    assert |sr| == 1 by {
      assert |multiset(sr)| == |sr|;
    }
    var r := PyWhdQuantile(vs, qs, ws, sort, betaCdf);
    assert r == GenMixes(sr, WhdGen(betaCdf), qs) by {
      GenericIsGenMix(vs, qs, WhdGen(betaCdf), ws, sort);
    }
    forall i | 0 <= i < |qs| ensures HdQuantile(core, sr, qs[i]) == None {
      DegenerateExactly(sr, qs[i]);
    }
    forall i | 0 <= i < |qs| ensures r[i] == sr[0].value {
      SingleRowMix(core, betaCdf, sr, qs[i]);
    }
  }

  /** The beta mix over one pair is its value. */
  lemma SingleRowMix(core: LentzCore, betaCdf: BetaCdfFn, sp: seq<ValueWeight>, p: real)
    requires Closed(sp) && |sp| == 1 && 0.0 < p < 1.0 && SameBeta(core, betaCdf)
    ensures GenMix(sp, WhdGen(betaCdf), p) == sp[0].value
  {
    var np := Normalise(sp);
    var n := EffectiveSize(np);
    var cp := CumulativeProbs(np);
    var a, b := ShapeA(n, p), ShapeB(n, p);
    assert a > 0.0 && b > 0.0 by {
      ShapesPositive(n, p);
    }
    assert cp[0] == 0.0 && cp[1] == 1.0 by {
      CumulativeProbsAt(np);
    }
    var g := GenGrid(WhdGen(betaCdf), n, p, cp);
    assert g[0] == 0.0 by {
      assert g[0] == betaCdf(0.0, a, b);
      assert BetaCdf(core, 0.0, a, b) == Some(betaCdf(0.0, a, b));
    }
    assert g[1] == 1.0 by {
      assert g[1] == betaCdf(1.0, a, b);
      assert BetaCdf(core, 1.0, a, b) == Some(betaCdf(1.0, a, b));
    }
    CdfMixOfOne(np, g);
  }

  /** Over one pair the mix is the CDF's rise times the value. */
  lemma CdfMixOfOne(s: seq<ValueWeight>, g: seq<real>)
    requires |s| == 1 && |g| == 2
    ensures CdfMix(s, g) == (g[1] - g[0]) * s[0].value
  {
    assert s[..0] == [];
  }

  /** Over two pairs the mix is each CDF rise times its value. */
  lemma CdfMixOfTwo(s: seq<ValueWeight>, g: seq<real>)
    requires |s| == 2 && |g| == 3
    ensures CdfMix(s, g) == (g[1] - g[0]) * s[0].value + (g[2] - g[1]) * s[1].value
  {
    CdfMixOfOne(s[..1], g[..2]);
  }

  /**
   * At p = 0 the extension returns the smallest value, while `wquantile`
   * evaluates the Type-7 CDF at h = 1, which reaches the first value only
   * when its weight times n_eff reaches 1: for values [0, 1] with weights
   * [0.25, 0.75], n_eff = 1.6 and the reference answers 0.6 where the
   * extension answers 0.
   */
  lemma PyWQuantileAtZero(vs: seq<real>, qs: seq<real>, ws: seq<real>, sort: Sorter)
    requires vs == [0.0, 1.0] && ws == [0.25, 0.75] && qs == [0.0] && SortsByValue(sort)
    ensures var sr := SortedRows(vs, ws, sort);
      Closed(sr) && Type7Quantile(sr, 0.0) == 0.0 && PyWQuantile(vs, qs, ws, sort) == [0.6]
  {
    var a, b := ValueWeight(0.0, 0.25), ValueWeight(1.0, 0.75);
    var sr := SortedRows(vs, ws, sort);
    TwoSortedRows(vs, ws, sort, a, b);
    assert PositiveWeights(ws);
    var r := PyWQuantile(vs, qs, ws, sort);
    assert r[0] == GenMix(sr, Type7Gen, 0.0) by {
      GenericIsGenMix(vs, qs, Type7Gen, ws, sort);
    }
    Type7AtZeroExample(sr, a, b);
    assert r == [0.6];
  }

  /** The Type-7 mix at p = 0 of the rows (0, 0.25) and (1, 0.75). */
  lemma Type7AtZeroExample(sr: seq<ValueWeight>, a: ValueWeight, b: ValueWeight)
    requires a == ValueWeight(0.0, 0.25) && b == ValueWeight(1.0, 0.75) && sr == [a, b]
    ensures Closed(sr) && GenMix(sr, Type7Gen, 0.0) == 0.6
  {
    assert Closed(sr);
    WeightsOfTwo(a, b);
    assert Normalise(sr) == sr by {
      NormaliseOfUnit(sr);
    }
    assert EffectiveSize(sr) == 1.6;
    var cp := CumulativeProbs(sr);
    assert cp == [0.0, 0.25, 1.0] by {
      CumulativeProbsOfTwo(a, b);
    }
    var g := GenGrid(Type7Gen, 1.6, 0.0, cp);
    assert g == [0.0, 0.4, 1.0] by {
      Type7GridAtZero(cp);
    }
    CdfMixOfTwo(sr, g);
  }

  /** Pairs that already weigh 1 are their own normalisation. */
  lemma NormaliseOfUnit(s: seq<ValueWeight>)
    requires Closed(s) && TotalWeight(s) == 1.0
    ensures Normalise(s) == s
  {
    var r := Scaled(s, 1.0);
    assert r == s by {
      ScaledAt(s, 1.0);
      forall i | 0 <= i < |s| ensures r[i] == s[i] {
        assert r[i].value == s[i].value && r[i].weight == s[i].weight / 1.0;
      }
    }
    assert Normalise(s) == r;
  }

  /** The running probabilities of two pairs. */
  lemma CumulativeProbsOfTwo(a: ValueWeight, b: ValueWeight)
    ensures CumulativeProbs([a, b]) == [0.0, a.weight, a.weight + b.weight]
  {
    var s := [a, b];
    CumulativeProbsAt(s);
    assert s[..1] == [a] && [a][..0] == [] && s[..2] == s;
    assert TotalWeight([a]) == a.weight;
    WeightsOfTwo(a, b);
  }

  /** The Type-7 CDF at n = 1.6 and p = 0 over the grid 0, 0.25, 1. */
  lemma Type7GridAtZero(cp: seq<real>)
    requires cp == [0.0, 0.25, 1.0]
    ensures GenGrid(Type7Gen, 1.6, 0.0, cp) == [0.0, 0.4, 1.0]
  {
    var g := GenGrid(Type7Gen, 1.6, 0.0, cp);
    assert g[0] == ClampedLine(1.0, 1.6, 0.0);
    assert g[1] == ClampedLine(1.0, 1.6, 0.25);
    assert g[2] == ClampedLine(1.0, 1.6, 1.0);
  }
}
