/**
 * The (value, weight) record of the extension, its comparator, and the
 * sparse-mass convention: only entries with a positive weight take part, and
 * when their weights sum to less than 1 the missing mass sits on an implicit
 * value 0.
 */
module Pairs {

  datatype ValueWeight = ValueWeight(value: real, weight: real)

  /** The `qsort` comparator: orders records by value only. */
  function CompareValueWeight(a: ValueWeight, b: ValueWeight): (c: int)
    ensures c == -1 <==> a.value < b.value
    ensures c == 1 <==> a.value > b.value
    ensures c == 0 <==> a.value == b.value
  {
    if a.value < b.value then -1
    else if a.value > b.value then 1
    else 0
  }

  /** The comparator never looks at weights: re-weighting either record keeps the answer. */
  lemma CompareIgnoresWeight(a: ValueWeight, b: ValueWeight, wa: real, wb: real)
    ensures CompareValueWeight(a, b) == CompareValueWeight(a.(weight := wa), b.(weight := wb))
  {
  }

  ghost predicate SortedByValue(s: seq<ValueWeight>)
  {
    forall i, j :: 0 <= i < j < |s| ==> s[i].value <= s[j].value
  }

  predicate AllPositive(s: seq<ValueWeight>)
  {
    forall i :: 0 <= i < |s| ==> s[i].weight > 0.0
  }

  /** The distributions the quantiles are taken of: never empty, every weight positive. */
  predicate Closed(sp: seq<ValueWeight>)
  {
    |sp| >= 1 && AllPositive(sp)
  }

  // ---------------------------------------------------------------------
  // Sums over pair sequences, defined from the end so that they follow the
  // accumulator loops of the C code one element at a time.
  // ---------------------------------------------------------------------

  function TotalWeight(s: seq<ValueWeight>): real
  {
    if s == [] then 0.0 else TotalWeight(s[..|s| - 1]) + s[|s| - 1].weight
  }

  function WeightedSum(s: seq<ValueWeight>): real
  {
    if s == [] then 0.0 else WeightedSum(s[..|s| - 1]) + s[|s| - 1].value * s[|s| - 1].weight
  }

  function SquaredWeights(s: seq<ValueWeight>): real
  {
    if s == [] then 0.0 else SquaredWeights(s[..|s| - 1]) + s[|s| - 1].weight * s[|s| - 1].weight
  }

  /** Sum of w * (v - m)^2. */
  function SquaredDeviations(s: seq<ValueWeight>, m: real): real
  {
    if s == [] then 0.0
    else
      var x := s[|s| - 1];
      SquaredDeviations(s[..|s| - 1], m) + x.weight * (x.value - m) * (x.value - m)
  }

  lemma {:induction false} TotalWeightAppend(a: seq<ValueWeight>, b: seq<ValueWeight>)
    ensures TotalWeight(a + b) == TotalWeight(a) + TotalWeight(b)
    decreases |b|
  {
    if b != [] {
      assert (a + b)[..|a + b| - 1] == a + b[..|b| - 1];
      TotalWeightAppend(a, b[..|b| - 1]);
    } else {
      assert a + b == a;
    }
  }

  lemma {:induction false} WeightedSumAppend(a: seq<ValueWeight>, b: seq<ValueWeight>)
    ensures WeightedSum(a + b) == WeightedSum(a) + WeightedSum(b)
    decreases |b|
  {
    if b != [] {
      assert (a + b)[..|a + b| - 1] == a + b[..|b| - 1];
      WeightedSumAppend(a, b[..|b| - 1]);
    } else {
      assert a + b == a;
    }
  }

  lemma {:induction false} SquaredWeightsAppend(a: seq<ValueWeight>, b: seq<ValueWeight>)
    ensures SquaredWeights(a + b) == SquaredWeights(a) + SquaredWeights(b)
    decreases |b|
  {
    if b != [] {
      assert (a + b)[..|a + b| - 1] == a + b[..|b| - 1];
      SquaredWeightsAppend(a, b[..|b| - 1]);
    } else {
      assert a + b == a;
    }
  }

  lemma {:induction false} SquaredDeviationsAppend(a: seq<ValueWeight>, b: seq<ValueWeight>, m: real)
    ensures SquaredDeviations(a + b, m) == SquaredDeviations(a, m) + SquaredDeviations(b, m)
    decreases |b|
  {
    if b != [] {
      assert (a + b)[..|a + b| - 1] == a + b[..|b| - 1];
      SquaredDeviationsAppend(a, b[..|b| - 1], m);
    } else {
      assert a + b == a;
    }
  }

  /** Reordering the records keeps the total weight: the sort does not change `total_weight`. */
  lemma {:induction false} TotalWeightPermutation(s: seq<ValueWeight>, t: seq<ValueWeight>)
    requires multiset(s) == multiset(t)
    ensures TotalWeight(s) == TotalWeight(t)
    decreases |s|
  {
    if s == [] {
      assert |t| == |multiset(t)| == 0;
    } else {
      var x := s[|s| - 1];
      var init := s[..|s| - 1];
      assert s == init + [x];
      assert x in multiset(t);
      var k :| 0 <= k < |t| && t[k] == x;
      var rest := t[..k] + t[k + 1..];
      RemoveMatching(s, t, k);
      TotalWeightPermutation(init, rest);
      TotalWeightWithout(t, k);
    }
  }

  /** The total weight of t is that of t without record k, plus record k's weight. */
  lemma TotalWeightWithout(t: seq<ValueWeight>, k: nat)
    requires k < |t|
    ensures TotalWeight(t) == TotalWeight(t[..k] + t[k + 1..]) + t[k].weight
  {
    var a, x, b := t[..k], t[k], t[k + 1..];
    var xb := [x] + b;
    assert TotalWeight(t) == TotalWeight(a) + TotalWeight(xb) by {
      assert t == a + xb;
      TotalWeightAppend(a, xb);
    }
    assert TotalWeight(xb) == x.weight + TotalWeight(b) by {
      TotalWeightAppend([x], b);
      assert [x][..0] == [];
    }
    assert TotalWeight(a + b) == TotalWeight(a) + TotalWeight(b) by {
      TotalWeightAppend(a, b);
    }
  }

  /** Reordering the records keeps the weighted sum. */
  lemma {:induction false} WeightedSumPermutation(s: seq<ValueWeight>, t: seq<ValueWeight>)
    requires multiset(s) == multiset(t)
    ensures WeightedSum(s) == WeightedSum(t)
    decreases |s|
  {
    if s == [] {
      assert |t| == |multiset(t)| == 0;
    } else {
      var x := s[|s| - 1];
      var init := s[..|s| - 1];
      assert x in multiset(t);
      var k :| 0 <= k < |t| && t[k] == x;
      var rest := t[..k] + t[k + 1..];
      RemoveMatching(s, t, k);
      WeightedSumPermutation(init, rest);
      WeightedSumWithout(t, k);
      WeightedSumSingle(x);
    }
  }

  /** The weighted sum of t is that of t without record k, plus that of record k alone. */
  lemma WeightedSumWithout(t: seq<ValueWeight>, k: nat)
    requires k < |t|
    ensures WeightedSum(t) == WeightedSum(t[..k] + t[k + 1..]) + WeightedSum([t[k]])
  {
    var a, x, b := t[..k], t[k], t[k + 1..];
    var xb := [x] + b;
    assert WeightedSum(t) == WeightedSum(a) + WeightedSum(xb) by {
      assert t == a + xb;
      WeightedSumAppend(a, xb);
    }
    assert WeightedSum(xb) == WeightedSum([x]) + WeightedSum(b) by {
      WeightedSumAppend([x], b);
    }
    assert WeightedSum(a + b) == WeightedSum(a) + WeightedSum(b) by {
      WeightedSumAppend(a, b);
    }
  }

  lemma WeightedSumSingle(x: ValueWeight)
    ensures WeightedSum([x]) == x.value * x.weight
  {
    assert [x][..0] == [];
  }

  lemma SquaredDeviationsSingle(x: ValueWeight, m: real)
    ensures SquaredDeviations([x], m) == x.weight * (x.value - m) * (x.value - m)
  {
    assert [x][..0] == [];
  }

  lemma SquaredWeightsSingle(x: ValueWeight)
    ensures SquaredWeights([x]) == x.weight * x.weight
  {
    assert [x][..0] == [];
  }

  /** Reordering the records keeps the sum of squared weights. */
  lemma {:induction false} SquaredWeightsPermutation(s: seq<ValueWeight>, t: seq<ValueWeight>)
    requires multiset(s) == multiset(t)
    ensures SquaredWeights(s) == SquaredWeights(t)
    decreases |s|
  {
    if s == [] {
      assert |t| == |multiset(t)| == 0;
    } else {
      var x := s[|s| - 1];
      assert x in multiset(t);
      var k :| 0 <= k < |t| && t[k] == x;
      RemoveMatching(s, t, k);
      SquaredWeightsPermutation(s[..|s| - 1], t[..k] + t[k + 1..]);
      SquaredWeightsWithout(t, k);
      assert s == s[..|s| - 1] + [x];
      SquaredWeightsAppend(s[..|s| - 1], [x]);
    }
  }

  lemma SquaredWeightsWithout(t: seq<ValueWeight>, k: nat)
    requires k < |t|
    ensures SquaredWeights(t) == SquaredWeights(t[..k] + t[k + 1..]) + SquaredWeights([t[k]])
  {
    var a, x, b := t[..k], t[k], t[k + 1..];
    var xb := [x] + b;
    assert SquaredWeights(t) == SquaredWeights(a) + SquaredWeights(xb) by {
      assert t == a + xb;
      SquaredWeightsAppend(a, xb);
    }
    assert SquaredWeights(xb) == SquaredWeights([x]) + SquaredWeights(b) by {
      SquaredWeightsAppend([x], b);
    }
    assert SquaredWeights(a + b) == SquaredWeights(a) + SquaredWeights(b) by {
      SquaredWeightsAppend(a, b);
    }
  }

  /** Reordering the records keeps the sum of squared deviations from any centre. */
  lemma {:induction false} SquaredDeviationsPermutation(s: seq<ValueWeight>, t: seq<ValueWeight>, m: real)
    requires multiset(s) == multiset(t)
    ensures SquaredDeviations(s, m) == SquaredDeviations(t, m)
    decreases |s|
  {
    if s == [] {
      assert |t| == |multiset(t)| == 0;
    } else {
      var x := s[|s| - 1];
      assert x in multiset(t);
      var k :| 0 <= k < |t| && t[k] == x;
      RemoveMatching(s, t, k);
      SquaredDeviationsPermutation(s[..|s| - 1], t[..k] + t[k + 1..], m);
      SquaredDeviationsWithout(t, k, m);
      assert s == s[..|s| - 1] + [x];
      SquaredDeviationsAppend(s[..|s| - 1], [x], m);
    }
  }

  lemma SquaredDeviationsWithout(t: seq<ValueWeight>, k: nat, m: real)
    requires k < |t|
    ensures SquaredDeviations(t, m) == SquaredDeviations(t[..k] + t[k + 1..], m) + SquaredDeviations([t[k]], m)
  {
    var a, x, b := t[..k], t[k], t[k + 1..];
    var xb := [x] + b;
    assert SquaredDeviations(t, m) == SquaredDeviations(a, m) + SquaredDeviations(xb, m) by {
      assert t == a + xb;
      SquaredDeviationsAppend(a, xb, m);
    }
    assert SquaredDeviations(xb, m) == SquaredDeviations([x], m) + SquaredDeviations(b, m) by {
      SquaredDeviationsAppend([x], b, m);
    }
    assert SquaredDeviations(a + b, m) == SquaredDeviations(a, m) + SquaredDeviations(b, m) by {
      SquaredDeviationsAppend(a, b, m);
    }
  }

  /** Taking the last record of s and a matching record of t out of both keeps them permutations. */
  lemma RemoveMatching(s: seq<ValueWeight>, t: seq<ValueWeight>, k: nat)
    requires multiset(s) == multiset(t) && s != [] && k < |t| && t[k] == s[|s| - 1]
    ensures multiset(t[..k] + t[k + 1..]) == multiset(s[..|s| - 1])
  {
    var x := t[k];
    assert s == s[..|s| - 1] + [x];
    assert t == t[..k] + [x] + t[k + 1..];
    calc {
      multiset(t[..k] + t[k + 1..]);
      multiset(t[..k]) + multiset(t[k + 1..]);
      multiset(t) - multiset{x};
      multiset(s) - multiset{x};
      multiset(s[..|s| - 1]);
    }
  }

  lemma {:induction false} TotalWeightPositive(s: seq<ValueWeight>)
    requires AllPositive(s)
    ensures TotalWeight(s) >= 0.0
    ensures s != [] ==> TotalWeight(s) > 0.0
    decreases |s|
  {
    if s != [] {
      TotalWeightPositive(s[..|s| - 1]);
    }
  }

  lemma {:induction false} SquaredDeviationsNonNegative(s: seq<ValueWeight>, m: real)
    requires AllPositive(s)
    ensures SquaredDeviations(s, m) >= 0.0
    decreases |s|
  {
    if s != [] {
      var x := s[|s| - 1];
      SquaredDeviationsNonNegative(s[..|s| - 1], m);
      assert (x.value - m) * (x.value - m) >= 0.0;
      assert x.weight * (x.value - m) * (x.value - m) >= 0.0;
    }
  }

  // ---------------------------------------------------------------------
  // Sparse-mass convention.
  // ---------------------------------------------------------------------

  /** The entries with weight > 0, in input order, as the pair-building loops collect them. */
  function PositivePairs(vs: seq<real>, ws: seq<real>): (ps: seq<ValueWeight>)
    requires |vs| == |ws|
    ensures |ps| <= |vs|
    ensures AllPositive(ps)
  {
    if vs == [] then []
    else
      PositivePairs(vs[..|vs| - 1], ws[..|ws| - 1])
        + (if ws[|ws| - 1] > 0.0 then [ValueWeight(vs[|vs| - 1], ws[|ws| - 1])] else [])
  }

  /** One more input entry adds one pair exactly when its weight is positive. */
  lemma PositivePairsSnoc(vs: seq<real>, ws: seq<real>, v: real, w: real)
    requires |vs| == |ws|
    ensures PositivePairs(vs + [v], ws + [w]) == PositivePairs(vs, ws) + (if w > 0.0 then [ValueWeight(v, w)] else [])
  {
    assert (vs + [v])[..|vs|] == vs && (ws + [w])[..|ws|] == ws;
  }

  /** Two rows of positive weight are both kept, in order. */
  lemma PositivePairsOfTwo(a: real, b: real, wa: real, wb: real)
    requires wa > 0.0 && wb > 0.0
    ensures PositivePairs([a, b], [wa, wb]) == [ValueWeight(a, wa), ValueWeight(b, wb)]
  {
    PositivePairsSnoc([], [], a, wa);
    PositivePairsSnoc([a], [wa], b, wb);
    assert [a] + [b] == [a, b] && [wa] + [wb] == [wa, wb];
  }

  /** The positive pairs of two inputs placed end to end are those of the first, then those of the second. */
  lemma {:induction false} PositivePairsAppend(vs: seq<real>, ws: seq<real>, us: seq<real>, xs: seq<real>)
    requires |vs| == |ws| && |us| == |xs|
    ensures PositivePairs(vs + us, ws + xs) == PositivePairs(vs, ws) + PositivePairs(us, xs)
    decreases |us|
  {
    if us == [] {
      assert vs + us == vs && ws + xs == ws;
    } else {
      var us0, xs0 := us[..|us| - 1], xs[..|xs| - 1];
      var u, x := us[|us| - 1], xs[|xs| - 1];
      var last := if x > 0.0 then [ValueWeight(u, x)] else [];
      assert PositivePairs(vs + us, ws + xs) == PositivePairs(vs + us0, ws + xs0) + last by {
        assert vs + us == (vs + us0) + [u] && ws + xs == (ws + xs0) + [x];
        PositivePairsSnoc(vs + us0, ws + xs0, u, x);
      }
      assert PositivePairs(us, xs) == PositivePairs(us0, xs0) + last by {
        assert us0 + [u] == us && xs0 + [x] == xs;
        PositivePairsSnoc(us0, xs0, u, x);
      }
      PositivePairsAppend(vs, ws, us0, xs0);
    }
  }

  /**
   * Adds the implicit (0, 1 - total) entry when the positive weights sum to
   * less than 1, as every C entry point and the Python reference do.
   */
  function WithImplicitZero(ps: seq<ValueWeight>): seq<ValueWeight>
  {
    if TotalWeight(ps) < 1.0 then ps + [ValueWeight(0.0, 1.0 - TotalWeight(ps))] else ps
  }

  /** Below a total of 1 the implicit zero carries exactly the missing mass, raising the total to 1. */
  lemma ImplicitZeroAdded(ps: seq<ValueWeight>)
    requires TotalWeight(ps) < 1.0
    ensures var z := ValueWeight(0.0, 1.0 - TotalWeight(ps));
      WithImplicitZero(ps) == ps + [z] && TotalWeight(ps + [z]) == 1.0
  {
    var z := ValueWeight(0.0, 1.0 - TotalWeight(ps));
    assert (ps + [z])[..|ps|] == ps;
  }

  /** At a total of 1 or more nothing is added. */
  lemma NoImplicitZero(ps: seq<ValueWeight>)
    requires TotalWeight(ps) >= 1.0
    ensures WithImplicitZero(ps) == ps
  {
  }

  /** The closed distribution of a (values, weights) input. */
  function ClosedPairs(vs: seq<real>, ws: seq<real>): seq<ValueWeight>
    requires |vs| == |ws|
  {
    WithImplicitZero(PositivePairs(vs, ws))
  }

  /** Below a total of 1 the closed distribution is the positive pairs followed by (0, gap), gap the missing mass. */
  lemma ClosedPairsWithGap(vs: seq<real>, ws: seq<real>, gap: real)
    requires |vs| == |ws| && TotalWeight(PositivePairs(vs, ws)) + gap == 1.0 && gap > 0.0
    ensures ClosedPairs(vs, ws) == PositivePairs(vs, ws) + [ValueWeight(0.0, gap)]
  {
  }

  /** Every closed pair carries an input value or the implicit 0. */
  lemma {:induction false} ClosedPairsValues(vs: seq<real>, ws: seq<real>)
    requires |vs| == |ws|
    ensures forall x :: x in ClosedPairs(vs, ws) ==> x.value in vs || x.value == 0.0
  {
    PositivePairsValues(vs, ws);
  }

  lemma {:induction false} PositivePairsValues(vs: seq<real>, ws: seq<real>)
    requires |vs| == |ws|
    ensures forall x :: x in PositivePairs(vs, ws) ==> x.value in vs
    decreases |vs|
  {
    if vs != [] {
      var init := vs[..|vs| - 1];
      PositivePairsValues(init, ws[..|ws| - 1]);
      assert forall v :: v in init ==> v in vs;
    }
  }

  /** When every input value is c, so is every positive pair's value. */
  lemma PositivePairsOfConstant(vs: seq<real>, ws: seq<real>, c: real)
    requires |vs| == |ws|
    requires forall i :: 0 <= i < |vs| ==> vs[i] == c
    ensures forall i :: 0 <= i < |PositivePairs(vs, ws)| ==> PositivePairs(vs, ws)[i].value == c
  {
    var ps := PositivePairs(vs, ws);
    PositivePairsValues(vs, ws);
    assert forall i :: 0 <= i < |ps| ==> ps[i] in ps;
  }

  /**
   * The closed distribution is never empty, has at most one entry more than
   * the input, keeps every weight positive, and its total is max(sum, 1).
   */
  lemma ClosedPairsShape(vs: seq<real>, ws: seq<real>)
    requires |vs| == |ws|
    ensures var ps := PositivePairs(vs, ws); var cp := ClosedPairs(vs, ws);
      1 <= |cp| <= |vs| + 1
      && AllPositive(cp)
      && TotalWeight(cp) == (if TotalWeight(ps) < 1.0 then 1.0 else TotalWeight(ps))
      && TotalWeight(cp) >= 1.0
      && cp[..|ps|] == ps
  {
    var ps := PositivePairs(vs, ws);
    if TotalWeight(ps) < 1.0 {
      var z := ValueWeight(0.0, 1.0 - TotalWeight(ps));
      TotalWeightAppend(ps, [z]);
      assert TotalWeight([z]) == TotalWeight([z][..0]) + z.weight;
      assert (ps + [z])[..|ps|] == ps;
    } else {
      assert ps != [];
    }
  }

  /** The implicit zero adds nothing to the weighted sum. */
  lemma ClosedWeightedSum(vs: seq<real>, ws: seq<real>)
    requires |vs| == |ws|
    ensures WeightedSum(ClosedPairs(vs, ws)) == WeightedSum(PositivePairs(vs, ws))
  {
    var ps := PositivePairs(vs, ws);
    if TotalWeight(ps) < 1.0 {
      var z := ValueWeight(0.0, 1.0 - TotalWeight(ps));
      WeightedSumAppend(ps, [z]);
      assert WeightedSum([z]) == WeightedSum([z][..0]) + 0.0 * z.weight;
    }
  }

  // ---------------------------------------------------------------------
  // Input rows: the (value, weight) entries of the two input arrays read in
  // lockstep, and the filter that keeps the rows of positive weight.
  // ---------------------------------------------------------------------

  function Rows(vs: seq<real>, ws: seq<real>): (r: seq<ValueWeight>)
    requires |vs| == |ws|
    ensures |r| == |vs|
    ensures forall i :: 0 <= i < |vs| ==> r[i] == ValueWeight(vs[i], ws[i])
  {
    if vs == [] then []
    else Rows(vs[..|vs| - 1], ws[..|ws| - 1]) + [ValueWeight(vs[|vs| - 1], ws[|ws| - 1])]
  }

  function Positive(s: seq<ValueWeight>): seq<ValueWeight>
  {
    if s == [] then []
    else Positive(s[..|s| - 1]) + (if s[|s| - 1].weight > 0.0 then [s[|s| - 1]] else [])
  }

  /** The pair-building loops keep exactly the input rows of positive weight, in input order. */
  lemma {:induction false} PositivePairsOfRows(vs: seq<real>, ws: seq<real>)
    requires |vs| == |ws|
    ensures PositivePairs(vs, ws) == Positive(Rows(vs, ws))
    decreases |vs|
  {
    if vs != [] {
      var r := Rows(vs, ws);
      PositivePairsOfRows(vs[..|vs| - 1], ws[..|ws| - 1]);
      assert r[..|r| - 1] == Rows(vs[..|vs| - 1], ws[..|ws| - 1]);
    }
  }

  /** Each record occurs among the kept rows as often as among all rows if its weight is positive, else never. */
  lemma {:induction false} PositiveMultiplicity(s: seq<ValueWeight>, x: ValueWeight)
    ensures multiset(Positive(s))[x] == if x.weight > 0.0 then multiset(s)[x] else 0
    decreases |s|
  {
    if s != [] {
      var init, y := s[..|s| - 1], s[|s| - 1];
      PositiveMultiplicity(init, x);
      assert s == init + [y];
    }
  }

  /** Filtering permuted rows gives permuted kept rows. */
  lemma PositivePermutation(s: seq<ValueWeight>, t: seq<ValueWeight>)
    requires multiset(s) == multiset(t)
    ensures multiset(Positive(s)) == multiset(Positive(t))
  {
    forall x ensures multiset(Positive(s))[x] == multiset(Positive(t))[x] {
      PositiveMultiplicity(s, x);
      PositiveMultiplicity(t, x);
    }
  }

  /** Permuted pairs receive the same implicit zero. */
  lemma ImplicitZeroPermutation(ps: seq<ValueWeight>, ps': seq<ValueWeight>)
    requires multiset(ps) == multiset(ps') && TotalWeight(ps) == TotalWeight(ps')
    ensures multiset(WithImplicitZero(ps)) == multiset(WithImplicitZero(ps'))
  {
    if TotalWeight(ps) < 1.0 {
      var z := ValueWeight(0.0, 1.0 - TotalWeight(ps));
      assert multiset(ps + [z]) == multiset(ps) + multiset{z};
      assert multiset(ps' + [z]) == multiset(ps') + multiset{z};
    }
  }

  /**
   * Reordering the input rows in lockstep reorders the closed distribution:
   * the same positive pairs, the same total, hence the same implicit zero.
   */
  lemma ClosedPairsPermutation(vs: seq<real>, ws: seq<real>, vs': seq<real>, ws': seq<real>)
    requires |vs| == |ws| && |vs'| == |ws'|
    requires multiset(Rows(vs, ws)) == multiset(Rows(vs', ws'))
    ensures multiset(PositivePairs(vs, ws)) == multiset(PositivePairs(vs', ws'))
    ensures multiset(ClosedPairs(vs, ws)) == multiset(ClosedPairs(vs', ws'))
  {
    var ps, ps' := PositivePairs(vs, ws), PositivePairs(vs', ws');
    assert multiset(ps) == multiset(ps') by {
      PositivePairsOfRows(vs, ws);
      PositivePairsOfRows(vs', ws');
      PositivePermutation(Rows(vs, ws), Rows(vs', ws'));
    }
    TotalWeightPermutation(ps, ps');
    ImplicitZeroPermutation(ps, ps');
  }
}
