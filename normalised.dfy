/**
 * The preparation the Type-7 and Harrell-Davis estimators share once the
 * closed pairs are sorted: weights divided in place by the total, Kish's
 * effective sample size, and the cumulative probabilities with a leading 0.
 */
module Normalised {
  import opened Pairs
  import opened SparsePairs
  import opened RealArith

  /** The pairs with every weight divided by total; values stay where they are. */
  function Scaled(s: seq<ValueWeight>, total: real): (r: seq<ValueWeight>)
    requires total > 0.0
    ensures |r| == |s|
  {
    if s == [] then []
    else Scaled(s[..|s| - 1], total) + [ValueWeight(s[|s| - 1].value, s[|s| - 1].weight / total)]
  }

  /** Entry i of the scaled pairs keeps value i and carries weight i over the total. */
  lemma {:induction false} ScaledAt(s: seq<ValueWeight>, total: real)
    requires total > 0.0
    ensures forall i :: 0 <= i < |s| ==>
      Scaled(s, total)[i].value == s[i].value && Scaled(s, total)[i].weight == s[i].weight / total
    decreases |s|
  {
    if s != [] {
      ScaledAt(s[..|s| - 1], total);
    }
  }

  /** Scaling one entry further extends the scaled prefix by that entry. */
  lemma ScaledSnoc(s: seq<ValueWeight>, i: nat, total: real)
    requires i < |s| && total > 0.0
    ensures Scaled(s[..i + 1], total) == Scaled(s[..i], total) + [s[i].(weight := s[i].weight / total)]
  {
    assert s[..i + 1][..i] == s[..i];
  }

  /** Dividing every weight by the total divides their sum by it. */
  lemma {:induction false} ScaledTotal(s: seq<ValueWeight>, total: real)
    requires total > 0.0
    ensures TotalWeight(Scaled(s, total)) == TotalWeight(s) / total
    decreases |s|
  {
    if s != [] {
      var init := s[..|s| - 1];
      var w := s[|s| - 1].weight;
      ScaledTotal(init, total);
      assert Scaled(s, total)[..|s| - 1] == Scaled(init, total);
      assert TotalWeight(init) / total + w / total == (TotalWeight(init) + w) / total;
    }
  }

  /** ... and divides the sum of squared weights by the total squared. */
  lemma {:induction false} ScaledSquares(s: seq<ValueWeight>, total: real)
    requires total > 0.0
    ensures SquaredWeights(Scaled(s, total)) == SquaredWeights(s) / (total * total)
    decreases |s|
  {
    if s != [] {
      var init := s[..|s| - 1];
      var w := s[|s| - 1].weight;
      ScaledSquares(init, total);
      var r := Scaled(s, total);
      assert r[..|s| - 1] == Scaled(init, total);
      assert r[|s| - 1].weight == w / total;
      assert SquaredWeights(r) == SquaredWeights(init) / (total * total) + (w / total) * (w / total);
      assert SquaredWeights(s) == SquaredWeights(init) + w * w;
      AddScaledSquare(SquaredWeights(init), w, total);
    } else {
      MulPositive(total, total, total * total);
    }
  }

  /** Adding one scaled square to a scaled sum of squares. */
  lemma AddScaledSquare(a: real, w: real, total: real)
    requires total > 0.0
    ensures a / (total * total) + (w / total) * (w / total) == (a + w * w) / (total * total)
  {
    MulPositive(total, total, total * total);
    DivSquare(w, total);
  }

  /** Scaling by a positive total keeps the order by value and the positivity of weights. */
  lemma ScaledKeepsShape(s: seq<ValueWeight>, total: real)
    requires total > 0.0
    ensures SortedByValue(s) ==> SortedByValue(Scaled(s, total))
    ensures AllPositive(s) ==> AllPositive(Scaled(s, total))
  {
    ScaledAt(s, total);
    if AllPositive(s) {
      forall i | 0 <= i < |s| ensures Scaled(s, total)[i].weight > 0.0 {
        DivPositive(s[i].weight, total);
      }
    }
  }

  /** Closed pairs divided by their own total sum to exactly 1. */
  lemma NormalisedSumsToOne(s: seq<ValueWeight>)
    requires Closed(s)
    ensures TotalWeight(s) > 0.0 && TotalWeight(Scaled(s, TotalWeight(s))) == 1.0
  {
    TotalWeightPositive(s);
    ScaledTotal(s, TotalWeight(s));
    assert TotalWeight(s) / TotalWeight(s) == 1.0;
  }

  /** `pairs[i].weight /= total` for every i < n, in place. */
  method NormaliseWeights(pairs: array<ValueWeight>, n: nat, total: real)
    requires n <= pairs.Length && total > 0.0
    modifies pairs
    ensures pairs[..n] == Scaled(old(pairs[..n]), total)
    ensures pairs[n..] == old(pairs[n..])
  {
    ghost var s := pairs[..n];
    for i := 0 to n
      invariant pairs[..i] == Scaled(s[..i], total)
      invariant pairs[i..n] == s[i..]
      invariant pairs[n..] == old(pairs[n..])
    {
      ScaledSnoc(s, i, total);
      assert pairs[i] == s[i];
      pairs[i] := pairs[i].(weight := pairs[i].weight / total);
      assert pairs[..i + 1] == pairs[..i] + [pairs[i]];
    }
    assert s[..n] == s;
  }

  // ---------------------------------------------------------------------
  // Kish's effective sample size.
  // ---------------------------------------------------------------------

  /** With positive weights the squared weights sum to at most the squared total, and to more than 0. */
  lemma {:induction false} SquaredWeightsBound(s: seq<ValueWeight>)
    requires AllPositive(s)
    ensures 0.0 <= SquaredWeights(s) <= TotalWeight(s) * TotalWeight(s)
    ensures s != [] ==> SquaredWeights(s) > 0.0
    decreases |s|
  {
    if s != [] {
      var init := s[..|s| - 1];
      var w := s[|s| - 1].weight;
      var a := TotalWeight(init);
      assert AllPositive(init);
      SquaredWeightsBound(init);
      TotalWeightPositive(init);
      MulPositive(w, w, w * w);
      MulNonNegative(a, w);
      assert (a + w) * (a + w) == a * a + 2.0 * (a * w) + w * w;
    }
  }

  lemma SquaredWeightsPositive(s: seq<ValueWeight>)
    requires Closed(s)
    ensures SquaredWeights(s) > 0.0
  {
    SquaredWeightsBound(s);
  }

  /** Normalised closed pairs have squared weights summing into (0, 1]. */
  lemma SquaredWeightsAtMostOne(s: seq<ValueWeight>)
    requires Closed(s) && TotalWeight(s) == 1.0
    ensures 0.0 < SquaredWeights(s) <= 1.0
  {
    SquaredWeightsBound(s);
  }

  /** With two or more positive weights the squared weights sum to strictly less than the squared total. */
  lemma SquaredWeightsStrict(s: seq<ValueWeight>)
    requires AllPositive(s) && |s| >= 2
    ensures SquaredWeights(s) < TotalWeight(s) * TotalWeight(s)
  {
    var init := s[..|s| - 1];
    var w := s[|s| - 1].weight;
    var a := TotalWeight(init);
    assert AllPositive(init);
    SquaredWeightsBound(init);
    TotalWeightPositive(init);
    MulPositive(a, w, a * w);
    assert (a + w) * (a + w) == a * a + 2.0 * (a * w) + w * w;
  }

  /** n_eff = 1 / (sum of squared weights) of normalised closed pairs: at least 1. */
  function EffectiveSize(s: seq<ValueWeight>): (n: real)
    requires Closed(s) && TotalWeight(s) == 1.0
    ensures n >= 1.0
  {
    SquaredWeightsAtMostOne(s);
    InverseAtLeastOne(SquaredWeights(s));
    1.0 / SquaredWeights(s)
  }

  /** n_eff exceeds 1 exactly when there are two or more pairs: one pair alone carries all the mass. */
  lemma EffectiveSizeAboveOne(s: seq<ValueWeight>)
    requires Closed(s) && TotalWeight(s) == 1.0
    ensures EffectiveSize(s) > 1.0 <==> |s| >= 2
  {
    if |s| == 1 {
      assert s[..0] == [];
      assert TotalWeight(s) == s[0].weight;
      assert SquaredWeights(s) == s[0].weight * s[0].weight;
    } else {
      SquaredWeightsStrict(s);
      SquaredWeightsPositive(s);
      InverseAboveOne(SquaredWeights(s));
    }
  }

  /** Closed pairs divided by their own total: still closed, summing to 1, in the same order. */
  function Normalise(s: seq<ValueWeight>): (r: seq<ValueWeight>)
    requires Closed(s)
    ensures Closed(r) && TotalWeight(r) == 1.0 && |r| == |s|
    ensures forall i :: 0 <= i < |s| ==> r[i].value == s[i].value
    ensures SortedByValue(s) ==> SortedByValue(r)
  {
    NormalisedSumsToOne(s);
    ScaledAt(s, TotalWeight(s));
    ScaledKeepsShape(s, TotalWeight(s));
    Scaled(s, TotalWeight(s))
  }

  /** Kish's formula on raw sums: (sum of weights)^2 / (sum of squared weights). */
  function KishSize(total: real, squares: real): real
    requires squares > 0.0
  {
    total * total / squares
  }

  /**
   * Kish's formula is scale-free: the effective size of the normalised pairs
   * equals Kish's formula on the weights before normalisation.
   */
  lemma EffectiveSizeScaleFree(s: seq<ValueWeight>)
    requires Closed(s)
    ensures SquaredWeights(s) > 0.0
    ensures EffectiveSize(Normalise(s)) == KishSize(TotalWeight(s), SquaredWeights(s))
  {
    TotalWeightPositive(s);
    InverseOfScaledSquares(s, TotalWeight(s), Normalise(s));
  }

  lemma InverseOfScaledSquares(s: seq<ValueWeight>, t: real, r: seq<ValueWeight>)
    requires Closed(s) && t == TotalWeight(s) && t > 0.0 && r == Scaled(s, t) && Closed(r) && TotalWeight(r) == 1.0
    ensures SquaredWeights(s) > 0.0
    ensures EffectiveSize(r) == KishSize(t, SquaredWeights(s))
  {
    SquaredWeightsPositive(s);
    ScaledSquares(s, t);
    KishOfQuotient(SquaredWeights(s), t, SquaredWeights(r));
    assert EffectiveSize(r) == 1.0 / SquaredWeights(r);
  }

  /** The inverse of q / t² is the Kish size of total t and squares q. */
  lemma KishOfQuotient(q: real, t: real, a: real)
    requires q > 0.0 && t > 0.0 && a == q / (t * t)
    ensures 1.0 / a == KishSize(t, q)
  {
    MulPositive(t, t, t * t);
    InverseOfQuotient(q, t * t, a);
  }

  /** `sum_weights_sq += w * w` over pairs[0..n). */
  method SumSquaredWeights(pairs: array<ValueWeight>, n: nat) returns (sq: real)
    requires n <= pairs.Length
    ensures sq == SquaredWeights(pairs[..n])
  {
    sq := 0.0;
    for i := 0 to n
      invariant sq == SquaredWeights(pairs[..i])
    {
      assert pairs[..i + 1][..i] == pairs[..i];
      sq := sq + pairs[i].weight * pairs[i].weight;
    }
  }

  // ---------------------------------------------------------------------
  // Cumulative probabilities with a leading 0.
  // ---------------------------------------------------------------------

  /** `cum_probs`: 0 followed by the running sums, one entry more than there are pairs. */
  function CumulativeProbs(s: seq<ValueWeight>): (c: seq<real>)
    ensures |c| == |s| + 1
  {
    [0.0] + CumulativeWeights(s)
  }

  /** Entry i is the weight of the first i pairs: 0 first, the total last. */
  lemma CumulativeProbsAt(s: seq<ValueWeight>)
    ensures forall i :: 0 <= i <= |s| ==> CumulativeProbs(s)[i] == TotalWeight(s[..i])
    ensures CumulativeProbs(s)[0] == 0.0 && CumulativeProbs(s)[|s|] == TotalWeight(s)
  {
    var c := CumulativeProbs(s);
    CumulativeWeightsFacts(s);
    forall i | 0 <= i <= |s| ensures c[i] == TotalWeight(s[..i]) {
      if i > 0 {
        assert c[i] == CumulativeWeights(s)[i - 1];
      }
    }
    assert s[..|s|] == s;
  }

  /** Each entry adds the next weight to the one before. */
  lemma CumulativeProbsStep(s: seq<ValueWeight>, i: nat)
    requires i < |s|
    ensures CumulativeProbs(s)[i + 1] == CumulativeProbs(s)[i] + s[i].weight
  {
    CumulativeProbsAt(s);
    assert s[..i + 1][..i] == s[..i];
  }

  /** With positive weights the cumulative probabilities never decrease. */
  lemma CumulativeProbsNonDecreasing(s: seq<ValueWeight>)
    requires AllPositive(s)
    ensures NonDecreasing(CumulativeProbs(s))
  {
    var c := CumulativeProbs(s);
    CumulativeWeightsFacts(s);
    forall i, j | 0 <= i < j < |c| ensures c[i] <= c[j] {
      if i > 0 {
        assert c[i] == CumulativeWeights(s)[i - 1] && c[j] == CumulativeWeights(s)[j - 1];
      } else {
        CumulativeProbsAt(s);
        assert AllPositive(s[..j]);
        TotalWeightPositive(s[..j]);
      }
    }
  }

  /** `cum_probs[0] = 0; cum_probs[i + 1] = cum_probs[i] + w_i` over pairs[0..n). */
  method CumulativeProbsOf(pairs: array<ValueWeight>, n: nat) returns (cum: array<real>)
    requires n <= pairs.Length
    ensures fresh(cum) && cum[..] == CumulativeProbs(pairs[..n])
  {
    cum := new real[n + 1];
    cum[0] := 0.0;
    for i := 0 to n
      invariant cum[..i + 1] == CumulativeProbs(pairs[..i])
    {
      CumulativeProbsStep(pairs[..i + 1], i);
      assert pairs[..i + 1][..i] == pairs[..i];
      cum[i + 1] := cum[i] + pairs[i].weight;
    }
    assert cum[..] == cum[..n + 1];
  }

  /**
   * Lines shared by the Type-7 and Harrell-Davis entry points after the
   * sort: normalise in place, sum the squared weights, take n_eff and build
   * the cumulative probabilities.
   */
  method NormaliseAndTabulate(pairs: array<ValueWeight>, n: nat, total: real)
    returns (nEff: real, cum: array<real>)
    requires n <= pairs.Length && Closed(pairs[..n]) && total == TotalWeight(pairs[..n])
    modifies pairs
    ensures Closed(old(pairs[..n])) && pairs[..n] == Normalise(old(pairs[..n]))
    ensures nEff == EffectiveSize(pairs[..n])
    ensures fresh(cum) && cum[..] == CumulativeProbs(pairs[..n])
  {
    ghost var s := pairs[..n];
    NormalisedSumsToOne(s);
    NormaliseWeights(pairs, n, total);
    assert pairs[..n] == Normalise(s);
    var sq := SumSquaredWeights(pairs, n);
    SquaredWeightsAtMostOne(pairs[..n]);
    nEff := 1.0 / sq;
    cum := CumulativeProbsOf(pairs, n);
  }
}
