/**
 * The buffers every quantile entry point builds before it looks at a
 * probability: the closed (value, weight) pairs in a buffer of n + 1 slots,
 * their running weight sums, and the binary search for the first running sum
 * that reaches a target weight.
 */
module SparsePairs {
  import opened Pairs

  /**
   * Fills a buffer of |vs| + 1 slots with the entries of positive weight, in
   * input order, then adds the implicit (0, 1 - total) pair when the total
   * is below 1 and raises the total to 1.
   */
  method BuildClosedPairs(vs: seq<real>, ws: seq<real>) returns (pairs: array<ValueWeight>, nPairs: nat, total: real)
    requires |vs| == |ws|
    ensures fresh(pairs) && pairs.Length == |vs| + 1
    ensures nPairs <= pairs.Length && pairs[..nPairs] == ClosedPairs(vs, ws)
    ensures total == TotalWeight(pairs[..nPairs])
  {
    pairs := new ValueWeight[|vs| + 1](_ => ValueWeight(0.0, 0.0));
    nPairs, total := CollectPositive(vs, ws, pairs);
    ghost var positive := pairs[..nPairs];
    if total < 1.0 {
      pairs[nPairs] := ValueWeight(0.0, 1.0 - total);
      assert pairs[..nPairs + 1] == positive + [ValueWeight(0.0, 1.0 - total)];
      nPairs := nPairs + 1;
      total := 1.0;
    }
    ClosedPairsShape(vs, ws);
  }

  /** The pair-building loop: copies the entries of positive weight and sums their weights. */
  method CollectPositive(vs: seq<real>, ws: seq<real>, pairs: array<ValueWeight>) returns (nPairs: nat, total: real)
    requires |vs| == |ws| && |vs| <= pairs.Length
    modifies pairs
    ensures nPairs <= |vs| && pairs[..nPairs] == PositivePairs(vs, ws)
    ensures total == TotalWeight(PositivePairs(vs, ws))
  {
    nPairs := 0;
    total := 0.0;
    for i := 0 to |vs|
      invariant nPairs <= i
      invariant pairs[..nPairs] == PositivePairs(vs[..i], ws[..i])
      invariant total == TotalWeight(PositivePairs(vs[..i], ws[..i]))
    {
      ghost var before := PositivePairs(vs[..i], ws[..i]);
      PositivePairsStep(vs, ws, i);
      if ws[i] > 0.0 {
        pairs[nPairs] := ValueWeight(vs[i], ws[i]);
        assert pairs[..nPairs + 1] == before + [ValueWeight(vs[i], ws[i])];
        total := total + ws[i];
        nPairs := nPairs + 1;
      }
    }
    assert vs[..|vs|] == vs && ws[..|ws|] == ws;
  }

  /** Extending the input by one entry extends the positive pairs and their total by at most that entry. */
  lemma PositivePairsStep(vs: seq<real>, ws: seq<real>, i: nat)
    requires |vs| == |ws| && i < |vs|
    ensures var before := PositivePairs(vs[..i], ws[..i]);
      var after := PositivePairs(vs[..i + 1], ws[..i + 1]);
      after == before + (if ws[i] > 0.0 then [ValueWeight(vs[i], ws[i])] else [])
      && TotalWeight(after) == TotalWeight(before) + (if ws[i] > 0.0 then ws[i] else 0.0)
  {
    assert vs[..i + 1][..i] == vs[..i] && ws[..i + 1][..i] == ws[..i];
    var before := PositivePairs(vs[..i], ws[..i]);
    var after := PositivePairs(vs[..i + 1], ws[..i + 1]);
    assert after == before + (if ws[i] > 0.0 then [ValueWeight(vs[i], ws[i])] else []);
    if ws[i] > 0.0 {
      var z := ValueWeight(vs[i], ws[i]);
      assert after[..|after| - 1] == before;
      assert TotalWeight(after) == TotalWeight(before) + z.weight;
    } else {
      assert after == before;
    }
  }

  // ---------------------------------------------------------------------
  // Running sums.
  // ---------------------------------------------------------------------

  /** The running weight sums: entry i is the total weight of s[0..i]. */
  function CumulativeWeights(s: seq<ValueWeight>): (c: seq<real>)
    ensures |c| == |s|
  {
    if s == [] then [] else CumulativeWeights(s[..|s| - 1]) + [TotalWeight(s)]
  }

  /**
   * Entry i is the weight of s[0..i]; with positive weights the sums rise
   * strictly, the first is the first weight and the last is the total.
   */
  lemma {:induction false} CumulativeWeightsFacts(s: seq<ValueWeight>)
    ensures forall i :: 0 <= i < |s| ==> CumulativeWeights(s)[i] == TotalWeight(s[..i + 1])
    ensures AllPositive(s) ==>
      forall i, j :: 0 <= i < j < |s| ==> CumulativeWeights(s)[i] < CumulativeWeights(s)[j]
    ensures s != [] ==> CumulativeWeights(s)[0] == s[0].weight
    ensures s != [] ==> CumulativeWeights(s)[|s| - 1] == TotalWeight(s)
    decreases |s|
  {
    if s != [] {
      var init := s[..|s| - 1];
      CumulativeWeightsFacts(init);
      var c := CumulativeWeights(s);
      forall i | 0 <= i < |s| ensures c[i] == TotalWeight(s[..i + 1]) {
        if i < |s| - 1 {
          assert init[..i + 1] == s[..i + 1];
        } else {
          assert s[..i + 1] == s;
        }
      }
      if AllPositive(s) {
        assert AllPositive(init);
        forall i | 0 <= i < |s| - 1 ensures c[i] < TotalWeight(s) {
          assert s[..i + 1] + s[i + 1..] == s;
          TotalWeightAppend(s[..i + 1], s[i + 1..]);
          TotalWeightPositive(s[i + 1..]);
        }
      }
      assert [s[0]][..0] == [];
      assert s[..1] == [s[0]];
    }
  }

  /** The first running sum is the first weight and the last is the total. */
  lemma CumulativeEnds(s: seq<ValueWeight>)
    requires s != []
    ensures CumulativeWeights(s)[0] == s[0].weight
    ensures CumulativeWeights(s)[|s| - 1] == TotalWeight(s)
  {
    CumulativeWeightsFacts(s);
  }

  /** With positive weights each running sum exceeds the one before. */
  lemma CumulativeRises(s: seq<ValueWeight>, i: nat)
    requires AllPositive(s) && 0 < i < |s|
    ensures CumulativeWeights(s)[i - 1] < CumulativeWeights(s)[i]
  {
    CumulativeWeightsFacts(s);
  }

  lemma CumulativeNonDecreasing(s: seq<ValueWeight>)
    requires AllPositive(s)
    ensures NonDecreasing(CumulativeWeights(s))
  {
    CumulativeWeightsFacts(s);
  }

  /** `cumsum += weight; cumulative_weights[i] = cumsum` over a[0..n). */
  method CumulativeWeightsOf(a: array<ValueWeight>, n: nat) returns (cum: array<real>)
    requires n <= a.Length
    ensures fresh(cum) && cum[..] == CumulativeWeights(a[..n])
  {
    cum := new real[n];
    var cumsum := 0.0;
    for i := 0 to n
      invariant cumsum == TotalWeight(a[..i])
      invariant cum[..i] == CumulativeWeights(a[..i])
    {
      assert a[..i + 1][..i] == a[..i];
      cumsum := cumsum + a[i].weight;
      cum[i] := cumsum;
      assert cum[..i + 1] == cum[..i] + [cumsum];
    }
    assert cum[..] == cum[..n];
  }

  // ---------------------------------------------------------------------
  // Searching the running sums.
  // ---------------------------------------------------------------------

  /** The first index whose running sum reaches t, or |c| when none does. */
  function FirstAtLeast(c: seq<real>, t: real): (i: nat)
    ensures i <= |c|
    ensures forall j :: 0 <= j < i ==> c[j] < t
    ensures i < |c| ==> c[i] >= t
  {
    if c == [] then 0
    else if c[0] >= t then 0
    else 1 + FirstAtLeast(c[1..], t)
  }

  /** A larger target is reached no earlier. */
  lemma FirstAtLeastMonotone(c: seq<real>, t1: real, t2: real)
    requires t1 <= t2
    ensures FirstAtLeast(c, t1) <= FirstAtLeast(c, t2)
  {
  }

  ghost predicate NonDecreasing(c: seq<real>)
  {
    forall i, j :: 0 <= i <= j < |c| ==> c[i] <= c[j]
  }

  /**
   * The binary search over cum[0..n): the least index whose running sum is
   * at least t. The last sum reaches t, so the search never falls back to
   * its initial position n - 1 without having found it.
   */
  method BinarySearch(cum: array<real>, n: nat, t: real) returns (pos: nat)
    requires 0 < n <= cum.Length && NonDecreasing(cum[..n]) && cum[n - 1] >= t
    ensures pos < n && cum[pos] >= t
    ensures forall j :: 0 <= j < pos ==> cum[j] < t
  {
    var left: int := 0;
    var right: int := n - 1;
    pos := n - 1;
    while left <= right
      invariant 0 <= left <= right + 1 <= n
      invariant forall j :: 0 <= j < left ==> cum[j] < t
      invariant forall j :: right < j < n ==> cum[j] >= t
      invariant pos == right + 1 || (pos == n - 1 && right == n - 1)
    {
      var mid := (left + right) / 2;
      if cum[mid] >= t {
        pos := mid;
        right := mid - 1;
      } else {
        assert forall j :: 0 <= j <= mid ==> cum[j] <= cum[mid] by {
          assert forall j :: 0 <= j <= mid ==> cum[..n][j] <= cum[..n][mid];
        }
        left := mid + 1;
      }
      assert forall j :: right < j < n ==> cum[j] >= t by {
        assert forall j :: pos <= j < n ==> cum[..n][pos] <= cum[..n][j];
      }
    }
  }

  /** The binary search finds what the first-index definition names. */
  lemma BinarySearchIsFirstAtLeast(c: seq<real>, t: real, pos: nat)
    requires pos < |c| && c[pos] >= t && forall j :: 0 <= j < pos ==> c[j] < t
    ensures pos == FirstAtLeast(c, t)
  {
  }
}
