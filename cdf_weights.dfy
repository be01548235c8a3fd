/**
 * The shape shared by the Type-7 and Harrell-Davis estimators: a CDF is
 * evaluated at the cumulative probabilities, and every sorted value is
 * weighted by the rise of that CDF across its own cell.
 */
module CdfWeights {
  import opened Pairs
  import opened SparsePairs
  import opened RealArith

  /** Sum over the pairs of (g[i + 1] - g[i]) * value_i, accumulated in pair order. */
  function CdfMix(s: seq<ValueWeight>, g: seq<real>): real
    requires |g| == |s| + 1
  {
    if s == [] then 0.0
    else CdfMix(s[..|s| - 1], g[..|s|]) + (g[|s|] - g[|s| - 1]) * s[|s| - 1].value
  }

  /** The sum of the rises of g: the total of the element weights. */
  function RiseTotal(g: seq<real>): real
    requires |g| >= 1
  {
    if |g| == 1 then 0.0 else RiseTotal(g[..|g| - 1]) + (g[|g| - 1] - g[|g| - 2])
  }

  /** The element weights telescope to the rise of g from its first to its last point. */
  lemma {:induction false} RiseTotalTelescopes(g: seq<real>)
    requires |g| >= 1
    ensures RiseTotal(g) == g[|g| - 1] - g[0]
    decreases |g|
  {
    if |g| > 1 {
      RiseTotalTelescopes(g[..|g| - 1]);
    }
  }

  /** With a non-decreasing CDF, the mix lies between lo and hi times the CDF's rise r when every value does. */
  lemma {:induction false} CdfMixBetween(s: seq<ValueWeight>, g: seq<real>, lo: real, hi: real, r: real)
    requires |g| == |s| + 1 && NonDecreasing(g) && r == g[|s|] - g[0]
    requires forall i :: 0 <= i < |s| ==> lo <= s[i].value <= hi
    ensures lo * r <= CdfMix(s, g) <= hi * r
    decreases |s|
  {
    if s != [] {
      var k := |s| - 1;
      var g' := g[..k + 1];
      assert NonDecreasing(g');
      var r' := g'[k] - g'[0];
      CdfMixBetween(s[..k], g', lo, hi, r');
      CdfMixLast(s, g);
      WeightedStep(lo, hi, r', CdfMix(s[..k], g'), g[k + 1] - g[k], s[k].value, r, CdfMix(s, g));
    }
  }

  /** The last pair's contribution splits off the mix. */
  lemma CdfMixLast(s: seq<ValueWeight>, g: seq<real>)
    requires |g| == |s| + 1 && s != []
    ensures CdfMix(s, g) == CdfMix(s[..|s| - 1], g[..|s|]) + (g[|s|] - g[|s| - 1]) * s[|s| - 1].value
  {
  }

  /**
   * A CDF rising from 0 to 1 without ever falling makes a convex
   * combination: over sorted pairs the mix lies between the first and the
   * last value.
   */
  lemma CdfMixWithinRange(s: seq<ValueWeight>, g: seq<real>)
    requires s != [] && SortedByValue(s)
    requires |g| == |s| + 1 && NonDecreasing(g) && g[0] == 0.0 && g[|s|] == 1.0
    ensures s[0].value <= CdfMix(s, g) <= s[|s| - 1].value
  {
    CdfMixBetween(s, g, s[0].value, s[|s| - 1].value, 1.0);
  }

  /**
   * When every value is the same c, the mix is c times the rise r of g,
   * whether or not g ever falls: the element weights telescope.
   */
  lemma {:induction false} CdfMixScales(s: seq<ValueWeight>, g: seq<real>, c: real, r: real)
    requires |g| == |s| + 1 && r == g[|s|] - g[0]
    requires forall i :: 0 <= i < |s| ==> s[i].value == c
    ensures CdfMix(s, g) == c * r
    decreases |s|
  {
    if s != [] {
      var k := |s| - 1;
      var g' := g[..k + 1];
      var r' := g'[k] - g'[0];
      CdfMixScales(s[..k], g', c, r');
      CdfMixLast(s, g);
      ScaleStep(c, r', g[k + 1] - g[k], r, CdfMix(s[..k], g'), CdfMix(s, g));
    }
  }

  /** ... so with a CDF from 0 to 1 the mix of a constant c is c. */
  lemma CdfMixOfConstant(s: seq<ValueWeight>, g: seq<real>, c: real)
    requires |g| == |s| + 1 && g[0] == 0.0 && g[|s|] == 1.0
    requires forall i :: 0 <= i < |s| ==> s[i].value == c
    ensures CdfMix(s, g) == c
  {
    CdfMixScales(s, g, c, 1.0);
  }
}
