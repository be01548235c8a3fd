/**
 * `weighted_mean_sparse_c`: the weighted mean over the closed distribution,
 * the one entry point that rejects NaN and infinite inputs. Its arrays are
 * read as doubles so that those values can be told apart.
 */
module WeightedMean {
  import opened Wrappers
  import opened Pairs
  import opened SparsePairs
  import opened Extract
  import opened Moments

  /** `w < 0.0` on a double: true for negative finite weights and for -infinity, false for NaN. */
  predicate BelowZero(w: Double)
  {
    w == NegInf || (w.Finite? && w.r < 0.0)
  }

  /**
   * What the accumulation loop reports for one (value, weight) entry: a
   * negative weight first, then a NaN or infinite value or weight.
   */
  function Check(v: Double, w: Double): (e: Option<Error>)
    ensures e == None <==> v.Finite? && w.Finite? && w.r >= 0.0
  {
    if BelowZero(w) then Some(NegativeWeight)
    else if !v.Finite? || !w.Finite? then Some(NonFinite)
    else None
  }

  /** The report of the first entry, in index order, whose check fails; None when every entry passes. */
  function FirstProblem(vs: seq<Double>, ws: seq<Double>): Option<Error>
    requires |vs| == |ws|
  {
    if vs == [] then None
    else
      var earlier := FirstProblem(vs[..|vs| - 1], ws[..|ws| - 1]);
      if earlier.Some? then earlier else Check(vs[|vs| - 1], ws[|ws| - 1])
  }

  /** The real number a double that passed the checks stands for (0.0 for the others, which never reach it). */
  function RealOf(d: Double): real
  {
    if d.Finite? then d.r else 0.0
  }

  function Reals(ds: seq<Double>): (r: seq<real>)
    ensures |r| == |ds| && forall i :: 0 <= i < |ds| ==> r[i] == RealOf(ds[i])
  {
    if ds == [] then [] else Reals(ds[..|ds| - 1]) + [RealOf(ds[|ds| - 1])]
  }

  /**
   * No entry fails its check exactly when FirstProblem finds nothing; when it
   * finds a report, that report is the check of some entry every earlier
   * entry of which passed.
   */
  lemma {:induction false} FirstProblemIsFirst(vs: seq<Double>, ws: seq<Double>)
    requires |vs| == |ws|
    ensures FirstProblem(vs, ws) == None <==> forall i :: 0 <= i < |vs| ==> Check(vs[i], ws[i]) == None
    ensures FirstProblem(vs, ws).Some? ==>
      exists k :: 0 <= k < |vs| && Check(vs[k], ws[k]) == FirstProblem(vs, ws)
        && forall j :: 0 <= j < k ==> Check(vs[j], ws[j]) == None
    decreases |vs|
  {
    if vs != [] {
      var n := |vs| - 1;
      var vs0, ws0 := vs[..n], ws[..n];
      FirstProblemIsFirst(vs0, ws0);
      assert forall j :: 0 <= j < n ==> vs0[j] == vs[j] && ws0[j] == ws[j];
      if FirstProblem(vs0, ws0).Some? {
        var k :| 0 <= k < n && Check(vs0[k], ws0[k]) == FirstProblem(vs0, ws0)
          && forall j :: 0 <= j < k ==> Check(vs0[j], ws0[j]) == None;
        assert Check(vs[k], ws[k]) == FirstProblem(vs, ws);
      } else if Check(vs[n], ws[n]).Some? {
        assert Check(vs[n], ws[n]) == FirstProblem(vs, ws);
      }
    }
  }

  /** A report found in a prefix is the report of the whole input. */
  lemma {:induction false} FirstProblemOfPrefix(vs: seq<Double>, ws: seq<Double>, i: nat)
    requires |vs| == |ws| && i <= |vs| && FirstProblem(vs[..i], ws[..i]).Some?
    ensures FirstProblem(vs, ws) == FirstProblem(vs[..i], ws[..i])
    decreases |vs| - i
  {
    if i < |vs| {
      var vs1, ws1 := vs[..i + 1], ws[..i + 1];
      assert vs1[..i] == vs[..i] && ws1[..i] == ws[..i];
      assert FirstProblem(vs1, ws1) == FirstProblem(vs[..i], ws[..i]);
      FirstProblemOfPrefix(vs, ws, i + 1);
    } else {
      assert vs[..i] == vs && ws[..i] == ws;
    }
  }

  /**
   * With no report among the first i entries, entry i decides the report of
   * the first i + 1, and a failing entry i decides the report of all of them.
   */
  lemma CheckStep(vs: seq<Double>, ws: seq<Double>, i: nat)
    requires |vs| == |ws| && i < |vs| && FirstProblem(vs[..i], ws[..i]) == None
    ensures FirstProblem(vs[..i + 1], ws[..i + 1]) == Check(vs[i], ws[i])
    ensures Check(vs[i], ws[i]).Some? ==> FirstProblem(vs, ws) == Check(vs[i], ws[i])
  {
    assert vs[..i + 1][..i] == vs[..i] && ws[..i + 1][..i] == ws[..i];
    if Check(vs[i], ws[i]).Some? {
      FirstProblemOfPrefix(vs, ws, i + 1);
    }
  }

  /**
   * `weighted_mean(values, weights)`. A NULL array gives NULL; a length
   * mismatch is an error; empty arrays give NULL; the first entry that fails
   * its check raises that check's error; otherwise the result is the
   * closed-distribution mean of the arrays, NULL elements read as 0.0.
   */
  method WeightedMeanSparse(values: SqlArray<Double>, weights: SqlArray<Double>) returns (r: Outcome<real>)
    ensures values.None? || weights.None? ==> r == Null
    ensures values.Some? && weights.Some? && |values.value| != |weights.value| ==> r == Raise(LengthMismatch)
    ensures values.Some? && weights.Some? && |values.value| == |weights.value| ==>
      var vs, ws := NullsToZero(values.value, Finite(0.0)), NullsToZero(weights.value, Finite(0.0));
      r == if |vs| == 0 then Null
           else if FirstProblem(vs, ws).Some? then Raise(FirstProblem(vs, ws).value)
           else Return(MeanOf(Reals(vs), Reals(ws)))
  {
    if values.None? || weights.None? {
      return Null;
    }
    var columns := ExtractDoubleArrays(values.value, weights.value, Finite(0.0));
    if columns.Raise? {
      return Raise(columns.error);
    }
    if |columns.value.vals| == 0 {
      return Null;
    }
    r := MeanOfDoubles(columns.value.vals, columns.value.weights);
  }

  /**
   * After the accumulation loop: clamps the total up to 1 (the implicit zero
   * adds mass but nothing to the sum) and divides.
   */
  method MeanOfDoubles(vs: seq<Double>, ws: seq<Double>) returns (r: Outcome<real>)
    requires |vs| == |ws|
    ensures r == if FirstProblem(vs, ws).Some? then Raise(FirstProblem(vs, ws).value)
                 else Return(MeanOf(Reals(vs), Reals(ws)))
  {
    var problem, sumWeighted, sumWeights := AccumulateChecked(vs, ws);
    if problem.Some? {
      return Raise(problem.value);
    }
    if sumWeights < 1.0 {
      sumWeights := 1.0;
    }
    // The clamp leaves the C test for a zero total unreachable.
    assert sumWeights == ClampedTotal(Reals(vs), Reals(ws)) && sumWeights != 0.0;
    return Return(sumWeighted / sumWeights);
  }

  /**
   * The accumulation loop: stops at the first entry that fails its check,
   * and otherwise sums value * weight and weight over the positive weights.
   */
  method AccumulateChecked(vs: seq<Double>, ws: seq<Double>)
    returns (problem: Option<Error>, sumWeighted: real, sumWeights: real)
    requires |vs| == |ws|
    ensures problem == FirstProblem(vs, ws)
    ensures problem.None? ==>
      sumWeighted == WeightedSum(PositivePairs(Reals(vs), Reals(ws)))
      && sumWeights == TotalWeight(PositivePairs(Reals(vs), Reals(ws)))
  {
    ghost var rv: seq<real>, rw: seq<real> := [], [];
    sumWeighted, sumWeights := 0.0, 0.0;
    for i := 0 to |vs|
      invariant FirstProblem(vs[..i], ws[..i]) == None
      invariant rv == Reals(vs[..i]) && rw == Reals(ws[..i])
      invariant sumWeighted == WeightedSum(PositivePairs(rv, rw))
      invariant sumWeights == TotalWeight(PositivePairs(rv, rw))
    {
      var e := Check(vs[i], ws[i]);
      CheckStep(vs, ws, i);
      if e.Some? {
        return e, sumWeighted, sumWeights;
      }
      var v, w := vs[i].r, ws[i].r;
      ReadingsStep(vs, ws, i);
      SumsOfEntry(rv, rw, v, w);
      rv, rw := rv + [v], rw + [w];
      if w > 0.0 {
        sumWeighted := sumWeighted + v * w;
        sumWeights := sumWeights + w;
      }
    }
    assert vs[..|vs|] == vs && ws[..|ws|] == ws;
    return None, sumWeighted, sumWeights;
  }

  /** The readings of one entry more, when that entry holds two finite doubles. */
  lemma ReadingsStep(vs: seq<Double>, ws: seq<Double>, i: nat)
    requires i < |vs| == |ws| && vs[i].Finite? && ws[i].Finite?
    ensures Reals(vs[..i + 1]) == Reals(vs[..i]) + [vs[i].r]
    ensures Reals(ws[..i + 1]) == Reals(ws[..i]) + [ws[i].r]
  {
    assert vs[..i + 1][..i] == vs[..i] && ws[..i + 1][..i] == ws[..i];
  }

  /** An entry (v, w) more adds v * w and w to the two sums when w is positive. */
  lemma SumsOfEntry(rv: seq<real>, rw: seq<real>, v: real, w: real)
    requires |rv| == |rw|
    ensures WeightedSum(PositivePairs(rv + [v], rw + [w]))
      == WeightedSum(PositivePairs(rv, rw)) + (if w > 0.0 then v * w else 0.0)
    ensures TotalWeight(PositivePairs(rv + [v], rw + [w]))
      == TotalWeight(PositivePairs(rv, rw)) + (if w > 0.0 then w else 0.0)
  {
    PositivePairsSnoc(rv, rw, v, w);
    EntryAdds(PositivePairs(rv, rw), v, w);
  }

  /** Appending the entry (v, w) when w is positive adds v * w and w to the two sums. */
  lemma EntryAdds(ps: seq<ValueWeight>, v: real, w: real)
    ensures WeightedSum(ps + (if w > 0.0 then [ValueWeight(v, w)] else []))
      == WeightedSum(ps) + (if w > 0.0 then v * w else 0.0)
    ensures TotalWeight(ps + (if w > 0.0 then [ValueWeight(v, w)] else []))
      == TotalWeight(ps) + (if w > 0.0 then w else 0.0)
  {
    if w > 0.0 {
      var x := ValueWeight(v, w);
      assert (ps + [x])[..|ps|] == ps;
    } else {
      assert ps + [] == ps;
    }
  }

  /** Inputs that pass every check give the mean of their real readings, which obeys the Moments lemmas. */
  lemma CheckedInputsAreReal(vs: seq<Double>, ws: seq<Double>)
    requires |vs| == |ws| && FirstProblem(vs, ws) == None
    ensures forall i :: 0 <= i < |vs| ==> vs[i] == Finite(Reals(vs)[i]) && ws[i] == Finite(Reals(ws)[i])
    ensures !HasNegative(Reals(ws))
  {
    FirstProblemIsFirst(vs, ws);
  }
}
