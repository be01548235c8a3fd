/**
 * `extract_double_arrays`: turns the values and weights SQL arrays into two
 * plain arrays of equal length, reading a NULL element as 0.0. The element
 * type is a parameter: the quantile and variance paths read plain reals,
 * the mean path doubles that may be NaN or infinite.
 */
module Extract {
  import opened Wrappers

  /** The elements of a SQL array with every NULL element read as zero (0.0 of the element type). */
  function NullsToZero<T>(xs: seq<Option<T>>, zero: T): (r: seq<T>)
    ensures |r| == |xs|
    ensures forall i :: 0 <= i < |xs| ==> r[i] == (if xs[i].Some? then xs[i].value else zero)
  {
    if xs == [] then []
    else NullsToZero(xs[..|xs| - 1], zero) + [if xs[|xs| - 1].Some? then xs[|xs| - 1].value else zero]
  }

  /** The two arrays handed back by a successful extraction. */
  datatype Columns<T> = Columns(vals: seq<T>, weights: seq<T>)

  /**
   * Reports the length mismatch as an error; otherwise copies both arrays,
   * NULL elements as 0.0, into fresh buffers of the common length.
   */
  method ExtractDoubleArrays<T(0)>(vals: seq<Option<T>>, weights: seq<Option<T>>, zero: T)
    returns (r: Outcome<Columns<T>>)
    ensures |vals| != |weights| <==> r == Raise(LengthMismatch)
    ensures |vals| == |weights| ==> r == Return(Columns(NullsToZero(vals, zero), NullsToZero(weights, zero)))
  {
    if |vals| != |weights| {
      return Raise(LengthMismatch);
    }
    var n := |vals|;
    var vs := new T[n];
    var ws := new T[n];
    for i := 0 to n
      invariant vs[..i] == NullsToZero(vals[..i], zero)
      invariant ws[..i] == NullsToZero(weights[..i], zero)
    {
      vs[i] := if vals[i].Some? then vals[i].value else zero;
      ws[i] := if weights[i].Some? then weights[i].value else zero;
      assert vals[..i + 1][..i] == vals[..i] && weights[..i + 1][..i] == weights[..i];
      assert vs[..i + 1] == vs[..i] + [vs[i]] && ws[..i + 1] == ws[..i] + [ws[i]];
    }
    assert vals[..n] == vals && weights[..n] == weights;
    assert vs[..] == vs[..n] && ws[..] == ws[..n];
    return Return(Columns(vs[..], ws[..]));
  }
}
