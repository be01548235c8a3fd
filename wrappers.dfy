/** Outcome and option types shared by the whole model. */
module Wrappers {

  datatype Option<T> = None | Some(value: T)

  /**
   * A C `double` where the code inspects it with `isnan`/`isinf`.
   * Finite doubles are modelled as exact reals; rounding is not modelled.
   */
  datatype Double = Finite(r: real) | NaN | PosInf | NegInf
  {
    predicate IsFinite() { Finite? }
  }

  /** The SQL-level errors raised with `ereport(ERROR, ...)` in the extension. */
  datatype Error =
    | LengthMismatch        // "values and weights arrays must have the same length"
    | NegativeWeight        // "weights must be non-negative"
    | NonFinite             // "input arrays must not contain NaN or infinite values"
    | InvalidProbability    // "quantile values must be between 0 and 1"
    | NegativeDdof          // "ddof must be non-negative"

  /**
   * What a PostgreSQL function call ends in: SQL NULL (`PG_RETURN_NULL`),
   * an error report, or a value.
   */
  datatype Outcome<T> = Null | Raise(error: Error) | Return(value: T)

  /** A SQL array argument: the argument itself may be NULL, and so may each element. */
  type SqlArray<T> = Option<seq<Option<T>>>

  /** `n` copies of 0.0: the zero arrays the quantile functions return for NULL arguments. */
  function Zeros(n: nat): (z: seq<real>)
    ensures |z| == n && forall i :: 0 <= i < n ==> z[i] == 0.0
  {
    if n == 0 then [] else Zeros(n - 1) + [0.0]
  }
}
