/** The package's failure conditions, as one result type.
    The Go code reports them with `panic`, `log.Fatal` (a process exit) or a
    NaN check followed by `panic`; here each becomes an `Err` value. */
module Failures {

  datatype Failure =
    | ShapeMismatch             // elementwise or product operands of incompatible shape
    | NonSquareMatrix           // LU or Inv given a non-square matrix
    | SingularOrZeroPivot       // an elimination pivot is exactly zero
    | NonPositiveDefiniteInput  // a negative Cholesky radicand (Go: NaN from math.Sqrt)

  datatype Result<+T> = Ok(value: T) | Err(error: Failure)
}
