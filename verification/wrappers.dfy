/** Nullable column values and computations that can raise: `Option` stands
    for a column entry that may be SQL NULL / pandas NaN, `Result` for a
    computation that either yields a value or raises an error. */
module Wrappers {

  /** A value that may be missing. */
  datatype Option<+T> = None | Some(value: T)

  /** Either the computed value or the error the computation raises. */
  datatype Result<+R, +E> = Success(value: R) | Failure(error: E)
}
