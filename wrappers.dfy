/** Option and Result: the absent value (NaN, NaT) and the raised exception of the original code. */
module Wrappers {

  /** A possibly missing value; None stands for pandas' NaN / NaT. */
  datatype Option<+T> = None | Some(value: T)

  /** The outcome of a call that may raise: Failure carries the exception that would be raised. */
  datatype Result<+R, +E> = Success(value: R) | Failure(error: E)
}
