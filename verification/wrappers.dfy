/** Failure-carrying values used where the scripts return `None` or raise. */
module Wrappers {

  /** Python's `None` versus a present value. */
  datatype Option<+T> = None | Some(value: T)

  /** A value, or the exception the script would raise instead. */
  datatype Result<+R, +E> = Success(value: R) | Failure(error: E)
}
