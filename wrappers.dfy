/** Option and Result, the two failure-carrying datatypes the loader uses. */
module Wrappers {

  /** A value that may be missing: the outcome of a partial conversion. */
  datatype Option<+T> = None | Some(value: T)

  /** Either a value or the error that stopped the computation. */
  datatype Result<+R, +E> = Success(value: R) | Failure(error: E)
}
