/** Option and Result, the shapes of a missing cell and of a load that can fail. */
module Wrappers {

  /** A cell that may be missing (pandas NaN / NA). */
  datatype Option<+T> = None | Some(value: T)

  /** The outcome of an operation that can fail with an error value. */
  datatype Result<+R, +E> = Success(value: R) | Failure(error: E)
}
