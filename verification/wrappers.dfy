/** Optional values and results that can fail, shared by the modules of this project. */
module Wrappers {

  /** A value that may be absent: an attribute that is not set, or a pandas cell that holds NaN. */
  datatype Option<+T> = None | Some(value: T)

  /** The outcome of an operation that can fail with an error of type E. */
  datatype Result<+R, +E> = Success(value: R) | Failure(error: E)
}
