/** Optional values and results shared by both functions of the model. */
module Wrappers {

  /** A value that may be SQL null. */
  datatype Option<+T> = None | Some(value: T)

  /** The outcome of an evaluation that may fail with an error message. */
  datatype Result<+T, +E> = Success(value: T) | Failure(error: E)
}
