/** Optional values and results with an error channel, shared by the other modules. */
module Wrappers {

  /** A value that may be absent: Python's `None` or an empty match. */
  datatype Option<+T> = None | Some(value: T)

  /** The outcome of a step that may raise: `Failure` stands for the exception. */
  datatype Result<+T, +E> = Success(value: T) | Failure(error: E)
}
