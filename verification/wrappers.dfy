/** Optional values and results, standing in for Java's `null`/`Optional` and thrown exceptions. */
module Wrappers {

  /** A value that may be absent: `Optional<T>`, or a nullable reference. */
  datatype Option<+T> = None | Some(value: T)

  /** The outcome of a step that can throw: its value, or the exception's message. */
  datatype Result<+T, +E> = Success(value: T) | Failure(error: E)
}
