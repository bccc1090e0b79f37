/** Failure-carrying result types used by the model. */
module Wrappers {

  /** A value that may be missing; `get_primitive_root` answers `None` when no candidate passes. */
  datatype Option<T> = None | Some(value: T)

  /** The outcome of an operation that may raise. */
  datatype Result<T, E> = Success(value: T) | Failure(error: E)
}
