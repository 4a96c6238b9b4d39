/** Nullable values and error results shared by the model. */
module Wrappers {

  /** A value that may be absent: stands for a nullable pointer or handle. */
  datatype Option<+T> = None | Some(value: T)

  /** The outcome of an operation that can fail. */
  datatype Result<+R, +E> = Success(value: R) | Failure(error: E)
}
