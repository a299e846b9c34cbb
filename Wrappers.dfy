/** Option and result types used across the installer model. */
module Wrappers {

  /** A value that may be absent (the installer's `null`). */
  datatype Option<+T> = None | Some(value: T)

  /** The outcome of a step that can fail with an error the installer reports. */
  datatype Result<+T, +E> = Success(value: T) | Failure(error: E)
}
