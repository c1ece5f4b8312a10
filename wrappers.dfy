/** Optional values and results with an error, shared by the other modules. */
module Wrappers {

  /** A value that may be absent (Kotlin's nullable `T?`). */
  datatype Option<+T> = None | Some(value: T)

  /** The outcome of an operation that either returns a value or throws `error`. */
  datatype Result<+T, +E> = Ok(value: T) | Err(error: E)
}
