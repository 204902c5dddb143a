/** Optional values and error returns shared by the modules of this model. */
module Wrappers {

  /** A value that may be absent (Python's falsy `False` or `None` results). */
  datatype Option<T> = None | Some(value: T)

  /** The outcome of an operation that either produces a value or fails with an error. */
  datatype Result<T, E> = Ok(value: T) | Err(error: E)
}
