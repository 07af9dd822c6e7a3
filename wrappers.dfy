/** Optional values and results with an error kind, used for the store's
    absent extremes and for the histogram's single failure. */
module Wrappers {

  /** A value that may be absent: Python's `None` is `None`, any other value `Some(v)`. */
  datatype Option<+T> = None | Some(value: T)

  /** The outcome of an operation that can raise an exception. */
  datatype Result<+T, +E> = Ok(value: T) | Err(error: E)
}
