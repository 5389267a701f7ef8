/** Option and Result, the two wrappers the route model uses for JavaScript's
    `null` and for operations that can fail. */
module Common {

  /** A value that may be missing: `None` plays JavaScript's `null`. */
  datatype Option<+T> = None | Some(value: T)

  /** The outcome of an operation that reports an error instead of a value. */
  datatype Result<+T, +E> = Ok(value: T) | Err(error: E)
}
