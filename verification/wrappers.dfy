/** Optional values and error-or-value results shared by the whole model. */
module Wrappers {

  /** A value that may be absent: Python's `None` or JavaScript's `undefined`/`null`. */
  datatype Option<T> = None | Some(value: T)

  /** The outcome of an endpoint: a value, or the error the endpoint raises. */
  datatype Result<T, E> = Ok(value: T) | Err(error: E)
}
