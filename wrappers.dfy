/** Failure-carrying values shared by every module of the model. */
module Wrappers {

  datatype Option<+T> = None | Some(value: T)

  /** A value or the error that prevented computing it. Go's `(T, error)` pair. */
  datatype Result<+T, +E> = Ok(value: T) | Err(error: E)

  /** Success or an error. Go's lone `error` return, `nil` being `Pass`. */
  datatype Outcome<+E> = Pass | Fail(error: E)
}
