/** Optional values and success/failure results, used for unset environment
    variables and for the exceptions thrown by the file-system calls. */
module Outcomes {

  /** A value that may be absent, such as an environment variable that is not set. */
  datatype Option<+T> = None | Some(value: T)

  /** The outcome of an operation that either succeeds with a value or fails
      with an error (the JavaScript code throws in the latter case). */
  datatype Result<+T, +E> = Ok(value: T) | Err(error: E)
}
