/** Optional values and results that carry an error, as the program's `Result<T>` does. */
module Outcomes {
  datatype Option<+T> = None | Some(value: T)

  datatype Result<+T, +E> = Ok(value: T) | Err(error: E)

  /** Errors of the libraries underneath are handed on as they are. */
  type ErrorCode = nat

  /** What a call does that may step outside a buffer or a tree; what happens then the language leaves open. */
  datatype Checked<+T> = Returned(value: T) | OutOfBounds
}
