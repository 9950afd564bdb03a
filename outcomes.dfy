/** Results of operations that can raise an exception in the modelled code. */
module Outcomes {

  /** A value, or the exception the operation raised instead of returning. */
  datatype Result<+T, +E> = Ok(value: T) | Err(error: E)

  /** Success without a value, or the exception raised. */
  datatype Outcome<+E> = Pass | Fail(error: E)

  datatype Option<+T> = None | Some(value: T)
}
