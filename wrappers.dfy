/** Failure-carrying values shared by every module: an optional value, a
    value-or-error result, and a pass-or-error outcome. */
module Wrappers {

  datatype Option<+T> = None | Some(value: T)

  datatype Result<+T, +E> = Ok(value: T) | Err(error: E)

  datatype Outcome<+E> = Pass | Fail(error: E)
}
