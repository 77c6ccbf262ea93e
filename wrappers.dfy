/** Option, Result and Outcome: the error paths of the model are values, not exceptions. */
module Wrappers {

  /** A possibly absent value; `None` stands for Java's `null`. */
  datatype Option<+T> = None | Some(value: T)

  /** A value or the failure that was thrown instead of returning it. */
  datatype Result<+T, +E> = Ok(value: T) | Err(error: E)

  /** The result of a `void` operation: it returned normally or threw `error`. */
  datatype Outcome<+E> = Pass | Fail(error: E)
}
