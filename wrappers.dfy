/** Result types used in place of Java's null returns and checked exceptions. */
module Wrappers {

  /** A value that may be absent: the model of a nullable return or a `java.util.Optional`. */
  datatype Option<+T> = None | Some(value: T)

  /** A value or the exception that was thrown instead of returning one. */
  datatype Result<+T, +E> = Ok(value: T) | Err(error: E)

  /** A check that passes or throws, with no value of its own. */
  datatype Outcome<+E> = Pass | Fail(error: E)
}
