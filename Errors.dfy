/** Failure values standing for the IllegalArgumentException that BigInt.java throws. */
module Errors {

  /** The one kind of failure the class reports, with the message it carries. */
  datatype Error = IllegalArgument(message: string)

  /** The result of an operation that returns a value or throws. */
  datatype Result<T> = Ok(value: T) | Err(error: Error)

  /** The result of an operation that returns nothing or throws. */
  datatype Outcome = Pass | Fail(error: Error)

  /** A reference that may be Java's null (used for the String argument). */
  datatype Option<T> = None | Some(value: T)
}
