/** Option and Result values standing for Java's null returns and thrown exceptions. */
module Outcomes {

  datatype Option<+T> = None | Some(value: T)

  /** The outcome of an operation that may throw: a value, or the exception's message. */
  datatype Result<+T> = Ok(value: T) | Err(msg: string)
}
