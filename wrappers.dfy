/** Failure-carrying values shared by every module of the inbox model. */
module Wrappers {

  /** A value that may be absent; `None` plays the part of Python's `None`. */
  datatype Option<+T> = None | Some(value: T)

  /** The outcome of an operation that raises on bad input. */
  datatype Result<+T, +E> = Ok(value: T) | Err(error: E)

  /** The two Python exceptions the inbox raises, each with its message. */
  datatype PyException = TypeError(message: string) | ValueError(message: string)

  /** Raw bytes, as Python's `bytes` holds them. */
  newtype byte = b: int | 0 <= b < 256
}
