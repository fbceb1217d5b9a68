/** Optional values, the error kinds the slicing layer raises, and results that carry them. */
module Errors {

  /** Python's `None` or a present value: the fields of a slice object, an error that may have been raised. */
  datatype Option<+T> = None | Some(value: T)

  /** The exception classes raised by the slicing layer; their messages are not modelled. */
  datatype Error = ValueError | IndexError | TypeError

  /** A value, or the exception raised instead of producing it. */
  datatype Result<+T> = Ok(value: T) | Err(error: Error)
}
