/** Python exceptions raised by the modelled code, and the Option/Result wrappers
    the model uses instead of `None` returns and `raise`. */
module Errors {

  /** The exception classes the modelled operations raise. */
  datatype Error = IndexError | KeyError | ValueError | TypeError | AttributeError | ZeroDivisionError

  datatype Option<+T> = None | Some(value: T)

  /** The outcome of an operation that either returns a value or raises. */
  datatype Result<+T> = Ok(value: T) | Err(error: Error)
}
