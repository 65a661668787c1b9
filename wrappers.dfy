/**
 * Option and Result datatypes shared by the models. A Python exception
 * becomes a `Failure` that carries the exception class and its message.
 */
module Wrappers {

  datatype Option<+T> = None | Some(value: T)

  /** The built-in Python exception classes that the modelled code raises. */
  datatype ErrorKind =
    | ValueError
    | IndexError
    | ZeroDivisionError
    | FileNotFoundError
    | AttributeError
    | TypeError
    | RecursionError

  datatype Error = Error(kind: ErrorKind, message: string)

  datatype Result<+T> = Success(value: T) | Failure(error: Error)
}
