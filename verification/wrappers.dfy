/** Failure-carrying values shared by every module of the model.
    Python exceptions become `Err` values that name the exception class. */
module Wrappers {

  /** A value that may be absent (pandas NaN, Python None). */
  datatype Option<+T> = None | Some(value: T)

  /** The Python exception classes the modelled code raises or lets escape. */
  datatype Error =
    | ValueError
    | KeyError
    | AssertionError
    | HTTPError
    | IndexError
    | AttributeError
    | TypeError
    | NameError

  /** Either a returned value or the exception that ends the call. */
  datatype Result<+T> = Ok(value: T) | Err(error: Error)
}
