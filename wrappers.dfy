/** Failure-carrying results shared by every module of the model. */
module Wrappers {

  datatype Option<+T> = None | Some(value: T)

  /** The Python exceptions that the modelled code raises and that the model keeps. */
  datatype PyError =
    | IndexError                  // indexing an empty pattern
    | NameError                   // reading a module global that was never bound
    | ValueError(message: string) // `raise ValueError(...)`, or a socket read of negative size
    | OverflowError(message: string) // a size that does not fit a C `ssize_t`
    | Raised(message: string)     // `raise Exception(message)`

  datatype Result<+T> = Ok(value: T) | Err(error: PyError)
}
