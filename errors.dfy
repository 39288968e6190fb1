/**
  The two kinds of failure the controller reports: a `ValueError` for an
  argument out of range (raised before any byte is built or sent), and the
  controller's own exception for a failed exchange with the device.
 */
module Errors {

  /** Which range check refused an argument. */
  datatype BadArgument = InvalidPort | InvalidEdid

  /** Why an exchange with the device failed. */
  datatype Failure =
    | WriteFailed      // the transport raised while writing
    | ReadFailed       // the transport raised while reading
    | InvalidResponse  // the reply had the wrong length or a wrong checksum

  datatype Error =
    | ValueError(argument: BadArgument)
    | ControllerError(failure: Failure)

  /** The value an operation returns, or the exception it raises. */
  datatype Result<+T> = Ok(value: T) | Err(error: Error)
}
