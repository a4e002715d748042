/** Optional values, results and the error kinds the hardware layer raises. */
module Outcomes {

  datatype Option<+T> = None | Some(value: T)

  /** The kinds of exception the modelled code raises or lets escape. The first three are
      the package's own (UOSUnsupportedError, UOSCommunicationError, UOSConfigurationError);
      the rest are Python built-ins that the legacy layer and a few unguarded paths raise. */
  datatype ErrorKind =
    | Unsupported
    | Communication
    | Configuration
    | NotImplemented
    | ValueError
    | AttributeError
    | RuntimeError
    | IndexError
    | KeyError
    | TypeError

  datatype Error = Error(kind: ErrorKind, message: string)

  /** A call either returns a value or raises. */
  datatype Result<+T> = Success(value: T) | Failure(error: Error)

  /** A call that returns nothing useful either completes or raises. */
  datatype Outcome = Pass | Fail(error: Error)
}
