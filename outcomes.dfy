/** Optional values, results and the error kinds the program raises. */
module Outcomes {

  datatype Option<+T> = None | Some(value: T)

  /** The exceptions the program raises, as values. */
  datatype Error =
    | ApiError(message: string, code: int)  // the remote service answered with an error envelope
    | UnexpectedResponse                    // neither a response nor an error envelope, or not one element
    | InvalidResponse                       // an error envelope whose fields have the wrong shape
    | TransportError(status: int)           // the HTTP request itself failed
    | EmptyFrame                            // nothing to store: empty batch and no file yet
    | InvalidPeriod                         // a period whose start is not before its end
    | DateOverflow                          // date arithmetic left the years 1..9999
    | MissingApiKey                         // data is to be downloaded but no key was given

  datatype Result<+T> = Ok(value: T) | Err(error: Error)
}
