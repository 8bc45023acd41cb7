/** How a `consume` call can fail. */
module Errors {

  /** The HTTP error classes the parser raises. */
  datatype HttpError = BadRequest | NotImplemented | InvalidHeader | VersionNotSupported

  /**
   * A failed `consume`: a classified HTTP error, or `Crash` for the blank
   * line that arrives with no pending header, where the parser subscripts
   * `None` and Python raises a TypeError that is not an HTTP error.
   */
  datatype Fault = Http(error: HttpError) | Crash
}
