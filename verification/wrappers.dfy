/** Failure-compatible wrappers shared by every module: `Option` for the
    source's `null`/`undefined` results and `Result` for its thrown errors. */
module Wrappers {

  datatype Option<+T> = None | Some(value: T) {

    /** The value, or `default` when absent (the source's `x ?? default`). */
    function GetOr(default: T): T {
      match this
      case Some(v) => v
      case None => default
    }
  }

  /** Errors the source raises with `throw`. */
  datatype Error =
    | MissingApiKey        // PUBLIC_DATA_API_KEY is not set
    | QueryFailed          // a database query reported an error

  datatype Result<+R> = Success(value: R) | Failure(error: Error)
}
