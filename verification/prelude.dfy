/** Shared vocabulary of the model: optional values, bytes, clock readings,
    document references and the responses a route can produce. */
module Prelude {

  /** A value that may be absent (Python's None). */
  datatype Option<+T> = None | Some(value: T) {
    function GetOr(default: T): T {
      match this
      case Some(v) => v
      case None => default
    }
  }

  /** One octet of a payload. */
  newtype byte = b: int | 0 <= b < 256

  /** A clock reading (`datetime.now()` or `datetime.utcnow()`), passed in by the caller. */
  type Time = int

  /** A reference to a user document: its position in the user collection. */
  type UserId = nat

  /** What a route or a route decorator hands back to the web framework. */
  datatype Response =
    | CallHandler                    // the decorated route handler runs
    | Redirect(location: string)     // an HTTP redirect
    | Page(errors: seq<string>)      // the form page is rendered with these error messages
    | ServerError                    // an uncaught exception
}
