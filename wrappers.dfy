/** Option and Result types shared by every module, and the JavaScript `Error`
    value that the server code throws. */
module Wrappers {

  datatype Option<+T> = None | Some(value: T) {
    function GetOr(default: T): T {
      match this
      case Some(v) => v
      case None => default
    }
  }

  datatype Result<+T, +E> = Success(value: T) | Failure(error: E)

  /** A thrown value. `Error(m)` is `new Error(m)`; `DbFault(m)` is an exception
      raised by the database driver itself (a cast error, a server error), which
      reaches the caller unchanged when no `try`/`catch` wraps the call. */
  datatype Error = Error(message: string) | DbFault(message: string)

  /** `new Error(err.message || fallback)`: the rethrow used by every `catch`
      block of the repositories and of the service. */
  function Rewrap(message: string, fallback: string): (e: Error)
    ensures e.Error?
    ensures message != "" ==> e.message == message
    ensures message == "" ==> e.message == fallback
  {
    Error(if message != "" then message else fallback)
  }
}
