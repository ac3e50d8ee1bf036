/** Optional values and results, standing in for C# null and thrown exceptions. */
module Wrappers {

  /** `None` plays the part of a C# null reference. */
  datatype Option<+T> = None | Some(value: T) {
    function GetOr(default: T): T {
      match this
      case Some(v) => v
      case None => default
    }
  }

  /** Either a value or the exception the C# code would throw. */
  datatype Result<+R, +E> = Success(value: R) | Failure(error: E)

  /** The exceptions the URL class raises or lets escape. */
  datatype Exception =
    | ArgumentException(paramName: string)  // URL constructor: address without an http(s) prefix
    | NullReferenceException                // a member called on a null reference
    | LoadFailed(attempts: nat)             // "File could not be loaded after <attempts> attempts."
    | InvalidOperationException             // declared content length above int.MaxValue
    | WebException                          // a request whose failure is not retried (GetFile)
    | IOException                           // a read from the response stream failed
}
