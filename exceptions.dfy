/** Optional values and the Java exceptions the message layer can throw. */
module Exceptions {

  datatype Option<+T> = None | Some(value: T)

  /** The runtime exceptions that escape the request/response code; any of them
      ends the connection without a response. */
  datatype JavaException =
    | NumberFormat      // Integer.parseInt on a digit string above Integer.MAX_VALUE
    | ClassCast         // a typed getter casting a header value of the wrong kind
    | IndexOutOfBounds  // missing request-line tokens, or Content-Length beyond the buffer
    | NullPointer       // a /files/ request when no directory was configured
    | InvalidPath       // Path.resolve given a file name it cannot turn into a path

  /** A computation that either returns normally or throws. */
  datatype Result<+T> = Ok(value: T) | Thrown(error: JavaException)

  /** The outcome of a void Java method. */
  datatype Outcome = Done | Raised(error: JavaException)
}
