/**
 * The exceptions the provider raises, as a tagged kind. Each kind renders the
 * exact message text of the Python code.
 */
module Errors {

  datatype Error =
      /** A non-transient HTTP status: "Googledrive <context> error : <reason>". */
    | Fatal(context: string, status: int, reason: string)
      /** The retry budget ran out: "Max number of attempts reached in Google Drive directory <op> operation". */
    | RetryExhausted(operation: string)
      /** Legacy resolver: more than one node matched the last path segment. */
    | Ambiguous
      /** delete_recursive on the provider root. */
    | RootGuard
      /** A Python runtime error the code does not catch (unbound local, None subscript, missing key). */
    | Crash(what: string)

  function Message(e: Error): string {
    match e
    case Fatal(context, _, reason) => "Googledrive " + context + " error : " + reason
    case RetryExhausted(op) => "Max number of attempts reached in Google Drive directory " + op + " operation"
    case Ambiguous => "There are several files with this path."
    case RootGuard => "Cannot delete root path"
    case Crash(what) => what
  }
}
