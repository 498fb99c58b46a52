/** Failure-carrying wrappers and the reply envelope shared by every handler of the blog backend. */
module Results {

  /** A value that may be absent (`undefined`/`null` in the JavaScript original). */
  datatype Option<+T> = None | Some(value: T) {

    /** The value, or `default` when absent: JavaScript's `x ?? default`. */
    function GetOr(default: T): T {
      match this
      case Some(v) => v
      case None => default
    }
  }

  /** The ways a request handler ends without a normal reply. */
  datatype Failure =
    /** An `ErrorResponse` thrown by a controller: HTTP status code and message. */
    | Thrown(status: int, message: string)
    /** A schema validation error listing the paths that failed, in schema order. */
    | Invalid(paths: seq<string>)
    /** A unique-index violation on the named path. */
    | DuplicateKey(path: string)
    /** A plain `Error` raised by a collaborator (the object-store upload, bcrypt). */
    | Fault(message: string)
    /** A `TypeError` from dereferencing a document or user that is not there. */
    | Crash

  datatype Result<+T> = Ok(value: T) | Err(error: Failure)

  /** The JSON envelope `{ success: true, message, data }` sent with an HTTP status. */
  datatype Reply<+T> = Reply(status: int, message: string, data: T)

  /** The empty object `{}` that a delete handler sends as its data. */
  datatype Empty = Empty
}
