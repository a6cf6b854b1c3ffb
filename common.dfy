/** Values shared by every service: optional values, the error taxonomy the services
    throw (as NestJS exceptions), and JavaScript's notion of a "truthy" optional value. */
module Common {

  datatype Option<T> = None | Some(value: T) {
    /** The value, or a default when absent (a destructuring default in the source). */
    function GetOr(default: T): T {
      match this
      case Some(v) => v
      case None => default
    }
  }

  /** The exception classes the services throw, plus the generic `Error` (Internal),
      failures reported by the object store (Upstream) and errors raised by the
      persistent store itself (StoreError). */
  datatype ErrorKind =
    | NotFound       // NotFoundException, HTTP 404
    | Forbidden      // ForbiddenException, HTTP 403
    | BadRequest     // BadRequestException, HTTP 400
    | Conflict       // ConflictException, HTTP 409
    | Unauthorized   // UnauthorizedException, HTTP 401
    | Internal       // a plain `new Error(...)`, HTTP 500
    | Upstream       // an error propagated from the object store
    | StoreError     // an error raised by the relational store (missing row, foreign key)

  /** Callers branch on the exact message, so it is part of the error's identity. */
  datatype Error = Error(kind: ErrorKind, message: string)

  datatype Result<T> = Ok(value: T) | Err(error: Error)

  /** What every service throws when a file id names no file. */
  const FileNotFound := Error(NotFound, "File not found")

  /** `if (s)` on an optional string: absent and the empty string are both falsy. */
  predicate Truthy(s: Option<string>) {
    s.Some? && s.value != ""
  }

  /** `if (n)` on an optional number: absent and zero are both falsy. */
  predicate TruthyNat(n: Option<nat>) {
    n.Some? && n.value != 0
  }

  function Min(a: nat, b: nat): nat {
    if a <= b then a else b
  }
}
