/**
 * The error kinds of src/exceptions/custom_exceptions.py, plus the 403
 * raised by the admin guard and the raw exceptions that reach the generic
 * 500 handler. Operations return a `Result` instead of raising.
 */
module Exceptions {
  import opened Wrappers

  datatype Error =
    | NotFound(detail: string)            // NotFoundException
    | InvalidCredentials(detail: string)  // InvalidCredentialsException
    | AlreadyExists(detail: string)       // AlreadyExistsException
    | RequestValidation(detail: string)   // RequestValidationException
    | Forbidden(detail: string)           // HTTPException(403) of require_admin
    | Service(message: string, code: int, publicDetail: string)  // ServiceError
    | Unhandled(kind: string, message: string)  // any other exception (ValueError, DatabaseError, ...)

  datatype Result<+T> = Ok(value: T) | Err(error: Error)

  /**
   * The HTTP status code the error is answered with: a ServiceError carries
   * its own, and every other kind has a code of its own, so the code tells
   * the kinds apart.
   */
  function StatusCode(e: Error): (c: int)
    ensures e.Service? ==> c == e.code
    ensures !e.Service? ==>
              && (c == 404 <==> e.NotFound?) && (c == 401 <==> e.InvalidCredentials?)
              && (c == 409 <==> e.AlreadyExists?) && (c == 400 <==> e.RequestValidation?)
              && (c == 403 <==> e.Forbidden?) && (c == 500 <==> e.Unhandled?)
  {
    match e
    case NotFound(_) => 404
    case InvalidCredentials(_) => 401
    case AlreadyExists(_) => 409
    case RequestValidation(_) => 400
    case Forbidden(_) => 403
    case Service(_, code, _) => code
    case Unhandled(_, _) => 500
  }

  /** Extra response headers; only the 401 asks for a bearer credential. */
  function Headers(e: Error): (h: map<string, string>)
    ensures "WWW-Authenticate" in h <==> e.InvalidCredentials?
    ensures e.InvalidCredentials? ==> h == map["WWW-Authenticate" := "Bearer"]
    ensures !e.InvalidCredentials? ==> h == map[]
  {
    if e.InvalidCredentials? then map["WWW-Authenticate" := "Bearer"] else map[]
  }

  function NotFoundException(detail: string := "Entity not found"): (e: Error)
    ensures e.NotFound? && StatusCode(e) == 404 && e.detail == detail && Headers(e) == map[]
  {
    NotFound(detail)
  }

  function InvalidCredentialsException(detail: string := "Invalid credentials"): (e: Error)
    ensures e.InvalidCredentials? && StatusCode(e) == 401 && e.detail == detail
    ensures Headers(e) == map["WWW-Authenticate" := "Bearer"]
  {
    InvalidCredentials(detail)
  }

  function AlreadyExistsException(detail: string := "Entity already exists"): (e: Error)
    ensures e.AlreadyExists? && StatusCode(e) == 409 && e.detail == detail && Headers(e) == map[]
  {
    AlreadyExists(detail)
  }

  function RequestValidationException(detail: string := "Validation error"): (e: Error)
    ensures e.RequestValidation? && StatusCode(e) == 400 && e.detail == detail && Headers(e) == map[]
  {
    RequestValidation(detail)
  }

  /**
   * ServiceError(message, status_code=400, public_detail=None): the public
   * detail falls back to the message when none is given, and also when the
   * one given is the empty string (`public_detail or message`).
   */
  function ServiceError(message: string, statusCode: int := 400,
                        publicDetail: Option<string> := None): (e: Error)
    ensures e.Service? && StatusCode(e) == statusCode && e.message == message
    ensures publicDetail.None? ==> e.publicDetail == message
    ensures publicDetail.Some? && publicDetail.value != "" ==> e.publicDetail == publicDetail.value
    ensures publicDetail == Some("") ==> e.publicDetail == message
  {
    Service(message, statusCode,
            if publicDetail.Some? && publicDetail.value != "" then publicDetail.value else message)
  }
}
