/** The mapping from a thrown exception to the HTTP error response. */
module ExceptionHandler {

  import opened Errors

  /** The error body; the timestamp is left out. */
  datatype ApiError = ApiError(status: int, error: string, message: string, path: string)

  datatype ErrorResponse = ErrorResponse(status: int, body: ApiError)

  const INTERNAL_ERROR_PATH := "/error"
  const INTERNAL_ERROR_LABEL := "[Internal error handling endpoint]"
  const UNEXPECTED := "An unexpected error has occurred."

  /** The standard reason phrase of each status the handler produces. */
  function ReasonPhrase(status: int): string {
    match status
    case 400 => "Bad Request"
    case 401 => "Unauthorized"
    case 403 => "Forbidden"
    case 404 => "Not Found"
    case 409 => "Conflict"
    case 415 => "Unsupported Media Type"
    case _ => "Internal Server Error"
  }

  /** The authentication failures that have a message of their own. */
  const NAMED_FAILURES: set<string> :=
    {"BadCredentialsException", "LockedException", "DisabledException", "InsufficientAuthenticationException"}

  /** The 401 message, chosen by the simple class name of the authentication exception. */
  function AuthenticationMessage(className: string): (m: string)
    ensures className !in NAMED_FAILURES ==> m == "Authentication failed."
    ensures className in NAMED_FAILURES ==> m != "Authentication failed."
  {
    match className
    case "BadCredentialsException" => "Nonexistent email or invalid password."
    case "LockedException" => "User account is locked."
    case "DisabledException" => "User account is disabled."
    case "InsufficientAuthenticationException" => "The provided JWT token is missing, expired, or invalid."
    case _ => "Authentication failed."
  }

  /** The status the most specific handler answers with. */
  function StatusOf(e: Exception): (s: int)
    ensures s in {400, 401, 403, 404, 409, 415, 500}
    ensures s == 400 <==> e.InvalidRole?
    ensures s == 401 <==> e.Authentication?
    ensures s == 403 <==> e.AccessDenied?
    ensures s == 415 <==> e.UnsupportedFile?
  {
    match e
    case DepartmentExists(_) => 409
    case EmployeeExists(_) => 409
    case UserExists(_) => 409
    case DepartmentNotFound(_) => 404
    case EmployeeNotFound(_) => 404
    case UserNotFound(_) => 404
    case FileNotFoundOrUnreadable(_) => 404
    case InvalidRole(_) => 400
    case UnsupportedFile(_) => 415
    case Authentication(_) => 401
    case AccessDenied(_) => 403
    case _ => 500
  }

  /** The exceptions that carry their own message into the response. */
  predicate EchoesMessage(e: Exception) {
    StatusOf(e) in {400, 403, 404, 409, 415}
  }

  function Handle(e: Exception, uri: string): (r: ErrorResponse)
    ensures r.status == r.body.status == StatusOf(e)
    ensures r.body.error == ReasonPhrase(r.status)
    ensures EchoesMessage(e) ==> r.body.message == e.message
    ensures e.Authentication? ==> r.body.message == AuthenticationMessage(e.className)
    ensures r.status == 500 ==> r.body.message == UNEXPECTED
    ensures !e.Authentication? ==> r.body.path == uri
    ensures e.Authentication? ==> r.body.path == (if uri == INTERNAL_ERROR_PATH then INTERNAL_ERROR_LABEL else uri)
  {
    var status := StatusOf(e);
    var message :=
      if e.Authentication? then AuthenticationMessage(e.className)
      else if status == 500 then UNEXPECTED
      else e.message;
    var path := if e.Authentication? && uri == INTERNAL_ERROR_PATH then INTERNAL_ERROR_LABEL else uri;
    ErrorResponse(status, ApiError(status, ReasonPhrase(status), message, path))
  }

  /** The statuses by family: conflicts, absences, the four single-handler
      statuses, and everything the services do not anticipate (file-system
      failures, index and null errors, and token failures raised inside a
      controller), which share one 500 answer that never reveals the cause. A
      token failure raised in the security filter never reaches this handler. */
  lemma StatusFamilies(e: Exception, uri: string)
    ensures (e.DepartmentExists? || e.EmployeeExists? || e.UserExists?) <==> Handle(e, uri).status == 409
    ensures (e.DepartmentNotFound? || e.EmployeeNotFound? || e.UserNotFound? || e.FileNotFoundOrUnreadable?) <==>
      Handle(e, uri).status == 404
    ensures (e.JwtVerification? || e.FileTreeWalk? || e.FileDeletion? || e.NullPointer? || e.IndexOutOfBounds?) <==>
      Handle(e, uri).status == 500
    ensures e.InvalidRole? <==> Handle(e, uri).status == 400
    ensures e.Authentication? <==> Handle(e, uri).status == 401
    ensures e.AccessDenied? <==> Handle(e, uri).status == 403
    ensures e.UnsupportedFile? <==> Handle(e, uri).status == 415
    ensures Handle(e, uri).status == 500 ==> Handle(e, uri).body == ApiError(500, "Internal Server Error", UNEXPECTED, uri)
  {
  }
}
