/** The exceptions that the modelled code throws and that the exception
    handler turns into responses. */
module Errors {

  import opened TokenTypes

  /** Why the JWT library refused a token. The library folds all of these into
      one exception class; the reason only reaches the log and the message. */
  datatype VerificationFailure =
    | Malformed          // the string is not a compact JWS
    | SignatureMismatch  // not signed HS256 with the configured secret
    | IssuerMismatch     // `iss` differs from the configured issuer
    | TypeMismatch       // the private `type` claim differs from the expected kind
    | Expired            // the current instant is not before `exp`

  datatype Exception =
    | DepartmentExists(message: string)
    | DepartmentNotFound(message: string)
    | EmployeeExists(message: string)
    | EmployeeNotFound(message: string)
    | UserExists(message: string)
    | UserNotFound(message: string)
    | InvalidRole(message: string)
    | UnsupportedFile(message: string)
    | FileNotFoundOrUnreadable(message: string)
      /** `FileTreeWalkException`: walking an employee's photo directory failed. */
    | FileTreeWalk
      /** `FileDeletionException`: deleting a photo file or its directory failed. */
    | FileDeletion
      /** `JWTVerificationException`, raised while validating a token of the expected kind. */
    | JwtVerification(expected: TokenType, reason: VerificationFailure)
      /** A Spring Security `AuthenticationException`, identified by its simple class name. */
    | Authentication(className: string)
    | AccessDenied(message: string)
      /** `NullPointerException`. */
    | NullPointer
      /** `ArrayIndexOutOfBoundsException`. */
    | IndexOutOfBounds
}
