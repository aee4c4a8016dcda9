/**
 * Errors as the gRPC layer sees them. A handler error is either a gRPC status
 * (it carries a code) or a plain Go error (`errors.New`, `fmt.Errorf`, a driver
 * error), for which `status.Code` answers `Unknown`.
 */
module Errors {

  /** The seventeen gRPC status codes. */
  datatype Code =
    | OK | Canceled | Unknown | InvalidArgument | DeadlineExceeded | NotFound
    | AlreadyExists | PermissionDenied | ResourceExhausted | FailedPrecondition
    | Aborted | OutOfRange | Unimplemented | Internal | Unavailable | DataLoss
    | Unauthenticated

  datatype Error =
    | Status(code: Code, message: string)
    | Plain(message: string)

  /** `status.Code(err)` for a non-nil error. */
  function CodeOf(err: Error): (c: Code)
    ensures err.Plain? ==> c == Unknown
    ensures err.Status? ==> c == err.code
  {
    match err
    case Status(code, _) => code
    case Plain(_) => Unknown
  }
}
