/** Request errors and the HTTP responses they become (routes/error.rs). */
module Errors {
  import Ids

  const STATUS_BAD_REQUEST: int := 400
  const STATUS_UNAUTHORIZED: int := 401
  const STATUS_NOT_FOUND: int := 404
  const STATUS_INTERNAL_SERVER_ERROR: int := 500

  /** The errors a client can cause. The misspelt variant name is the source's. */
  datatype UserRequestError =
    | MetricNotFound(metric: Ids.MetricId)
    | InvalidPath
    | MissingAuthorizationToken
    | MalformedAuthoraizationToken
    | InvalidAuthorizationToken
    | RootAccountCantBeUsed
    | Unauthorized
    | FormatNotSupported
    | AssertionError

  /** The `Display` text of each variant. */
  function Message(e: UserRequestError): string
  {
    match e
    case MetricNotFound(id) => "Metric Not Found: " + Ids.Display(id.uuid)
    case InvalidPath => "Invalid Path"
    case MissingAuthorizationToken => "Unauthorized - Missing Authorization Token"
    case MalformedAuthoraizationToken => "Unauthorized - Malformed Authorization Token"
    case InvalidAuthorizationToken => "Unauthorized - Invalid Authorization Token"
    case RootAccountCantBeUsed => "Bad Request - Can't use root account"
    case Unauthorized => "Unauthorized"
    case FormatNotSupported => "Format Not Supported"
    case AssertionError => "Internal Server Error"
  }

  /** Failures that are not the client's: storage errors, arithmetic overflow, I/O. */
  datatype InternalError = Storage | Overflow | Io

  /** The error a `color_eyre` report was created from. */
  datatype Cause = User(user: UserRequestError) | Internal(internal: InternalError)

  /** A `RequestError`: a report whose root cause sits under any number of context layers. */
  datatype RequestError = RequestError(context: seq<string>, rootCause: Cause)

  /** The status and the JSON `message` of an error response. */
  datatype Response = Response(status: int, message: string)

  /** `IntoResponse for &UserRequestError` */
  function UserErrorResponse(e: UserRequestError): (r: Response)
    ensures r.message == Message(e)
    ensures r.status == STATUS_UNAUTHORIZED <==> e.Unauthorized? || e.InvalidAuthorizationToken?
    ensures r.status == STATUS_NOT_FOUND <==> e.FormatNotSupported?
    ensures r.status in {STATUS_BAD_REQUEST, STATUS_UNAUTHORIZED, STATUS_NOT_FOUND}
  {
    match e
    case Unauthorized | InvalidAuthorizationToken => Response(STATUS_UNAUTHORIZED, Message(e))
    case AssertionError | InvalidPath | RootAccountCantBeUsed | MissingAuthorizationToken
      | MalformedAuthoraizationToken | MetricNotFound(_) => Response(STATUS_BAD_REQUEST, Message(e))
    case FormatNotSupported => Response(STATUS_NOT_FOUND, Message(e))
  }

  /**
   * `IntoResponse for RequestError`: a user error at the root of the report
   * answers as that error; anything else is a 500 with a fixed message.
   */
  function ErrorResponse(err: RequestError): (r: Response)
    ensures err.rootCause.User? ==> r == UserErrorResponse(err.rootCause.user)
    ensures r.status == STATUS_INTERNAL_SERVER_ERROR <==> err.rootCause.Internal?
    ensures err.rootCause.Internal? ==> r == Response(STATUS_INTERNAL_SERVER_ERROR, "Internal Service Error")
  {
    match err.rootCause
    case User(e) => UserErrorResponse(e)
    case Internal(_) => Response(STATUS_INTERNAL_SERVER_ERROR, "Internal Service Error")
  }

  /** The response to an internal failure reveals nothing about it or its context. */
  lemma {:induction false} InternalErrorsLookAlike(a: RequestError, b: RequestError)
    requires a.rootCause.Internal? && b.rootCause.Internal?
    ensures ErrorResponse(a) == ErrorResponse(b)
    ensures ErrorResponse(a).message == "Internal Service Error"
  {
  }
}
