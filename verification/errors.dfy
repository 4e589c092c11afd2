/**
 * The application error type and its HTTP rendering: every error becomes a
 * status code and a JSON body `{"error": message}`.
 */
module Errors {

  /** The twelve error kinds an operation can fail with. */
  datatype AppError =
    | Database(msg: string)
    | NotFound(msg: string)
    | Unauthorized
    | Forbidden
    | BadRequest(msg: string)
    | Conflict(msg: string)
    | Internal(msg: string)
    | Payment(msg: string)
    | Integration(msg: string)
    | Validation(msg: string)
    | ServiceUnavailable(msg: string)
    | External(msg: string)

  /** The JSON body: an object whose only key is "error". */
  datatype ErrorBody = ErrorBody(error: string)

  datatype ErrorResponse = ErrorResponse(status: int, body: ErrorBody)

  const DatabaseMessage := "Database error occurred"
  const InternalMessage := "Internal server error"

  /** Errors whose text is logged but never sent to the client. */
  predicate HidesDetail(e: AppError) {
    e.Database? || e.Internal?
  }

  /** Errors reported as a server-side fault (5xx). */
  predicate IsServerFault(e: AppError) {
    e.Database? || e.Internal? || e.Integration? || e.ServiceUnavailable? || e.External?
  }

  /** `IntoResponse for AppError`: total over all variants. */
  function Respond(e: AppError): (r: ErrorResponse)
    ensures 400 <= r.status < 600
    ensures r.status >= 500 <==> IsServerFault(e)
    ensures HidesDetail(e) ==> r.status == 500
    ensures e.Database? ==> r.body.error == DatabaseMessage
    ensures e.Internal? ==> r.body.error == InternalMessage
    ensures !HidesDetail(e) && !e.Unauthorized? && !e.Forbidden? ==> r.body.error == e.msg
  {
    match e
    case Database(_) => ErrorResponse(500, ErrorBody(DatabaseMessage))
    case NotFound(m) => ErrorResponse(404, ErrorBody(m))
    case Unauthorized => ErrorResponse(401, ErrorBody("Unauthorized"))
    case Forbidden => ErrorResponse(403, ErrorBody("Forbidden"))
    case BadRequest(m) => ErrorResponse(400, ErrorBody(m))
    case Conflict(m) => ErrorResponse(409, ErrorBody(m))
    case Internal(_) => ErrorResponse(500, ErrorBody(InternalMessage))
    case Payment(m) => ErrorResponse(402, ErrorBody(m))
    case Integration(m) => ErrorResponse(503, ErrorBody(m))
    case Validation(m) => ErrorResponse(422, ErrorBody(m))
    case ServiceUnavailable(m) => ErrorResponse(503, ErrorBody(m))
    case External(m) => ErrorResponse(502, ErrorBody(m))
  }

  /**
   * The client-error statuses: 401 and 403 for the two unit variants, 404,
   * 400 and 409 for the three lookup/request failures, 402 and 422 for
   * payment and validation failures.
   */
  lemma ClientStatuses(m: string)
    ensures Respond(Unauthorized).status == 401 && Respond(Forbidden).status == 403
    ensures Respond(NotFound(m)).status == 404 && Respond(BadRequest(m)).status == 400
    ensures Respond(Conflict(m)).status == 409 && Respond(Payment(m)).status == 402
    ensures Respond(Validation(m)).status == 422
  {
  }

  /** The server-fault statuses: 503 for both unavailability kinds and 502 for an upstream failure. */
  lemma ServerStatuses(m: string)
    ensures Respond(Integration(m)).status == 503
    ensures Respond(ServiceUnavailable(m)).status == 503
    ensures Respond(External(m)).status == 502
  {
  }

  /** The response to a database or internal error does not depend on its message. */
  lemma DetailNeverLeaks(e1: AppError, e2: AppError)
    requires HidesDetail(e1) && HidesDetail(e2)
    requires e1.Database? == e2.Database?
    ensures Respond(e1) == Respond(e2)
  {
  }

  /** `From<sqlx::Error>`: every driver error becomes a Database error carrying its text. */
  function FromDriverError(text: string): (e: AppError)
    ensures e.Database? && e.msg == text
    ensures Respond(e) == ErrorResponse(500, ErrorBody(DatabaseMessage))
  {
    Database(text)
  }

  /** The kind's label in the `Display` text (`thiserror`'s format strings). */
  function Label(e: AppError): string {
    match e
    case Database(_) => "Database error"
    case NotFound(_) => "Not found"
    case Unauthorized => "Unauthorized"
    case Forbidden => "Forbidden"
    case BadRequest(_) => "Bad request"
    case Conflict(_) => "Conflict"
    case Internal(_) => "Internal server error"
    case Payment(_) => "Payment error"
    case Integration(_) => "Integration error"
    case Validation(_) => "Validation error"
    case ServiceUnavailable(_) => "Service unavailable"
    case External(_) => "External service error"
  }

  /**
   * `Display for AppError`: unlike the HTTP response, the text carries the
   * message of every variant that has one, database and internal included.
   */
  function Display(e: AppError): (t: string)
    ensures !e.Unauthorized? && !e.Forbidden? ==> t == Label(e) + ": " + e.msg
    ensures e.Unauthorized? || e.Forbidden? ==> t == Label(e)
  {
    if e.Unauthorized? || e.Forbidden? then Label(e) else Label(e) + ": " + e.msg
  }

  /** The display text of a hidden-detail error carries the detail the response withholds. */
  lemma DisplayShowsHiddenDetail(e: AppError)
    requires HidesDetail(e)
    ensures var t := Display(e);
            |e.msg| <= |t| && t[|t| - |e.msg|..] == e.msg
            && Respond(e).body.error != t
  {
    var t := Display(e);
    if e.Database? {
      assert t[14] == ':' && DatabaseMessage[14] == ' ';
    } else {
      assert |t| > |InternalMessage|;
    }
  }
}
