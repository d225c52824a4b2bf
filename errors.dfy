/** The application error type, its `Display` text, the conversion from store errors and
    the HTTP response every error turns into. */
module Errors {

  /** A store error. The driver's own variants are not modelled; the modelled store raises
      only constraint violations, each carrying the driver's text. */
  datatype DbErr = UniqueViolation(message: string) | ForeignKeyViolation(message: string)

  datatype AppError =
    | DatabaseError(err: DbErr)
    | ValidationError(msg: string)
    | NotFound(msg: string)
    | Unauthorized(msg: string)
    | InternalServerError(msg: string)

  const StatusOk: int := 200
  const StatusCreated: int := 201
  const StatusBadRequest: int := 400
  const StatusUnauthorized: int := 401
  const StatusNotFound: int := 404
  const StatusConflict: int := 409
  const StatusInternalServerError: int := 500

  /** `impl Display for AppError`: a fixed label per variant, then the message. */
  function Display(e: AppError): string {
    match e
    case DatabaseError(err) => "Database error: " + err.message
    case ValidationError(msg) => "Validation error: " + msg
    case NotFound(msg) => "Not found: " + msg
    case Unauthorized(msg) => "Unauthorized: " + msg
    case InternalServerError(msg) => "Internal server error: " + msg
  }

  /** The text that follows the label. */
  function Detail(e: AppError): string {
    if e.DatabaseError? then e.err.message else e.msg
  }

  /** The labels start with five different letters, so the displayed text determines the
      variant and the message. */
  lemma DisplayDeterminesError(e1: AppError, e2: AppError)
    requires Display(e1) == Display(e2)
    ensures e1.DatabaseError? == e2.DatabaseError?
    ensures e1.ValidationError? == e2.ValidationError?
    ensures e1.NotFound? == e2.NotFound?
    ensures e1.Unauthorized? == e2.Unauthorized?
    ensures Detail(e1) == Detail(e2)
  {
    var d1, d2 := Display(e1), Display(e2);
    assert d1[0] == d2[0];
    var n := |Display(e1)| - |Detail(e1)|;
    assert e1.DatabaseError? ==> n == 16;
    assert e1.ValidationError? ==> n == 18;
    assert e1.NotFound? ==> n == 11;
    assert e1.Unauthorized? ==> n == 14;
    assert e1.InternalServerError? ==> n == 23;
    assert Detail(e1) == d1[n..];
    assert Detail(e2) == d2[n..];
  }

  /** `impl From<sqlx::Error> for AppError`. */
  function FromDbErr(err: DbErr): (e: AppError)
    ensures e.DatabaseError? && e.err == err
  {
    DatabaseError(err)
  }

  /** The response `into_response` builds: a status and the JSON object `{"error": ..}`. */
  datatype ErrorResponse = ErrorResponse(status: int, body: map<string, string>)

  function IntoResponse(e: AppError): (r: ErrorResponse)
    ensures r.body.Keys == {"error"}
    ensures 400 <= r.status <= 500
  {
    var (status, message) := match e
      case DatabaseError(_) => (StatusInternalServerError, "Database error")
      case ValidationError(msg) => (StatusBadRequest, msg)
      case NotFound(msg) => (StatusNotFound, msg)
      case Unauthorized(msg) => (StatusUnauthorized, msg)
      case InternalServerError(msg) => (StatusInternalServerError, msg);
    ErrorResponse(status, map["error" := message])
  }

  /** The status of each variant, and the body message: the variant's own message, except
      for store errors whose body is the fixed text "Database error". */
  lemma IntoResponseMapping(e: AppError)
    ensures e.DatabaseError? ==> IntoResponse(e) == ErrorResponse(500, map["error" := "Database error"])
    ensures e.ValidationError? ==> IntoResponse(e) == ErrorResponse(400, map["error" := e.msg])
    ensures e.NotFound? ==> IntoResponse(e) == ErrorResponse(404, map["error" := e.msg])
    ensures e.Unauthorized? ==> IntoResponse(e) == ErrorResponse(401, map["error" := e.msg])
    ensures e.InternalServerError? ==> IntoResponse(e) == ErrorResponse(500, map["error" := e.msg])
  {
  }

  /** The driver's error text never reaches the body: all store errors look alike. */
  lemma DatabaseErrorHidesDetail(a: DbErr, b: DbErr)
    ensures IntoResponse(FromDbErr(a)) == IntoResponse(FromDbErr(b))
  {
  }

  /** A status below 500 exactly for the caller's faults (validation, not found, auth). */
  lemma ClientErrorIffBelow500(e: AppError)
    ensures IntoResponse(e).status < 500 <==> e.ValidationError? || e.NotFound? || e.Unauthorized?
  {
  }
}
