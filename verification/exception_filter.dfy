/** The global exception filter of the voting service: a classifier from the shape
    of any thrown object to the {status, message, error} triple sent back to the
    caller. The branches are tried in a fixed order: RpcException, then a
    database error code, then an HTTP (validation) exception, then anything else. */
module ExceptionFilter {
  import opened Rpc

  /** The `response` object of an HTTP exception such as the ones the validation
      pipe raises. An empty string stands for a missing or falsy property. */
  datatype HttpResponse = HttpResponse(message: string, error: string)

  /** What can reach the filter. `RpcException` is the service's own exception;
      `Raised` is any other thrown object, described by the properties the filter
      reads. As in the source's truthiness tests, `code == ""` means "no code",
      `status == 0` means "no status", and `response == None` means "no response". */
  datatype Exception =
    | RpcException(payload: ErrorPayload)
    | Raised(code: string, response: Option<HttpResponse>, status: int, message: string)

  const PrismaUniqueViolation: string := "P2002"
  const PrismaRecordNotFound: string := "P2025"
  const PrismaForeignKeyViolation: string := "P2003"

  const DuplicateEntry := ErrorPayload(Conflict, "Vote already registered or duplicate entry detected", "Conflict")
  const MissingRecord := ErrorPayload(NotFound, "Vote or voter information not found", "Not Found")
  const InvalidReference := ErrorPayload(BadRequest, "Invalid reference to election or candidate", "Bad Request")
  const DatabaseFailure := ErrorPayload(InternalServerError, "Database error occurred", "Internal Server Error")
  const GenericFailure := ErrorPayload(InternalServerError, "Internal server error in Voting service", "Internal Server Error")

  predicate IsKnownPrismaCode(code: string) {
    code == PrismaUniqueViolation || code == PrismaRecordNotFound || code == PrismaForeignKeyViolation
  }

  /** The table from database error codes to response triples. Each status
      identifies its code, and every unknown code falls to the 500 default. */
  function HandlePrismaError(code: string): (r: ErrorPayload)
    ensures r.status == Conflict <==> code == PrismaUniqueViolation
    ensures r.status == NotFound <==> code == PrismaRecordNotFound
    ensures r.status == BadRequest <==> code == PrismaForeignKeyViolation
    ensures r.status == InternalServerError <==> !IsKnownPrismaCode(code)
    ensures code == PrismaUniqueViolation ==>
      r == ErrorPayload(409, "Vote already registered or duplicate entry detected", "Conflict")
    ensures code == PrismaRecordNotFound ==>
      r == ErrorPayload(404, "Vote or voter information not found", "Not Found")
    ensures code == PrismaForeignKeyViolation ==>
      r == ErrorPayload(400, "Invalid reference to election or candidate", "Bad Request")
    ensures !IsKnownPrismaCode(code) ==> r == DatabaseFailure
    ensures r.error != "" && r.message != ""
  {
    if code == PrismaUniqueViolation then DuplicateEntry
    else if code == PrismaRecordNotFound then MissingRecord
    else if code == PrismaForeignKeyViolation then InvalidReference
    else DatabaseFailure
  }

  /** The triple the filter sends back for an exception. */
  function Catch(e: Exception): (r: ErrorPayload)
    // an RpcException goes out with its own payload, untouched
    ensures e.RpcException? ==> r == e.payload
    // a code wins over everything else the exception carries
    ensures e.Raised? && e.code != "" ==> r == HandlePrismaError(e.code)
    // an HTTP exception keeps its status; each of message and error comes from the
    // response when it has one, and falls back on its own otherwise
    ensures e.Raised? && e.code == "" && e.response.Some? && e.status != 0 ==>
      r.status == e.status &&
      r.message == (if e.response.value.message != "" then e.response.value.message else e.message) &&
      r.error == (if e.response.value.error != "" then e.response.value.error else "Validation Error")
    // with neither a code nor a response and a status, the generic 500 triple
    ensures e.Raised? && e.code == "" && (e.response.None? || e.status == 0) ==> r == GenericFailure
    // any non-RPC exception yields a truthy status and a truthy error tag
    ensures e.Raised? ==> r.status != 0 && r.error != ""
    // and its status is one of the table's, the generic 500, or the exception's own
    ensures e.Raised? ==> r.status in {BadRequest, NotFound, Conflict, InternalServerError} || r.status == e.status
  {
    match e
    case RpcException(payload) => payload
    case Raised(code, response, status, message) =>
      if code != "" then
        HandlePrismaError(code)
      else if response.Some? && status != 0 then
        ErrorPayload(
          status,
          if response.value.message != "" then response.value.message else message,
          if response.value.error != "" then response.value.error else "Validation Error")
      else
        GenericFailure
  }

  /** Once a code is present, the response, status and message of the exception
      play no part in the answer: the validation branch is never reached. */
  lemma CodeTakesPrecedence(code: string, response: Option<HttpResponse>, status: int, message: string)
    requires code != ""
    ensures Catch(Raised(code, response, status, message)) == Catch(Raised(code, None, 0, ""))
  {
  }

  /** In the validation branch the two fallbacks are independent: the response's
      message, when present, is used whatever its error is, and the response's error,
      when present, is used whatever its message is; each missing field falls back on
      its own, to the exception's message and to "Validation Error". */
  lemma ValidationFallbacks(response: HttpResponse, status: int, message: string)
    requires status != 0
    ensures Catch(Raised("", Some(response), status, message)).status == status
    ensures response.message != "" ==> Catch(Raised("", Some(response), status, message)).message == response.message
    ensures response.message == "" ==> Catch(Raised("", Some(response), status, message)).message == message
    ensures response.error != "" ==> Catch(Raised("", Some(response), status, message)).error == response.error
    ensures response.error == "" ==> Catch(Raised("", Some(response), status, message)).error == "Validation Error"
  {
  }
}
