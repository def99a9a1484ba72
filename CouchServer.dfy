/**
 * The CouchDB-style error reply of package `couchserver`: an HTTP status and
 * a JSON body `{"error": <short code>, "reason": <text>}`.
 */
module CouchServer {
  import opened GoTypes

  /** The statuses `errorDescription` has a short code for. */
  predicate KnownStatus(status: int) {
    status == 400 || status == 401 || status == 404 || status == 500
  }

  /**
   * `errorDescription`: the CouchDB short code of a status. Any other status
   * panics in the source; here it is excluded by the precondition. Each code
   * names exactly one status.
   */
  function ErrorDescription(status: int): (d: string)
    requires KnownStatus(status)
    ensures d == "unauthorized" <==> status == 401
    ensures d == "bad_request" <==> status == 400
    ensures d == "not_found" <==> status == 404
    ensures d == "internal_server_error" <==> status == 500
  {
    match status
    case 401 => "unauthorized"
    case 400 => "bad_request"
    case 404 => "not_found"
    case 500 => "internal_server_error"
  }

  /** Distinct statuses get distinct short codes. */
  lemma ErrorDescriptionInjective(a: int, b: int)
    requires KnownStatus(a) && KnownStatus(b) && a != b
    ensures ErrorDescription(a) != ErrorDescription(b)
  {
  }

  /** `couchError`: the JSON body of an error reply. */
  datatype CouchError = CouchError(error: string, reason: string)

  /**
   * What `HandleError` does to the response: nothing; a header and a body;
   * or a header and then a panic, because `WriteHeader` runs before
   * `errorDescription` is asked about the status.
   */
  datatype Reply = NoReply | Replied(status: int, body: CouchError) | PanicAfterHeader(status: int)

  /**
   * The decision of `HandleError`, with `kivik.StatusCode` and `kivik.Reason`
   * as the functions `statusCode` and `reason` of the error.
   */
  function HandleError<E>(err: Option<E>, statusCode: E -> int, reason: E -> string): (r: Reply)
    ensures r.NoReply? <==> err.None?
    ensures r.Replied? ==>
      err.Some? && r.status == statusCode(err.value) && KnownStatus(r.status) &&
      r.body == CouchError(ErrorDescription(r.status), reason(err.value))
    ensures r.PanicAfterHeader? <==> err.Some? && !KnownStatus(statusCode(err.value))
    ensures r.PanicAfterHeader? ==> r.status == statusCode(err.value)
  {
    match err
    case None => NoReply
    case Some(e) =>
      var status := statusCode(e);
      if KnownStatus(status) then Replied(status, CouchError(ErrorDescription(status), reason(e)))
      else PanicAfterHeader(status)
  }

  /**
   * The short code in the body names the status of the header: the reply is
   * consistent for every error.
   */
  lemma HandleErrorConsistent<E>(err: Option<E>, statusCode: E -> int, reason: E -> string)
    requires HandleError(err, statusCode, reason).Replied?
    ensures var r := HandleError(err, statusCode, reason);
      (r.body.error == "unauthorized" <==> r.status == 401) &&
      (r.body.error == "bad_request" <==> r.status == 400) &&
      (r.body.error == "not_found" <==> r.status == 404) &&
      (r.body.error == "internal_server_error" <==> r.status == 500)
  {
  }

  /** Precondition Failed (412) and Not Implemented (501) have no short code. */
  lemma HandleErrorPanicsOnUnmapped<E>(e: E, statusCode: E -> int, reason: E -> string)
    requires statusCode(e) == 412 || statusCode(e) == 501
    ensures HandleError(Some(e), statusCode, reason) == PanicAfterHeader(statusCode(e))
  {
  }
}
