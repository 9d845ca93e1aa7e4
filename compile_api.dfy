/** The `/api/compile-latex` route: it validates the request, forwards the LaTeX text to
    the external compilation service, and classifies the service's reply into one
    response for the page. The network exchange is an input: the reply the service gives
    (or the failure `fetch` raises) is a parameter of the handler. */
module CompileApi {
  import opened Wrappers
  import opened Text

  const Endpoint: string := "https://latexonline.cc/compile/text"

  /** The only command the route ever asks the service to run. */
  const Command: string := "pdflatex"

  const JsonType: string := "application/json"
  const PdfType: string := "application/pdf"
  const PdfDisposition: string := "inline; filename=\"document.pdf\""

  const InternalError: string := "An internal server error occurred."
  const ContentRequired: string := "LaTeX content is required."
  const NoContentLog: string := "No LaTeX content was provided."
  const ServiceUnavailable: string := "Compilation service is unavailable or returned an error."
  const LatexErrors: string := "Compilation failed due to LaTeX errors."
  const DefaultCompileLog: string := "Unknown compilation error from latexonline.cc."
  const UnexpectedFormat: string := "Unexpected successful response format from compilation service."

  /** The request body. `NoBody` is an absent (`undefined` or `null`) body, whose
      destructuring raises a `TypeError` carrying the runtime's message. */
  datatype Body =
    | NoBody(readError: string)
    | Body(latex: Option<string>, engine: Option<string>)

  datatype Request = Request(httpMethod: string, body: Body)

  /** The JSON value the service's body parses to. `JsonNull` is `null`, reading a field
      of which raises a `TypeError`; an object gives the three string fields the route
      reads, `None` standing for a field that is absent. */
  datatype Json =
    | JsonNull(readError: string)
    | JsonObject(status: Option<string>, log: Option<string>, result: Option<string>)

  /** What `fetch` yields: a rejection, or a reply with its `ok` flag, status code, body
      text and the outcome of parsing that body as JSON. */
  datatype Reply =
    | FetchFailed(message: string)
    | Replied(ok: bool, status: nat, text: string, parsed: Result<Json, string>)

  /** The request the route sends to the service. */
  datatype UpstreamCall = UpstreamCall(url: string, contentType: string, text: string, command: string)

  /** A JSON error answer, or the PDF (its base64 text, decoded by `Buffer.from`). */
  datatype Response =
    | JsonResponse(code: nat, error: string, log: Option<string>)
    | PdfResponse(contentType: string, disposition: string, base64: string)

  /** Whether the service was called, and the answer the page receives. */
  datatype Outcome = Outcome(call: Option<UpstreamCall>, response: Response)

  /** JavaScript truthiness of a string field that may be absent. */
  predicate Truthy(s: Option<string>) {
    s.Some? && s.value != ""
  }

  const MethodNotAllowed: Response := JsonResponse(405, "Method Not Allowed", None)

  /** Everything the `catch` block answers: 500 with the exception's message as log. */
  function ServerError(message: string): Response {
    JsonResponse(500, InternalError, Some(message))
  }

  /** The shape every answer has: a PDF, or a JSON error whose code is 405 without a log,
      400 with a log, or 500 with the internal-error text and a log. */
  predicate WellFormed(r: Response) {
    r.PdfResponse? ||
    (r.code == 405 && r.log.None?) ||
    (r.code == 400 && r.log.Some?) ||
    (r.code == 500 && r.error == InternalError && r.log.Some?)
  }

  const HttpFailureHead: string := "External compilation service failed with status "
  const HttpFailureMiddle: string := ". Response: "

  /** The log for a reply whose status is not OK: the status code and at most the first
      500 characters of the reply's body. */
  function HttpFailureLog(status: nat, text: string): (log: string)
    ensures Contains(log, NatToString(status))
    ensures exists excerpt ::
      (|excerpt| <= 500 && StartsWith(text, excerpt) &&
       log == HttpFailureHead + NatToString(status) + HttpFailureMiddle + excerpt)
    ensures |text| <= 500 ==> log == HttpFailureHead + NatToString(status) + HttpFailureMiddle + text
    ensures |text| > 500 ==> log == HttpFailureHead + NatToString(status) + HttpFailureMiddle + text[..500]
  {
    var digits := NatToString(status);
    var log := HttpFailureHead + digits + HttpFailureMiddle + Prefix(text, 500);
    assert log[|HttpFailureHead|..|HttpFailureHead| + |digits|] == digits;
    assert OccursAt(log, digits, |HttpFailureHead|);
    log
  }

  /** The log for a reply whose JSON status is `'error'`: the service's log when it is a
      non-empty string, the fixed default otherwise. */
  function CompileErrorLog(log: Option<string>): (r: string)
    ensures r != ""
    ensures Truthy(log) ==> r == log.value
    ensures !Truthy(log) ==> r == DefaultCompileLog
  {
    if Truthy(log) then log.value else DefaultCompileLog
  }

  /** The reply is OK, parses to an object whose status is `'success'`, and carries a
      non-empty `result`. */
  predicate CarriesPdf(reply: Reply) {
    reply.Replied? && reply.ok && reply.parsed.Ok? && reply.parsed.value.JsonObject? &&
    reply.parsed.value.status == Some("success") && Truthy(reply.parsed.value.result)
  }

  /** The reply is OK and parses to an object whose status is `'error'`. */
  predicate ReportsLatexError(reply: Reply) {
    reply.Replied? && reply.ok && reply.parsed.Ok? && reply.parsed.value.JsonObject? &&
    reply.parsed.value.status == Some("error")
  }

  /** The classification of the service's reply once the request has been forwarded. */
  function Classify(reply: Reply): (r: Response)
    ensures WellFormed(r)
    ensures r.PdfResponse? <==> CarriesPdf(reply)
    ensures CarriesPdf(reply) ==>
      r == PdfResponse(PdfType, PdfDisposition, reply.parsed.value.result.value)
    ensures reply.Replied? && !reply.ok ==>
      r == JsonResponse(400, ServiceUnavailable, Some(HttpFailureLog(reply.status, reply.text)))
    ensures ReportsLatexError(reply) ==>
      r == JsonResponse(400, LatexErrors, Some(CompileErrorLog(reply.parsed.value.log)))
    ensures r.JsonResponse? && r.code == 400 <==>
      (reply.Replied? && !reply.ok) || ReportsLatexError(reply)
    ensures reply.FetchFailed? ==> r == ServerError(reply.message)
    ensures reply.Replied? && reply.ok && reply.parsed.Err? ==> r == ServerError(reply.parsed.error)
    ensures reply.Replied? && reply.ok && reply.parsed.Ok? && reply.parsed.value.JsonNull? ==>
      r == ServerError(reply.parsed.value.readError)
    ensures (reply.Replied? && reply.ok && reply.parsed.Ok? && reply.parsed.value.JsonObject? &&
             !CarriesPdf(reply) && !ReportsLatexError(reply)) ==> r == ServerError(UnexpectedFormat)
  {
    match reply
    case FetchFailed(message) => ServerError(message)
    case Replied(ok, status, text, parsed) =>
      if !ok then JsonResponse(400, ServiceUnavailable, Some(HttpFailureLog(status, text)))
      else
        match parsed
        case Err(message) => ServerError(message)
        case Ok(JsonNull(readError)) => ServerError(readError)
        case Ok(JsonObject(status, log, result)) =>
          if status == Some("error") then JsonResponse(400, LatexErrors, Some(CompileErrorLog(log)))
          else if status == Some("success") && Truthy(result) then
            PdfResponse(PdfType, PdfDisposition, result.value)
          else ServerError(UnexpectedFormat)
  }

  /** The request asks for a compilation and carries a non-empty LaTeX text. */
  predicate Forwarded(req: Request) {
    req.httpMethod == "POST" && req.body.Body? && Truthy(req.body.latex)
  }

  /** The handler. The reply matters only when the service is called. */
  function Handle(req: Request, reply: Reply): (out: Outcome)
    ensures out.call.Some? <==> Forwarded(req)
    ensures Forwarded(req) ==>
      out.call == Some(UpstreamCall(Endpoint, JsonType, req.body.latex.value, Command))
    ensures out.response == MethodNotAllowed <==> req.httpMethod != "POST"
    ensures req.httpMethod == "POST" && req.body.NoBody? ==> out.response == ServerError(req.body.readError)
    ensures req.httpMethod == "POST" && req.body.Body? && !Truthy(req.body.latex) ==>
      out.response == JsonResponse(400, ContentRequired, Some(NoContentLog))
    ensures Forwarded(req) ==> out.response == Classify(reply)
    ensures WellFormed(out.response)
  {
    if req.httpMethod != "POST" then Outcome(None, MethodNotAllowed)
    else if req.body.NoBody? then Outcome(None, ServerError(req.body.readError))
    else if !Truthy(req.body.latex) then
      Outcome(None, JsonResponse(400, ContentRequired, Some(NoContentLog)))
    else
      Outcome(Some(UpstreamCall(Endpoint, JsonType, req.body.latex.value, Command)), Classify(reply))
  }

  /** A PDF comes back exactly when the request is forwarded and the service's reply
      carries one; the PDF is the service's `result` text. */
  lemma PdfOnlyOnSuccess(req: Request, reply: Reply)
    ensures Handle(req, reply).response.PdfResponse? <==> Forwarded(req) && CarriesPdf(reply)
    ensures Handle(req, reply).response.PdfResponse? ==>
      Handle(req, reply).response.base64 == reply.parsed.value.result.value &&
      Handle(req, reply).response.contentType == PdfType
  {
    if !Forwarded(req) {
      assert Handle(req, reply).response.JsonResponse?;
    }
  }

  /** The engine a request names plays no part: the same text is compiled with
      `pdflatex` whatever it is. */
  lemma EngineIgnored(req: Request, engine: Option<string>, reply: Reply)
    requires req.body.Body?
    ensures Handle(req.(body := req.body.(engine := engine)), reply) == Handle(req, reply)
  {
  }

  /** Without a call to the service, its reply cannot influence the answer. */
  lemma ReplyUnusedWithoutCall(req: Request, reply: Reply, other: Reply)
    requires !Forwarded(req)
    ensures Handle(req, reply) == Handle(req, other)
  {
  }
}
