/** The document editor page: its compile, fix-with-AI and generate actions, the stream
    reading they share, the page navigation of the PDF viewer, and the status the preview
    placeholder derives from the compilation log. Every network exchange is an input:
    the reply the route or the AI service gives is a parameter of the action, and each
    action runs to completion before the next one starts. */
module Editor {
  import opened Wrappers
  import opened Text
  import Sanitize
  import CompileApi

  // ---------------------------------------------------------------------------------
  // What the network gives back
  // ---------------------------------------------------------------------------------

  /** The body of a failed compile reply, read as JSON: not JSON at all, `null` (whose
      `log` cannot be read), or some other value with its `log` field and its
      `JSON.stringify` rendering. */
  datatype ErrorBody =
    | NotJson
    | JsonNull
    | JsonValue(log: Option<string>, stringified: string)

  /** What `fetch('/api/compile-latex')` yields: an OK reply whose PDF became an object
      URL, a reply that is not OK with its body text, or a rejection with its message. */
  datatype CompileReply =
    | Delivered(url: string)
    | Refused(errorText: string, body: ErrorBody)
    | Unreachable(message: string)

  /** What a call to an AI route yields: a rejection, a reply that is not OK (its status
      and the body text, `''` when that could not be read), a body read as a stream of
      decoded chunks, or a body read at once with `response.text()`. */
  datatype AiReply =
    | AiUnreachable(message: string)
    | AiRefused(status: nat, errText: string)
    | AiStreamed(chunks: seq<string>)
    | AiText(text: string)

  /** What the fix action sends: the code before the fix note is added, and the log
      without its `Error: ` prefix. */
  datatype FixRequest = FixRequest(code: string, errorLog: string)

  const CompilingLog: string := "Compiling..."
  const SuccessLog: string := "Compilation successful."
  const ErrorMark: string := "Error:"
  const ErrorPrefix: string := "Error: "

  /** The log as a failed compile leaves it. */
  function ErrorLog(message: string): (log: string)
    ensures StartsWith(log, ErrorMark) && log != SuccessLog
    ensures DropPrefix(log, |ErrorPrefix|) == message
  {
    var log := ErrorPrefix + message;
    assert log[..|ErrorMark|] == ErrorMark;
    assert log[0] != SuccessLog[0];
    assert log[|ErrorPrefix|..] == message;
    log
  }

  /** The message the compile action throws for a reply that is not OK: the JSON `log`
      when it is a non-empty string, else the JSON rendered back to text, else (not JSON,
      or `null`) the raw body text. */
  function FailureMessage(errorText: string, body: ErrorBody): (m: string)
    ensures body.JsonValue? && body.log.Some? && body.log.value != "" ==> m == body.log.value
    ensures body.JsonValue? && (body.log.None? || body.log.value == "") ==> m == body.stringified
    ensures !body.JsonValue? ==> m == errorText
  {
    match body
    case NotJson => errorText
    case JsonNull => errorText
    case JsonValue(log, stringified) =>
      if log.Some? && log.value != "" then log.value else stringified
  }

  /** The compilation log a finished compile leaves. */
  function CompileLog(reply: CompileReply): (log: string)
    ensures reply.Delivered? <==> log == SuccessLog
    ensures !reply.Delivered? <==> StartsWith(log, ErrorMark)
    ensures reply.Refused? ==> log == ErrorLog(FailureMessage(reply.errorText, reply.body))
    ensures reply.Unreachable? ==> log == ErrorLog(reply.message)
  {
    match reply
    case Delivered(_) => assert SuccessLog[0] != ErrorMark[0]; SuccessLog
    case Refused(errorText, body) => ErrorLog(FailureMessage(errorText, body))
    case Unreachable(message) => ErrorLog(message)
  }

  /** The message an AI action throws for a reply that is not OK or not reached: the
      body text when there is one, else the status behind the action's own words. */
  function AiFailure(reply: AiReply, statusWords: string): (m: string)
    requires reply.AiUnreachable? || reply.AiRefused?
    ensures reply.AiUnreachable? ==> m == reply.message
    ensures reply.AiRefused? && reply.errText != "" ==> m == reply.errText
    ensures reply.AiRefused? && reply.errText == "" ==> m == statusWords + NatToString(reply.status)
  {
    if reply.AiUnreachable? then reply.message
    else if reply.errText != "" then reply.errText
    else statusWords + NatToString(reply.status)
  }

  /** The whole text an AI reply delivers, for the replies that deliver one. */
  function Received(reply: AiReply): string
    requires reply.AiStreamed? || reply.AiText?
  {
    if reply.AiStreamed? then Concat(reply.chunks) else reply.text
  }

  /** The answer the route gives, as the page receives it: a PDF becomes an object URL,
      and a JSON error is a reply that is not OK whose body is that JSON. */
  function ReplyFromRoute(response: CompileApi.Response, url: string, errorText: string,
                          stringified: string): (reply: CompileReply)
    ensures response.PdfResponse? <==> reply.Delivered?
  {
    match response
    case PdfResponse(_, _, _) => Delivered(url)
    case JsonResponse(_, _, log) => Refused(errorText, JsonValue(log, stringified))
  }

  /** Whatever the route answers, the page's log is the success text exactly for a PDF,
      and for an error answer with a log it is `Error: ` and that log. */
  lemma RouteLogReachesPage(response: CompileApi.Response, url: string, errorText: string,
                            stringified: string)
    requires CompileApi.WellFormed(response)
    ensures var log := CompileLog(ReplyFromRoute(response, url, errorText, stringified));
      (response.PdfResponse? <==> log == SuccessLog) &&
      (response.JsonResponse? && response.code != 405 && response.log.value != "" ==>
         log == ErrorPrefix + response.log.value)
  {
  }

  /** The page always sends the route a text it forwards to the service: the sanitised
      code is never empty. */
  lemma PageRequestIsForwarded(code: string, compiler: string)
    ensures CompileApi.Forwarded(CompileApi.Request("POST",
      CompileApi.Body(Some(Sanitize.SanitizeLatex(Some(code), Some(compiler))), Some(compiler))))
    ensures CompileApi.Forwarded(CompileApi.Request("POST",
      CompileApi.Body(Some(Sanitize.SanitizeLatexAsWritten(Some(code), Some(compiler))), Some(compiler))))
  {
    Sanitize.SanitizedHasDocumentClass(Some(code), Some(compiler));
  }

  // ---------------------------------------------------------------------------------
  // Reading a streamed body
  // ---------------------------------------------------------------------------------

  /** The `reader.read()` loop: the decoded chunks appended in the order they arrive. */
  method ReadStream(chunks: seq<string>) returns (text: string)
    ensures text == Concat(chunks)
    ensures forall i :: 0 <= i < |chunks| ==> |chunks[i]| <= |text|
  {
    text := "";
    var i := 0;
    while i < |chunks|
      invariant 0 <= i <= |chunks|
      invariant text == Concat(chunks[..i])
      invariant forall k :: 0 <= k < i ==> |chunks[k]| <= |text|
    {
      assert chunks[..i + 1][..i] == chunks[..i];
      text := text + chunks[i];
      i := i + 1;
    }
    assert chunks[..i] == chunks;
  }

  // ---------------------------------------------------------------------------------
  // What the preview shows
  // ---------------------------------------------------------------------------------

  datatype PreviewStatus = Compiling | Failed | Idle

  /** The placeholder's status: compiling while a compile runs, failed when the log is an
      error, idle otherwise. */
  function StatusOf(isCompiling: bool, log: string): (s: PreviewStatus)
    ensures s == Compiling <==> isCompiling
    ensures s == Failed <==> !isCompiling && StartsWith(log, ErrorMark)
    ensures s == Idle <==> !isCompiling && !StartsWith(log, ErrorMark)
  {
    if isCompiling then Compiling else if StartsWith(log, ErrorMark) then Failed else Idle
  }

  /** The error text the placeholder shows: the log after its seven-character prefix,
      when the log is an error. */
  function ShownError(log: string): (e: Option<string>)
    ensures e.Some? <==> StartsWith(log, ErrorMark)
    ensures e.Some? ==> e.value == DropPrefix(log, |ErrorPrefix|)
  {
    if StartsWith(log, ErrorMark) then Some(DropPrefix(log, |ErrorPrefix|)) else None
  }

  /** `{errorLog && (…)}`: the error block and its Fix with AI button are rendered only
      when the text passed as `errorLog` is non-empty. */
  function ErrorBlockShown(log: string): (shown: bool)
    ensures shown <==> StartsWith(log, ErrorMark) && |log| > |ErrorPrefix|
  {
    match ShownError(log)
    case None => false
    case Some(e) => e != ""
  }

  /** A failed compile shows its error block exactly when its message is non-empty, so a
      refused reply with an empty body shows neither the block nor the Fix button,
      although the placeholder reports failure. */
  lemma ErrorBlockNeedsMessage(message: string)
    ensures ErrorBlockShown(ErrorLog(message)) <==> message != ""
    ensures !ErrorBlockShown(CompileLog(Refused("", NotJson)))
    ensures StatusOf(false, CompileLog(Refused("", NotJson))) == Failed
  {
    assert |ErrorLog(message)| == |ErrorPrefix| + |message|;
  }

  /** A failed compile's message is what the placeholder shows, character for character. */
  lemma ShownErrorRoundTrip(message: string)
    ensures ShownError(ErrorLog(message)) == Some(message)
    ensures StatusOf(false, ErrorLog(message)) == Failed
  {
  }

  /** After a successful compile the placeholder shows no error and is idle. */
  lemma SuccessShowsNoError()
    ensures ShownError(SuccessLog) == None && StatusOf(false, SuccessLog) == Idle
  {
    assert SuccessLog[0] != ErrorMark[0];
  }

  // ---------------------------------------------------------------------------------
  // Page navigation
  // ---------------------------------------------------------------------------------

  /** The Previous button is enabled only above the first page. */
  predicate PrevEnabled(pageNumber: int) {
    pageNumber > 1
  }

  /** The Next button is enabled only when the page count is known, non-zero, and above
      the current page. */
  predicate NextEnabled(pageNumber: int, numPages: Option<int>) {
    numPages.Some? && numPages.value != 0 && pageNumber < numPages.value
  }

  /** `Math.max(p - 1, 1)`. */
  function PrevPageNumber(p: int): (r: int)
    ensures r >= 1
    ensures p > 1 ==> r == p - 1
    ensures p <= 1 ==> r == 1
  {
    if p - 1 > 1 then p - 1 else 1
  }

  /** `Math.min(p + 1, numPages)`, where a `null` page count counts as `0`. */
  function NextPageNumber(p: int, numPages: Option<int>): (r: int)
    ensures NextEnabled(p, numPages) ==> r == p + 1 && r <= numPages.value
    ensures numPages.Some? && p >= numPages.value ==> r == numPages.value
    ensures numPages.None? ==> r <= 0
  {
    var bound := if numPages.Some? then numPages.value else 0;
    if p + 1 < bound then p + 1 else bound
  }

  /** The current page lies within the document, once its page count is known. */
  predicate PageInRange(pageNumber: int, numPages: Option<int>) {
    1 <= pageNumber && (numPages.Some? && numPages.value >= 1 ==> pageNumber <= numPages.value)
  }

  /** An enabled button never leaves the document's pages. */
  lemma NavigationStaysInRange(p: int, numPages: Option<int>)
    requires PageInRange(p, numPages)
    ensures PrevEnabled(p) ==> PageInRange(PrevPageNumber(p), numPages)
    ensures NextEnabled(p, numPages) ==> PageInRange(NextPageNumber(p, numPages), numPages)
  {
  }

  // ---------------------------------------------------------------------------------
  // The page's state
  // ---------------------------------------------------------------------------------

  const FixAsked: string := "Asking AI to fix compilation errors..."
  const FixNote: string := "\n\n% Attempting to fix compilation errors with AI..."
  const FixReceiving: string := "Receiving corrected code from AI..."
  const FixDone: string := "AI fix complete. Re-compiling..."
  const FixFailedPrefix: string := "Error during AI fix: "
  const FixStatusWords: string := "AI fix failed. Status: "

  const GenerateStarted: string := "Initializing AI document generation..."
  const GeneratePlaceholder: string := "% Generating LaTeX code from your content...\n% Please wait."
  const GenerateStreaming: string := "Receiving LaTeX code from AI..."
  const GenerateWhole: string := "Receiving LaTeX code (non-stream)..."
  const GenerateDone: string := "AI generation complete. Starting compilation..."
  const GenerateFailedCode: string := "% An error occurred during LaTeX generation."
  const GenerateStatusWords: string := "Failed to generate LaTeX. Status: "

  /** The editor's text after the compile action's write-back: the sanitised code when
      it differs from the compiled code, the text as it was otherwise. */
  function WrittenBack(editor: string, code: string, safe: string): string {
    if safe != code then safe else editor
  }

  class DocumentGenerator {
    var latexCode: string
    var isGenerating: bool
    var isFixing: bool
    var generationStatus: string
    var isCompiling: bool
    var compilationLog: string
    var pdfUrl: Option<string>
    var numPages: Option<int>
    var pageNumber: int
    var compiler: string

    /** `sanitizeLatex`, which every action applies to the code before it compiles or
        shows it; the constructor fixes it to the page's sanitiser. */
    const sanitize: (string, string) -> string

    /** The page as it mounts. */
    constructor ()
      ensures latexCode == "" && generationStatus == "" && compiler == "pdflatex"
      ensures !isGenerating && !isFixing && !isCompiling
      ensures compilationLog == "Ready to compile." && pdfUrl == None
      ensures numPages == None && pageNumber == 1
      ensures forall code, engine :: sanitize(code, engine) == Sanitize.SanitizeLatex(Some(code), Some(engine))
      ensures Valid()
    {
      sanitize := (code: string, engine: string) => Sanitize.SanitizeLatex(Some(code), Some(engine));
      latexCode := "";
      isGenerating := false;
      isFixing := false;
      generationStatus := "";
      isCompiling := false;
      compilationLog := "Ready to compile.";
      pdfUrl := None;
      numPages := None;
      pageNumber := 1;
      compiler := "pdflatex";
      new;
      forall code, engine ensures sanitize(code, engine) != "" {
        Sanitize.SanitizedHasDocumentClass(Some(code), Some(engine));
      }
    }

    /** The sanitiser never returns an empty text, so what the AI actions compile always
        passes the compile action's emptiness check. */
    ghost predicate Valid() {
      forall code, engine :: sanitize(code, engine) != ""
    }

    predicate Idle()
      reads this
    {
      !isCompiling && !isFixing && !isGenerating
    }

    predicate InRange()
      reads this
    {
      PageInRange(pageNumber, numPages)
    }

    /** `handleCompile(code)`: nothing happens for empty code or while a compile runs;
        otherwise the sanitised code is posted to the route with the chosen engine, the
        viewer is reset, and the log ends as the success text (with the PDF shown) or
        `Error: ` and the failure's message. */
    method HandleCompile(code: string, reply: CompileReply) returns (sent: Option<CompileApi.Request>)
      requires Valid()
      modifies this
      ensures sent.Some? <==> code != "" && !old(isCompiling)
      ensures sent.Some? ==>
        sent.value == CompileApi.Request("POST",
          CompileApi.Body(Some(sanitize(code, old(compiler))), Some(old(compiler)))) &&
        CompileApi.Forwarded(sent.value)
      ensures code == "" || old(isCompiling) ==> unchanged(this)
      ensures code != "" && !old(isCompiling) ==>
        !isCompiling &&
        compilationLog == CompileLog(reply) &&
        pdfUrl == (if reply.Delivered? then Some(reply.url) else None) &&
        pageNumber == 1 && numPages == None &&
        latexCode == WrittenBack(old(latexCode), code, sanitize(code, old(compiler)))
      ensures code != "" && !old(isCompiling) ==> (pdfUrl.Some? <==> compilationLog == SuccessLog)
      ensures isFixing == old(isFixing) && isGenerating == old(isGenerating)
      ensures generationStatus == old(generationStatus) && compiler == old(compiler)
      ensures old(InRange()) ==> InRange()
    {
      if code == "" || isCompiling {
        return None;
      }
      isCompiling := true;
      compilationLog := CompilingLog;
      pdfUrl := None;
      pageNumber := 1;
      numPages := None;
      var safeCode := sanitize(code, compiler);
      if safeCode != code {
        latexCode := safeCode;
      }
      sent := Some(CompileApi.Request("POST", CompileApi.Body(Some(safeCode), Some(compiler))));
      match reply {
        case Delivered(url) =>
          pdfUrl := Some(url);
          compilationLog := SuccessLog;
        case Refused(errorText, body) =>
          compilationLog := ErrorLog(FailureMessage(errorText, body));
        case Unreachable(message) =>
          compilationLog := ErrorLog(message);
      }
      isCompiling := false;
    }

    /** `handleFixWithAI()`: only with an error in the log and no fix under way. It sends
        the code and the log without its prefix, marks the code with a note, and on a
        delivered reply sanitises the received text, shows it and compiles it. */
    method HandleFixWithAI(reply: AiReply, compileReply: CompileReply)
        returns (request: Option<FixRequest>)
      requires Valid()
      modifies this
      ensures !StartsWith(old(compilationLog), ErrorMark) || old(isFixing) ==>
        unchanged(this) && request == None
      ensures StartsWith(old(compilationLog), ErrorMark) && !old(isFixing) ==>
        request == Some(FixRequest(old(latexCode), DropPrefix(old(compilationLog), |ErrorPrefix|))) &&
        request.value.errorLog == ShownError(old(compilationLog)).value &&
        !isFixing && isGenerating == old(isGenerating) && compiler == old(compiler)
      ensures (StartsWith(old(compilationLog), ErrorMark) && !old(isFixing) &&
        (reply.AiUnreachable? || reply.AiRefused?)) ==>
        generationStatus == FixFailedPrefix + AiFailure(reply, FixStatusWords) &&
        latexCode == old(latexCode) + FixNote &&
        compilationLog == old(compilationLog) && isCompiling == old(isCompiling) &&
        pdfUrl == old(pdfUrl) && numPages == old(numPages) && pageNumber == old(pageNumber)
      ensures (StartsWith(old(compilationLog), ErrorMark) && !old(isFixing) && !old(isCompiling) &&
        (reply.AiStreamed? || reply.AiText?)) ==>
        var cleaned := sanitize(Received(reply), old(compiler));
        generationStatus == FixDone &&
        latexCode == sanitize(cleaned, old(compiler)) &&
        !isCompiling && compilationLog == CompileLog(compileReply) &&
        pdfUrl == (if compileReply.Delivered? then Some(compileReply.url) else None) &&
        pageNumber == 1 && numPages == None
      ensures (StartsWith(old(compilationLog), ErrorMark) && !old(isFixing) && old(isCompiling) &&
        (reply.AiStreamed? || reply.AiText?)) ==>
        generationStatus == FixDone &&
        latexCode == sanitize(Received(reply), old(compiler)) &&
        isCompiling && compilationLog == old(compilationLog) && pdfUrl == old(pdfUrl) &&
        pageNumber == old(pageNumber) && numPages == old(numPages)
      ensures old(InRange()) ==> InRange()
    {
      if !StartsWith(compilationLog, ErrorMark) || isFixing {
        return None;
      }
      isFixing := true;
      generationStatus := FixAsked;
      request := Some(FixRequest(latexCode, DropPrefix(compilationLog, |ErrorPrefix|)));
      latexCode := latexCode + FixNote;
      match reply {
        case AiUnreachable(_) =>
          generationStatus := FixFailedPrefix + AiFailure(reply, FixStatusWords);
        case AiRefused(_, _) =>
          generationStatus := FixFailedPrefix + AiFailure(reply, FixStatusWords);
        case AiStreamed(chunks) =>
          generationStatus := FixReceiving;
          var fixedCode := ReadStream(chunks);
          Recompile(fixedCode, FixDone, compileReply);
        case AiText(text) =>
          generationStatus := FixReceiving;
          Recompile(text, FixDone, compileReply);
      }
      isFixing := false;
    }

    /** `generateFromContent(content)`: the editor shows a placeholder while the AI
        writes; a delivered text is sanitised, shown and compiled, and a failure leaves
        an error comment in the editor. The content itself only travels in the request. */
    method GenerateFromContent(reply: AiReply, compileReply: CompileReply)
      requires Valid()
      modifies this
      ensures !isGenerating && isFixing == old(isFixing) && compiler == old(compiler)
      ensures reply.AiUnreachable? || reply.AiRefused? ==>
        generationStatus == ErrorPrefix + AiFailure(reply, GenerateStatusWords) &&
        latexCode == GenerateFailedCode &&
        compilationLog == old(compilationLog) && isCompiling == old(isCompiling) &&
        pdfUrl == old(pdfUrl) && numPages == old(numPages) && pageNumber == old(pageNumber)
      ensures (reply.AiStreamed? || reply.AiText?) && !old(isCompiling) ==>
        var cleaned := sanitize(Received(reply), old(compiler));
        generationStatus == GenerateDone &&
        latexCode == sanitize(cleaned, old(compiler)) &&
        !isCompiling && compilationLog == CompileLog(compileReply) &&
        pdfUrl == (if compileReply.Delivered? then Some(compileReply.url) else None) &&
        pageNumber == 1 && numPages == None
      ensures (reply.AiStreamed? || reply.AiText?) && old(isCompiling) ==>
        generationStatus == GenerateDone &&
        latexCode == sanitize(Received(reply), old(compiler)) &&
        isCompiling && compilationLog == old(compilationLog) && pdfUrl == old(pdfUrl) &&
        pageNumber == old(pageNumber) && numPages == old(numPages)
      ensures old(InRange()) ==> InRange()
    {
      isGenerating := true;
      generationStatus := GenerateStarted;
      latexCode := GeneratePlaceholder;
      match reply {
        case AiUnreachable(_) =>
          generationStatus := ErrorPrefix + AiFailure(reply, GenerateStatusWords);
          latexCode := GenerateFailedCode;
        case AiRefused(_, _) =>
          generationStatus := ErrorPrefix + AiFailure(reply, GenerateStatusWords);
          latexCode := GenerateFailedCode;
        case AiStreamed(chunks) =>
          generationStatus := GenerateStreaming;
          var finalCode := ReadStream(chunks);
          Recompile(finalCode, GenerateDone, compileReply);
        case AiText(text) =>
          generationStatus := GenerateWhole;
          Recompile(text, GenerateDone, compileReply);
      }
      isGenerating := false;
    }

    /** The tail both AI actions share: sanitise the received text, show it with the
        given status, and compile it. */
    method Recompile(received: string, status: string, compileReply: CompileReply)
      requires Valid()
      modifies this
      ensures var cleaned := sanitize(received, old(compiler));
        generationStatus == status &&
        (!old(isCompiling) ==>
          latexCode == sanitize(cleaned, old(compiler)) &&
          !isCompiling && compilationLog == CompileLog(compileReply) &&
          pdfUrl == (if compileReply.Delivered? then Some(compileReply.url) else None) &&
          pageNumber == 1 && numPages == None)
      ensures old(isCompiling) ==>
        latexCode == sanitize(received, old(compiler)) &&
        isCompiling && compilationLog == old(compilationLog) && pdfUrl == old(pdfUrl) &&
        pageNumber == old(pageNumber) && numPages == old(numPages)
      ensures isFixing == old(isFixing) && isGenerating == old(isGenerating)
      ensures compiler == old(compiler)
      ensures old(InRange()) ==> InRange()
    {
      var cleaned := sanitize(received, compiler);
      latexCode := cleaned;
      generationStatus := status;
      var _ := HandleCompile(cleaned, compileReply);
    }

    /** The Previous Page button: a click while it is disabled does nothing. */
    method PrevPage()
      modifies this
      ensures pageNumber == (if PrevEnabled(old(pageNumber)) then PrevPageNumber(old(pageNumber))
                             else old(pageNumber))
      ensures latexCode == old(latexCode) && numPages == old(numPages) && pdfUrl == old(pdfUrl)
      ensures compilationLog == old(compilationLog) && generationStatus == old(generationStatus)
      ensures isCompiling == old(isCompiling) && isFixing == old(isFixing)
      ensures isGenerating == old(isGenerating) && compiler == old(compiler)
      ensures old(InRange()) ==> InRange()
    {
      if PrevEnabled(pageNumber) {
        if InRange() {
          NavigationStaysInRange(pageNumber, numPages);
        }
        pageNumber := PrevPageNumber(pageNumber);
      }
    }

    /** The Next Page button: a click while it is disabled does nothing. */
    method NextPage()
      modifies this
      ensures pageNumber == (if NextEnabled(old(pageNumber), old(numPages))
                             then NextPageNumber(old(pageNumber), old(numPages))
                             else old(pageNumber))
      ensures latexCode == old(latexCode) && numPages == old(numPages) && pdfUrl == old(pdfUrl)
      ensures compilationLog == old(compilationLog) && generationStatus == old(generationStatus)
      ensures isCompiling == old(isCompiling) && isFixing == old(isFixing)
      ensures isGenerating == old(isGenerating) && compiler == old(compiler)
      ensures old(InRange()) ==> InRange()
    {
      if NextEnabled(pageNumber, numPages) {
        if InRange() {
          NavigationStaysInRange(pageNumber, numPages);
        }
        pageNumber := NextPageNumber(pageNumber, numPages);
      }
    }

    /** `onDocumentLoadSuccess`: the viewer reports the page count; the current page is
        left as it is, and stays in range when the count covers it. */
    method OnDocumentLoadSuccess(n: int)
      modifies this
      ensures numPages == Some(n) && pageNumber == old(pageNumber)
      ensures latexCode == old(latexCode) && pdfUrl == old(pdfUrl)
      ensures compilationLog == old(compilationLog) && generationStatus == old(generationStatus)
      ensures isCompiling == old(isCompiling) && isFixing == old(isFixing)
      ensures isGenerating == old(isGenerating) && compiler == old(compiler)
      ensures old(pageNumber) >= 1 && (n < 1 || old(pageNumber) <= n) ==> InRange()
    {
      numPages := Some(n);
    }

    /** `setCompiler`: the engine chosen in the selector. */
    method SetCompiler(engine: string)
      modifies this
      ensures compiler == engine && latexCode == old(latexCode) && numPages == old(numPages)
      ensures pageNumber == old(pageNumber) && pdfUrl == old(pdfUrl)
      ensures compilationLog == old(compilationLog) && generationStatus == old(generationStatus)
      ensures isCompiling == old(isCompiling) && isFixing == old(isFixing)
      ensures isGenerating == old(isGenerating)
    {
      compiler := engine;
    }
  }

  /** From an idle page, each action leaves the page idle again: no busy flag is left
      set, whatever the network answers. */
  method ActionsReleaseBusyFlags(page: DocumentGenerator, code: string, reply: AiReply,
                                 compileReply: CompileReply)
    requires page.Valid() && page.Idle()
    modifies page
    ensures page.Idle()
  {
    var _ := page.HandleCompile(code, compileReply);
    assert page.Idle();
    var _ := page.HandleFixWithAI(reply, compileReply);
    assert page.Idle();
    page.GenerateFromContent(reply, compileReply);
  }
}
