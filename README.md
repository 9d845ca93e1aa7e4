# Wordara document editor: sanitiser, live preview and compile route

This project models in Dafny the core of the LaTeX document editor in the Wordara web
application. The page holds LaTeX text, often produced by an AI service. It:

- cleans the text with `sanitizeLatex`;
- renders an instant approximate preview of it (`latexToHast` inside `LivePreview`);
- sends it to the `/api/compile-latex` route, which forwards it to the latexonline.cc
  service and turns the service's reply into a PDF or a JSON error;
- can ask an AI route to fix a failed compile, or to generate LaTeX from prose, and then
  recompiles.

The modules follow the program:

- `Text` (`text.dfy`): the JavaScript string primitives the code relies on. These are the
  `\s` and `trim()` whitespace set, ASCII case folding, `startsWith`, `substring` with
  clamping, and decimal rendering of a status code.
- `Wrappers` (`wrappers.dfy`): `Option` and `Result`.
- `Sanitize` (`sanitize.dfy`): `sanitizeLatex` as a composition of pure functions, one per
  rewrite. The six cleanup regular expressions are sequences of `Piece`s run by a small
  matcher. Each pattern has at most one way to match at a position, so the greedy matcher
  finds the match JavaScript's engine finds.
- `Cleanup` (`cleanup.dfy`): proofs that the cleanup's global replacements remove their
  targets for good. No `\input`/`\include` and no stale package line survives the later
  replacements and the trim.
- `Preview` (`preview.dfy`):
  - the parsed LaTeX tree and the HTML tree as datatypes;
  - the visitor's `enter`/`leave` callbacks and the walk as functions;
  - the builder's `environmentStack` and `titleData` as a `HastBuilder` class whose
    methods are proved against those functions;
  - `LivePreview` as a method that never raises.
- `CompileApi` (`compile_api.dfy`): the route handler, a pure decision over the request
  and the service's reply.
- `Editor` (`editor.dfy`):
  - the page's state as a `DocumentGenerator` class, with methods for compiling,
    fixing with AI, generating from content, page navigation, the page-count callback
    and the engine selector;
  - the stream-reading loop as a method;
  - the status and error text the preview placeholder derives from the log.

Every network exchange is an input. The service's reply, the route's answer and the AI
route's reply (a failure, a refusal, a chunk stream or a whole text) are parameters of the
operation that uses them.

## Model

| member | source | states |
|---|---|---|
| Sanitize.AbsentIsEmpty | wordaraaii/src/pages/document-generator.js:19 | an absent text is sanitised exactly as the empty text |
| Sanitize.OrEmpty | wordaraaii/src/pages/document-generator.js:19 | `raw || ''`; `AbsentIsEmpty` states that an absent text is treated as the empty one |
| Sanitize.StripBom | wordaraaii/src/pages/document-generator.js:21 | one leading byte-order mark is removed and nothing else changes; without one the text is unchanged |
| Sanitize.PairedThenRemovedHasNoFence | wordaraaii/src/pages/document-generator.js:23-25 | after fence pairing and stray-fence removal, no three backticks in a row remain, for every input |
| Sanitize.RemoveFencesLeavesNoFence | wordaraaii/src/pages/document-generator.js:25 | removing every triple of backticks met left to right leaves no triple, even where the input had longer runs |
| Sanitize.PairFences | wordaraaii/src/pages/document-generator.js:23 | each pair of triple backticks frames a block whose fences are dropped; an unclosed triple is kept. `PairFencesKeepsText`, `PairFencesKeepsBlock`, `PairFencesKeepsUnclosed`, `PairedThenRemovedHasNoFence` and `CleanedKeepsOut` state its contract |
| Sanitize.RemoveFences | wordaraaii/src/pages/document-generator.js:25 | every triple of backticks met left to right is deleted and nothing else changes; `RemoveFencesLeavesNoFence`, `RemoveFencesKeepsText` and `RemoveFencesKeepsPlain` state its contract |
| Sanitize.RemoveFencesKeepsText | wordaraaii/src/pages/document-generator.js:25 | the global fence removal deletes backticks only: with backticks dropped, the output equals the input, so every other character survives in order |
| Sanitize.RemoveFencesKeepsPlain | wordaraaii/src/pages/document-generator.js:25 | a stretch without backticks comes out exactly as it went in |
| Sanitize.PairFencesKeepsText | wordaraaii/src/pages/document-generator.js:23 | fence pairing deletes backticks only: with backticks dropped, the output equals the input |
| Sanitize.PairFencesKeepsBlock | wordaraaii/src/pages/document-generator.js:23 | `pre` + fence + `body` + fence + `rest`, with no other backtick, becomes `pre` + `body` + `rest`: the fences go and the framed body and the text around it are kept verbatim |
| Sanitize.PairFencesKeepsUnclosed | wordaraaii/src/pages/document-generator.js:23 | an opening triple with no closing triple after it is left in place, with the text around it unchanged |
| Sanitize.FenceStepsKeepText | wordaraaii/src/pages/document-generator.js:23-25 | the two fence steps together delete backticks only; every other character of the input survives, in order |
| Sanitize.FenceStepsKeepPlain | wordaraaii/src/pages/document-generator.js:23-25 | a text without backticks passes both fence steps unchanged |
| Sanitize.StripTag | wordaraaii/src/pages/document-generator.js:27 | the result is a suffix of the input; whatever was cut is a `latex`/`tex` tag line (whitespace, the tag in any case, whitespace ending in a newline), and the whitespace that opens what remains holds no newline, because the greedy `\s*` took every whitespace line |
| Sanitize.StripTagRemovesTagLine | wordaraaii/src/pages/document-generator.js:27 | a text that opens with a tag line loses it: the result is a suffix of the text after the tag line, and only whitespace lies between the two |
| Sanitize.TagLineEnd | wordaraaii/src/pages/document-generator.js:27 | where the anchored tag-line pattern stops, or none; `TagLineFacts` and `TagLineReachesRest` state its contract |
| Sanitize.TagLineFacts | wordaraaii/src/pages/document-generator.js:27 | what the pattern takes is a tag line, and the whitespace left after it holds no newline |
| Sanitize.TagLineReachesRest | wordaraaii/src/pages/document-generator.js:27 | on a tag line followed by more text, the match covers the whole tag line, and what it takes beyond it is whitespace |
| Sanitize.ReplaceWithoutMatch | wordaraaii/src/pages/document-generator.js:29-41 | a global replacement changes nothing when its pattern matches nowhere |
| Sanitize.ReplaceKeepsOut | wordaraaii/src/pages/document-generator.js:29-41 | a global replacement introduces no character that is in neither the input nor the replacement comment |
| Sanitize.MatchAt | wordaraaii/src/pages/document-generator.js:29-41 | a sticky match of one cleanup pattern at an index: the end of the match or none. `InclusionMatchesAt`, `InclusionNeedsName` and `InclusionNeedsBrace` state what it does for the inclusion pattern |
| Sanitize.ReplaceAll | wordaraaii/src/pages/document-generator.js:29-41 | the global `replace`: the leftmost match is replaced, the scan resumes after it, other characters are copied. `ReplaceWithoutMatch`, `ReplaceKeepsOut`, `CopiesBackslashFree`, `InclusionReplaced` and `Cleanup.ReplaceLeavesNoMatch` state its contract |
| Sanitize.CopiesBackslashFree | wordaraaii/src/pages/document-generator.js:29-41 | a pattern that begins with a backslash copies a stretch without backslashes unchanged |
| Sanitize.InclusionMatchesAt | wordaraaii/src/pages/document-generator.js:32 | wherever the text holds a backslash, `input` or `include` in any letter case, any whitespace, and a non-empty file name without `}` in braces, the pattern matches, and the match ends just after the closing brace |
| Sanitize.InclusionNeedsName | wordaraaii/src/pages/document-generator.js:32 | the pattern does not match empty braces after either command |
| Sanitize.InclusionNeedsBrace | wordaraaii/src/pages/document-generator.js:32 | after the command and its whitespace, anything but `{` means no match, so `\inputenc` and `\includegraphics` are not taken |
| Sanitize.InclusionReplaced | wordaraaii/src/pages/document-generator.js:32 | a text that opens with such an inclusion and has no later backslash becomes the replacement comment followed by the rest of the text unchanged |
| Sanitize.DirectivesUntouchedWithoutMatch | wordaraaii/src/pages/document-generator.js:29-32 | a text without a remote image or an `\input`/`\include` passes the directive cleanup unchanged |
| Sanitize.NeutralizeDirectives | wordaraaii/src/pages/document-generator.js:29-32 | the three directive patterns applied in the source's order; `Cleanup.PlainRemoteImagesRemoved` (no option-less remote image survives), `InclusionsRemoved`, `DirectivesUntouchedWithoutMatch` and `LocalImageNotMatched` state what it does |
| Sanitize.LocalImageNotMatched | wordaraaii/src/pages/document-generator.js:29-32 | at the position of a local image (`\includegraphics{` followed by anything other than `h`), neither remote-image pattern and not the inclusion pattern starts a match. A match that starts earlier can still take the image with it, as in `\input{\includegraphics{a.png}}` (see Left out) |
| Sanitize.CommentsAreInert | wordaraaii/src/pages/document-generator.js:29-41 | every replacement comment is non-empty and holds no backtick and no backslash |
| Sanitize.EngineDefaultsToPdflatex | wordaraaii/src/pages/document-generator.js:34 | an absent or empty engine is `pdflatex`, which is not a native-font engine |
| Sanitize.EngineNameIgnoresCase | wordaraaii/src/pages/document-generator.js:34 | an engine name and its lower-cased form select the same cleanup and envelope |
| Sanitize.EngineName | wordaraaii/src/pages/document-generator.js:34 | `(engine || 'pdflatex').toLowerCase()`; `EngineDefaultsToPdflatex` and `EngineNameIgnoresCase` state its contract |
| Sanitize.NativeFonts | wordaraaii/src/pages/document-generator.js:35 | the engine uses native fonts exactly when it is `xelatex` or `lualatex`; `EngineDefaultsToPdflatex`, `EngineNameIgnoresCase`, `EnvelopeMatchesEngine` and `Cleanup.NativeRemovesInputenc` state what follows from it |
| Sanitize.ReconcilePackages | wordaraaii/src/pages/document-generator.js:35-42 | inputenc removal under XeLaTeX and LuaLaTeX, fontspec and `\setmainfont` removal otherwise; the lemmas on the next rows and the `Cleanup` lemmas state what it removes and what it keeps |
| Sanitize.NativeCleansOnlyInputenc | wordaraaii/src/pages/document-generator.js:35-38 | under XeLaTeX or LuaLaTeX nothing but `inputenc` lines is touched: a text without one is unchanged, `fontspec` and `\setmainfont` included. That every `inputenc` line goes is `Cleanup.NativeRemovesInputenc` |
| Sanitize.OtherCleansOnlyFontspec | wordaraaii/src/pages/document-generator.js:39-42 | under any other engine nothing but `fontspec` and `\setmainfont` lines is touched: a text without them is unchanged, `inputenc` included. That every such line goes is `Cleanup.OtherRemovesFontspec` |
| Sanitize.CleanedKeepsOut | wordaraaii/src/pages/document-generator.js:19-43 | a character absent from the input and from every replacement comment is absent from the cleaned text |
| Sanitize.CleanedHasNoFence | wordaraaii/src/pages/document-generator.js:21-43 | the cleaned text never contains three backticks in a row |
| Sanitize.Cleaned | wordaraaii/src/pages/document-generator.js:19-43 | every step before the envelope, in the source's order; `CleanedKeepsOut`, `CleanedHasNoFence` and the `Cleanup.Cleaned…` lemmas state what it guarantees |
| Sanitize.UnwrappedIsTrimmed | wordaraaii/src/pages/document-generator.js:43-82 | when the trimmed text contains `\documentclass`, it is returned as it is, with no whitespace at either end |
| Sanitize.WrapsIffMissing | wordaraaii/src/pages/document-generator.js:45-81 | for the corrected and the as-written envelope alike, wrapping changes the text if and only if it lacks `\documentclass`; a wrapped result is the envelope, then the text verbatim, then the `\end{document}` tail |
| Sanitize.Wrap | wordaraaii/src/pages/document-generator.js:44-81 | the envelope step with single backslashes; `WrapsIffMissing`, `WrapHasDocumentClass` and `WrapOpensDocument` state its contract |
| Sanitize.WrapAsWritten | wordaraaii/src/pages/document-generator.js:44-81 | the envelope step as written, with doubled backslashes; `WrapsIffMissing`, `WrapHasDocumentClass` and `AsWrittenWrapOpensWithLineBreak` state its contract |
| Sanitize.WrapHasDocumentClass | wordaraaii/src/pages/document-generator.js:44-81 | for both envelopes, a wrapped or unwrapped result always contains `\documentclass` |
| Sanitize.EnvelopeMatchesEngine | wordaraaii/src/pages/document-generator.js:46-66 | the envelope's second line loads `fontspec` for a native-font engine and `inputenc` otherwise, the package that engine's cleanup keeps |
| Sanitize.Envelope | wordaraaii/src/pages/document-generator.js:46-79 | the preamble a text without `\documentclass` is framed by, with the single backslashes LaTeX needs; `EnvelopeOpensDocument`, `EnvelopeMatchesEngine` and `EnvelopeHasNoBacktick` state its contract |
| Sanitize.EnvelopeOpensDocument | wordaraaii/src/pages/document-generator.js:47 | the envelope begins with `\documentclass{article}` |
| Sanitize.EnvelopeHasNoBacktick | wordaraaii/src/pages/document-generator.js:46-79 | neither the envelope nor the closing `\end{document}` holds a backtick, so the wrap cannot bring a fence back |
| Sanitize.EnvelopeAsWritten | wordaraaii/src/pages/document-generator.js:46-79 | the preamble exactly as the `String.raw` templates write it, every `\\` kept as two backslashes; `EnvelopeAsWrittenHasDocumentClass` and `AsWrittenWrapOpensWithLineBreak` state what that gives |
| Sanitize.EnvelopeAsWrittenHasDocumentClass | wordaraaii/src/pages/document-generator.js:47 | in the preamble as written, `\documentclass` stands at index 1, after a stray backslash |
| Sanitize.SanitizedHasDocumentClass | wordaraaii/src/pages/document-generator.js:18-83 | the sanitiser's result always contains `\documentclass`, with the corrected and with the as-written envelope |
| Sanitize.SanitizedHasNoFence | wordaraaii/src/pages/document-generator.js:18-83 | the sanitiser's result never contains three backticks in a row, with the corrected and with the as-written envelope |
| Sanitize.NoBackslashIsWrapped | wordaraaii/src/pages/document-generator.js:45-81 | a text without a backslash is always wrapped, with either envelope: the result is the envelope, the cleaned text and the tail |
| Sanitize.WrapOpensDocument | wordaraaii/src/pages/document-generator.js:47-79 | with single backslashes, a wrapped result begins with the command `\documentclass{article}` and a newline |
| Sanitize.AsWrittenWrapOpensWithLineBreak | wordaraaii/src/pages/document-generator.js:47-79 | as written, a wrapped result begins with two backslashes (`\\documentclass{article}`), so it does not begin with the `\documentclass` command |
| Sanitize.AsWrittenBreaksPlainProse | wordaraaii/src/pages/document-generator.js:18-83 | as written, sanitising `Hello world` with the default engine yields a text beginning with `\\documentclass{article}` |
| Sanitize.SanitizedPlainProseOpensDocument | wordaraaii/src/pages/document-generator.js:18-83 | with the corrected envelope, sanitising `Hello world` yields a text beginning with `\documentclass{article}` |
| Sanitize.SanitizeLatex | wordaraaii/src/pages/document-generator.js:18-83 | `sanitizeLatex` with the corrected envelope: the cleaned text, wrapped; `SanitizedHasDocumentClass`, `SanitizedHasNoFence`, `NoBackslashIsWrapped` and `Editor.PageRequestIsForwarded` state its contract |
| Sanitize.SanitizeLatexAsWritten | wordaraaii/src/pages/document-generator.js:18-83 | `sanitizeLatex` as written; the same lemmas cover it, and `AsWrittenBreaksPlainProse` exhibits its defect |
| Cleanup.ReplaceLeavesNoMatch | wordaraaii/src/pages/document-generator.js:29-43 | a global replacement that cannot create a match where the original text had none leaves no match of a pattern behind |
| Cleanup.ShapeAfterReplace | wordaraaii/src/pages/document-generator.js:29-43 | replacing the matches of a pattern that ends at a closing brace by a comment leaves no match of a backslash-led pattern: neither its own matches nor any it did not have before |
| Cleanup.TrimKeepsNoMatch | wordaraaii/src/pages/document-generator.js:43 | trimming a text without a match of a pattern leaves none |
| Cleanup.PlainRemoteImagesRemoved | wordaraaii/src/pages/document-generator.js:29-32 | no option-less remote image `\includegraphics{http(s):…}` survives the directive cleanup, whatever the input: line 30 leaves none of its own, and line 32 creates none |
| Cleanup.PackagesKeepRemoteImagesOut | wordaraaii/src/pages/document-generator.js:35-42 | the package cleanup brings no option-less remote image back, under either engine |
| Cleanup.InclusionsRemoved | wordaraaii/src/pages/document-generator.js:29-32 | no `\input{…}` or `\include{…}` survives the directive cleanup, whatever the input |
| Cleanup.PackagesKeepInclusionsOut | wordaraaii/src/pages/document-generator.js:35-42 | the package cleanup brings no `\input{…}` or `\include{…}` back, under either engine |
| Cleanup.OtherRemovesFontspec | wordaraaii/src/pages/document-generator.js:39-42 | under an engine without native fonts, no `\usepackage{fontspec}` and no `\setmainfont{…}` survives the package cleanup |
| Cleanup.NativeRemovesInputenc | wordaraaii/src/pages/document-generator.js:35-38 | under XeLaTeX or LuaLaTeX, no `\usepackage[…]{inputenc}` survives the package cleanup, with or without options |
| Cleanup.InputencAfterOwnReplace | wordaraaii/src/pages/document-generator.js:37 | replacing every inputenc line by a comment without `]` leaves none, even where a match's options run into a later line |
| Cleanup.CleanedHasNoPlainRemoteImage | wordaraaii/src/pages/document-generator.js:19-43 | the cleaned text, before any envelope, holds no option-less remote image `\includegraphics{http(s):…}`; only an image with options can remain |
| Cleanup.CleanedHasNoInclusion | wordaraaii/src/pages/document-generator.js:19-43 | the cleaned text, before any envelope, holds no `\input{…}` or `\include{…}` |
| Cleanup.CleanedHasNoFontspec | wordaraaii/src/pages/document-generator.js:19-43 | under an engine without native fonts, the cleaned text holds no `\usepackage{fontspec}` and no `\setmainfont{…}` |
| Cleanup.CleanedHasNoInputenc | wordaraaii/src/pages/document-generator.js:19-43 | under XeLaTeX or LuaLaTeX, the cleaned text holds no `\usepackage[…]{inputenc}` |
| Text.Trim | wordaraaii/src/pages/document-generator.js:43 | the result is the infix left after removing every leading and trailing whitespace character; it starts and ends with non-whitespace, and is empty exactly when the input is all whitespace |
| Text.TrimIdempotent | wordaraaii/src/components/shared/LivePreview.js:47-48 | trimming a trimmed text changes nothing |
| Text.Prefix | wordaraaii/src/pages/api/compile-latex.js:32 | `substring(0, n)` is the first `n` characters: a prefix of the text of length exactly `n` when the text is longer, the whole text otherwise |
| Text.NatToString | wordaraaii/src/pages/api/compile-latex.js:32 | the status is rendered as a non-empty string of decimal digits with no leading zero except in `0`, denoting exactly that number; `NatToStringIsTheRendering` shows it is the only such string |
| Text.NatToStringIsTheRendering | wordaraaii/src/pages/api/compile-latex.js:32 | any canonical digit string denoting the status is the rendering of that status |
| Text.CanonicalUnique | wordaraaii/src/pages/api/compile-latex.js:32 | two canonical digit strings with the same value are equal |
| Text.DropPrefix | wordaraaii/src/pages/document-generator.js:213 | `substring(k)`: the text is its first `k` characters followed by the result, and the result is empty when the text is shorter than `k`; `DropPrefixConcat`, `StartsWithSplits` and `Editor.ShownErrorRoundTrip` state its contract |
| Text.DropPrefixConcat | wordaraaii/src/pages/document-generator.js:213 | `substring(|p|)` of `p` followed by a text is that text |
| Text.StartsWith | wordaraaii/src/pages/document-generator.js:463 | `startsWith(p)`; `StartsWithSplits` states its contract |
| Text.StartsWithSplits | wordaraaii/src/pages/document-generator.js:463-464 | a text starts with `p` exactly when it is `p` followed by what `substring(|p|)` leaves |
| Text.IsJsSpace | wordaraaii/src/pages/document-generator.js:43 | the whitespace `\s` matches and `trim()` removes; `Trim`, `TrimIdempotent` and `Preview.StringAddsParagraph` state what depends on it |
| Text.LowerString | wordaraaii/src/pages/document-generator.js:34 | `toLowerCase`, as the `/i` flag folds letters: same length, each character folded; `LowerStringIdempotent` and `Sanitize.EngineNameIgnoresCase` state its contract |
| Text.LowerStringIdempotent | wordaraaii/src/pages/document-generator.js:34 | lower-casing a lower-cased text changes nothing |
| Text.Concat | wordaraaii/src/pages/document-generator.js:224-232 | the text accumulated from the chunks in order; `ConcatAppend` and `Editor.ReadStream` state its contract |
| Text.ConcatAppend | wordaraaii/src/pages/document-generator.js:224-232 | accumulating two runs of chunks is accumulating the first, then the second |
| CompileApi.HttpFailureLog | wordaraaii/src/pages/api/compile-latex.js:31-32 | the log contains the status digits and ends with the reply body: the whole body when it has at most 500 characters, exactly its first 500 characters otherwise |
| CompileApi.CompileErrorLog | wordaraaii/src/pages/api/compile-latex.js:44 | the log is the service's log when that is a non-empty string, the fixed default otherwise, and never empty |
| CompileApi.Classify | wordaraaii/src/pages/api/compile-latex.js:28-64 | a PDF is answered if and only if the reply is OK with status `success` and a non-empty result; 400 exactly for a non-OK reply or status `error`; 500 with the error's message for a fetch failure or an unparsable body; 500 for a `null` body, whose property access throws; 500 for any other shape |
| CompileApi.Handle | wordaraaii/src/pages/api/compile-latex.js:3-65 | the service is called if and only if the request is a POST with a non-empty `latex`, with that text and `pdflatex`; non-POST is 405; a missing body is 500; missing or empty `latex` is 400 with "No LaTeX content was provided."; every answer is well formed |
| CompileApi.PdfOnlyOnSuccess | wordaraaii/src/pages/api/compile-latex.js:50-58 | the answer is a PDF if and only if the request was forwarded and the reply carries one; the PDF is the reply's `result`, typed `application/pdf` |
| CompileApi.EngineIgnored | wordaraaii/src/pages/api/compile-latex.js:9-23 | changing the request's engine changes nothing in the call or the answer |
| CompileApi.ReplyUnusedWithoutCall | wordaraaii/src/pages/api/compile-latex.js:4-12 | when the service is not called, the answer does not depend on what the service would have replied |
| CompileApi.Truthy | wordaraaii/src/pages/api/compile-latex.js:10 | an optional text counts as present exactly when it is there and non-empty, as `!latex` tests it; `Handle`, `CompileErrorLog` and `Classify` state what depends on it |
| Editor.ErrorLog | wordaraaii/src/pages/document-generator.js:192 | a failure log starts with `Error:`, is never the success text, and gives back the message after its seven-character prefix |
| Editor.FailureMessage | wordaraaii/src/pages/document-generator.js:175-188 | the thrown message is the JSON `log` when it is a non-empty string, else the stringified JSON, else the raw body text |
| Editor.CompileLog | wordaraaii/src/pages/document-generator.js:166-192 | the final log is the success text if and only if the PDF arrived, and starts with `Error:` otherwise, carrying the failure's message |
| Editor.AiFailure | wordaraaii/src/pages/document-generator.js:217-220 | an AI failure's message is the rejection's message, the refused reply's body when non-empty, or the action's words followed by the status |
| Editor.Received | wordaraaii/src/pages/document-generator.js:224-236 | the text an AI reply delivers: the chunks joined in order for a stream, the whole body otherwise; `ReadStream` states the loop's contract |
| Editor.ReplyFromRoute | wordaraaii/src/pages/document-generator.js:160-171 | the page receives a PDF exactly when the route answered with one |
| Editor.RouteLogReachesPage | wordaraaii/src/pages/document-generator.js:166-192 | for every well-formed route answer, the page's log is the success text exactly for a PDF, and `Error: ` followed by the route's log for an error with a non-empty log |
| Editor.PageRequestIsForwarded | wordaraaii/src/pages/document-generator.js:155-164 | what the page posts is always forwarded by the route, because the sanitised text is never empty |
| Editor.WrittenBack | wordaraaii/src/pages/document-generator.js:156-159 | the editor shows the sanitised code when it differs from the submitted code and keeps its text otherwise; `HandleCompile` states it as its new `latexCode` |
| Editor.ReadStream | wordaraaii/src/pages/document-generator.js:224-232 | the text read is the in-order concatenation of the chunks, and every chunk fits in it |
| Editor.StatusOf | wordaraaii/src/pages/document-generator.js:463 | the placeholder is compiling exactly while a compile runs, failed exactly when the log starts with `Error:`, and idle otherwise |
| Editor.ShownError | wordaraaii/src/pages/document-generator.js:464 | the text passed as `errorLog` is present if and only if the log starts with `Error:`, and it is the log after seven characters |
| Editor.ShownErrorRoundTrip | wordaraaii/src/pages/document-generator.js:464 | a failed compile's message is passed as `errorLog` exactly, and the placeholder reports failure |
| Editor.ErrorBlockShown | wordaraaii/src/pages/document-generator.js:99-100 | the error block and its Fix with AI button are rendered if and only if the log starts with `Error:` and has more than seven characters |
| Editor.ErrorBlockNeedsMessage | wordaraaii/src/pages/document-generator.js:99-100 | a failed compile shows the block exactly when its message is non-empty; a refused reply with an empty body shows no block although the placeholder reports failure |
| Editor.SuccessShowsNoError | wordaraaii/src/pages/document-generator.js:463-464 | after a successful compile no error is shown and the placeholder is idle |
| Editor.PrevPageNumber | wordaraaii/src/pages/document-generator.js:444 | `Math.max(p - 1, 1)`: one page back, never below page 1 |
| Editor.NextPageNumber | wordaraaii/src/pages/document-generator.js:446 | `Math.min(p + 1, numPages)`: one page on while the button is enabled, never past the last page |
| Editor.NavigationStaysInRange | wordaraaii/src/pages/document-generator.js:444-446 | from a page in range, an enabled Previous or Next button yields a page in range |
| Editor.PrevEnabled | wordaraaii/src/pages/document-generator.js:444 | the Previous button is enabled exactly above page 1; `NavigationStaysInRange` and `PrevPage` use it |
| Editor.NextEnabled | wordaraaii/src/pages/document-generator.js:446 | the Next button is enabled exactly when the page count is known, non-zero and above the current page; `NavigationStaysInRange` and `NextPage` use it |
| Editor.DocumentGenerator.constructor | wordaraaii/src/pages/document-generator.js:127-142 | the initial state: empty code, no flag set, log "Ready to compile.", no PDF, no page count, page 1, engine `pdflatex` |
| Editor.DocumentGenerator.HandleCompile | wordaraaii/src/pages/document-generator.js:146-198 | nothing happens, and nothing is sent, for empty code or while a compile runs. Otherwise the sanitised code and the engine are posted, page 1 and no page count are set, the code is written back when sanitising changed it, the compile ends not running, and the log is the success text exactly when a PDF is shown |
| Editor.DocumentGenerator.HandleFixWithAI | wordaraaii/src/pages/document-generator.js:200-248 | runs only with an error log and no fix under way. It sends the code and the displayed error text, and appends the fix note. A failure sets the status to the failure message and leaves the rest as it was. A delivered text is sanitised, shown and recompiled: the PDF link becomes the new PDF's, or none when the recompile fails; when a compile is already running, nothing is recompiled and the PDF link, log and pages stay as they were. The fix ends not running |
| Editor.DocumentGenerator.GenerateFromContent | wordaraaii/src/pages/document-generator.js:286-330 | a failure leaves the error comment in the editor and `Error: ` with the message as status. A delivered text is sanitised, shown and compiled: the PDF link becomes the new PDF's, or none when the compile fails; when a compile is already running, the PDF link, log and pages stay as they were. Generation ends not running |
| Editor.DocumentGenerator.Recompile | wordaraaii/src/pages/document-generator.js:237-240 | the received text is sanitised and shown, then compiled unless a compile is already running |
| Editor.DocumentGenerator.PrevPage | wordaraaii/src/pages/document-generator.js:444 | an enabled click moves one page back; a disabled click changes nothing; the page stays in range |
| Editor.DocumentGenerator.NextPage | wordaraaii/src/pages/document-generator.js:446 | an enabled click moves one page on; a disabled click changes nothing; the page stays in range |
| Editor.DocumentGenerator.OnDocumentLoadSuccess | wordaraaii/src/pages/document-generator.js:375-377 | the page count is recorded and the current page is kept |
| Editor.DocumentGenerator.SetCompiler | wordaraaii/src/pages/document-generator.js:433-437 | the chosen engine is recorded and nothing else changes |
| Editor.ActionsReleaseBusyFlags | wordaraaii/src/pages/document-generator.js:146-330 | from an idle page, compiling, fixing and generating each leave no busy flag set, whatever the network answers |
| Preview.ItemTextMeaning | wordaraaii/src/components/shared/LivePreview.js:47-48 | an item's text is its arguments' text when non-empty, else the text after the macro, trimmed either way, with no whitespace at either end |
| Preview.ItemText | wordaraaii/src/components/shared/LivePreview.js:47 | the text of an `\item`; `ItemTextMeaning` and `ItemAppendsListEntry` state its contract |
| Preview.ContentText | wordaraaii/src/components/shared/LivePreview.js:27 | what one node gives to `c.content` joined: the text of a string, comment or verbatim node, a macro's name, nothing for whitespace; `StringsJoin` and `NodesTextAppend` state its contract |
| Preview.NodesTextAppend | wordaraaii/src/components/shared/LivePreview.js:27 | joining two runs of nodes gives the first run's text, then the second's |
| Preview.StringsJoin | wordaraaii/src/components/shared/LivePreview.js:27 | a run of string nodes gives its strings, concatenated in order |
| Preview.ArgsText | wordaraaii/src/components/shared/LivePreview.js:27 | the text of all the arguments, joined in order; `ArgsTextAppend` and `FirstArgTextOpensArgsText` state its contract |
| Preview.ArgsTextAppend | wordaraaii/src/components/shared/LivePreview.js:27 | the text of two runs of arguments is the first run's, then the second's |
| Preview.FirstArgText | wordaraaii/src/components/shared/LivePreview.js:38-43 | the first argument's text, or `''` without one; `FirstArgTextOpensArgsText` and `HeadingsAndEmphasis` state its contract |
| Preview.FirstArgTextOpensArgsText | wordaraaii/src/components/shared/LivePreview.js:38-43 | the text of all the arguments begins with the first argument's text, and the rest is the text of the other arguments |
| Preview.AppendChild | wordaraaii/src/components/shared/LivePreview.js:19-24 | appending touches only the top container, which gains exactly that child at its end |
| Preview.PopFrame | wordaraaii/src/components/shared/LivePreview.js:71-74 | popping removes the top container and closes it as the last child of the one below |
| Preview.LeaveNode | wordaraaii/src/components/shared/LivePreview.js:71-74 | the `leave` callback: a list environment closes its container, any other node changes nothing; `LeaveKeepsView` states its contract |
| Preview.EnterNode | wordaraaii/src/components/shared/LivePreview.js:23-70 | the only exception is the `TypeError` of an argument-less title macro; a list environment pushes exactly one empty `ul`/`ol`; any other node keeps the depth |
| Preview.WalkNode | wordaraaii/src/components/shared/LivePreview.js:22-76 | a finished walk of a node keeps the depth and the containers below the top, and only appends to the top; a failed one fails with the `TypeError` message |
| Preview.WalkChildren | wordaraaii/src/components/shared/LivePreview.js:22-76 | the children `visit` walks under a node, macro arguments and math content only as the descent allows; a finished walk keeps the depth and only appends, a failed one fails with the `TypeError` message |
| Preview.WalkSeq | wordaraaii/src/components/shared/LivePreview.js:22-76 | siblings walked in order; a finished walk keeps the depth and only appends, a failed one fails with the `TypeError` message |
| Preview.WalkArgs | wordaraaii/src/components/shared/LivePreview.js:22-76 | macro arguments walked in order, each argument's content in order; a finished walk keeps the depth and only appends, a failed one fails with the `TypeError` message |
| Preview.WalkSeqFailureSticks | wordaraaii/src/components/shared/LivePreview.js:22-76 | once the walk of a prefix of siblings raises, the walk of all of them raises the same message |
| Preview.LatexToHast | wordaraaii/src/components/shared/LivePreview.js:16-79 | the only failure is the title macro's `TypeError` |
| Preview.EnterListOpensContainer | wordaraaii/src/components/shared/LivePreview.js:65-69 | entering `itemize`/`enumerate` pushes one empty `ul`/`ol`, which in the tree the root holds is exactly one list appended to the current container |
| Preview.LeaveKeepsView | wordaraaii/src/components/shared/LivePreview.js:71-74 | leaving a list pops one container and the tree the root holds is unchanged |
| Preview.HeadingsAndEmphasis | wordaraaii/src/components/shared/LivePreview.js:36-45 | `section`, `subsection`, `textbf` and `textit` append an `h2`, `h3`, `strong` or `em` holding the first argument's text, or `''` without one; nothing else changes |
| Preview.TitleFieldsOnlyRecord | wordaraaii/src/components/shared/LivePreview.js:26-28 | `title`, `author` and `date` emit nothing and record their arguments' text under their name, overwriting; they raise if and only if they have no arguments |
| Preview.WalkRecordsTitleField | wordaraaii/src/components/shared/LivePreview.js:26-28 | walking such a macro with arguments only updates the table |
| Preview.WalkMaketitle | wordaraaii/src/components/shared/LivePreview.js:29-35 | `maketitle` appends the `div` with `h1`, `p.author` and `p.date` built from the table as it stands, `''` for missing entries |
| Preview.MaketitleShowsLatestTitle | wordaraaii/src/components/shared/LivePreview.js:26-35 | with two titles before `maketitle`, the heading shows the later one |
| Preview.TitleBlock | wordaraaii/src/components/shared/LivePreview.js:30-34 | the block `\maketitle` emits; `TitleBlockShowsFields`, `WalkMaketitle` and `MaketitleShowsLatestTitle` state its contract |
| Preview.TitleBlockShowsFields | wordaraaii/src/components/shared/LivePreview.js:30-34 | a `maketitle` div holding an `h1` with the title, then `author` and `date` paragraphs, each showing its field from the table, `''` when it was never set |
| Preview.ItemAppendsListEntry | wordaraaii/src/components/shared/LivePreview.js:46-49 | `item` appends exactly one `li` to the current container, with trimmed text |
| Preview.StringAddsParagraph | wordaraaii/src/components/shared/LivePreview.js:51-53 | a string adds a `p` with its trimmed, non-empty text if and only if it is not all whitespace; otherwise nothing changes |
| Preview.MathNeverAborts | wordaraaii/src/components/shared/LivePreview.js:54-64 | a math node always appends one `span`: the typeset markup, or the typesetter's message in `text-red-400`; display mode is requested exactly for display math |
| Preview.MathSpan | wordaraaii/src/components/shared/LivePreview.js:60-62 | the span holding the typeset markup, or the error message in `text-red-400`; `MathNeverAborts` states its contract |
| Preview.UnhandledNodesChangeNothing | wordaraaii/src/components/shared/LivePreview.js:23-75 | nodes without a handler create no element, keep the stack and the table, and raise nothing |
| Preview.WalkEndsAtRoot | wordaraaii/src/components/shared/LivePreview.js:17-19 | after a finished walk the stack is the root alone |
| Preview.WalkSeqConcat | wordaraaii/src/components/shared/LivePreview.js:22-76 | walking `a + b` is walking `a` and then `b` from where `a` ended, so elements appear in visit order |
| Preview.WalkNodeFailsIff | wordaraaii/src/components/shared/LivePreview.js:22-76 | the walk raises if and only if it reaches a `title`, `author` or `date` without arguments, whatever state it starts in |
| Preview.WalkNodeLocal | wordaraaii/src/components/shared/LivePreview.js:19-24 | what a walk does depends only on the current container and the table, not on the containers below |
| Preview.ListHoldsItsBody | wordaraaii/src/components/shared/LivePreview.js:65-74 | walking a list appends exactly one `ul`/`ol` to the current container, holding what its body produces on its own; the walk fails exactly when the body's walk on its own fails, and leaves the title table as that walk leaves it; the containers below are untouched |
| Preview.PreviewFailsIff | wordaraaii/src/components/shared/LivePreview.js:98-111 | the failure panel is shown if and only if parsing failed or the walk reaches an argument-less title macro, carrying that error's message |
| Preview.PreviewOf | wordaraaii/src/components/shared/LivePreview.js:98-111 | the rendering: the failure panel for a parse error or a raised walk, the tree otherwise; `PreviewFailsIff` states its contract |
| Preview.HastBuilder.constructor | wordaraaii/src/components/shared/LivePreview.js:17-20 | the stack holds the root alone and the title table is empty |
| Preview.HastBuilder.AppendToCurrent | wordaraaii/src/components/shared/LivePreview.js:24 | the state afterwards is the state before with the element appended to the top container |
| Preview.HastBuilder.Enter | wordaraaii/src/components/shared/LivePreview.js:23-70 | completes in the state the `enter` function gives, or raises its message |
| Preview.HastBuilder.Leave | wordaraaii/src/components/shared/LivePreview.js:71-75 | the state afterwards is the one the `leave` function gives |
| Preview.HastBuilder.Walk | wordaraaii/src/components/shared/LivePreview.js:22-76 | walking from a depth of one plus the enclosing lists ends in the state the walk function gives, or raises its message |
| Preview.HastBuilder.WalkUnder | wordaraaii/src/components/shared/LivePreview.js:22-76 | the children are walked as the walk function walks them |
| Preview.HastBuilder.WalkAll | wordaraaii/src/components/shared/LivePreview.js:22-76 | siblings are walked in order until one raises, ending as the walk function does |
| Preview.HastBuilder.WalkArguments | wordaraaii/src/components/shared/LivePreview.js:22-76 | macro arguments are walked in order until one raises, ending as the walk function does |
| Preview.LivePreview | wordaraaii/src/components/shared/LivePreview.js:98-111 | the rendering is the preview function's: the tree, or the failure panel with the message; nothing escapes |

## Left out

- Network transport: `fetch`, request headers, `JSON.stringify` of request bodies and `response.json()` parsing are not modelled. Replies are inputs, already classified: OK or not, status, body text, parse result.
- `Buffer.from` base64 decoding, `Blob`, `URL.createObjectURL` and `TextDecoder`. The PDF is its base64 text, the object URL is an input, and stream chunks arrive already decoded.
- React scheduling: batched state updates, asynchronous interleaving and stale closures. Each action runs to completion, and the engine is read from the state when the action starts. `handleCompile`'s dependency list omits `compiler`, so the page can post a previously chosen engine; that staleness is not modelled.
- Editor.DocumentGenerator: the sanitiser is held in a constant field, fixed by the constructor to `Sanitize.SanitizeLatex`, the version with the corrected envelope (see Findings). The page as written runs `Sanitize.SanitizeLatexAsWritten`. The two differ only in the envelope's backslashes, and every property the page relies on holds for both: the result is never empty, contains `\documentclass` and holds no three backticks in a row. `Valid()` records only that the sanitiser never returns an empty text. The methods' contracts are stated in terms of that field.
- Editor.DocumentGenerator.GenerateFromContent: the `content` argument is not a parameter, since it only travels in the request body to the AI route. The AI route itself (prompting, Gemini) is not part of this model.
- Console logging (`console.error`) throughout.
- Page initialisation: authentication, `localStorage` and the sample document set on mount; also divider dragging, PDF width measurement and the rest of the rendering.
- Preview: the LaTeX parser, the `visit` library and KaTeX are not modelled. The tree is an input, and KaTeX is an opaque function returning markup or an error. The `Descent` parameter says whether the walk enters macro arguments and math content. That is library behaviour. Most properties hold for both choices, and the few that depend on it require that arguments are not entered: `WalkRecordsTitleField`, `WalkMaketitle` and `MaketitleShowsLatestTitle`.
- Preview.LatexToHast: the `rehype-react` step after the tree is left out, and so is the aliasing of the list element. The model closes a list into its parent when it is left. The parent gets no other child while the list is open, and `LeaveKeepsView` shows the tree the root holds is the same.
- Preview.EnterNode: the `TypeError` message of an argument-less `\title` is fixed to the V8 wording. Other exceptions the parser or `rehype-react` may raise are parse errors, carried as the input's `Err` message.
- Text: strings are sequences of code points, not UTF-16 code units. `toLowerCase()` is modelled as ASCII folding, which is exact for the engine names the selector offers but not for other non-ASCII input.
- CompileApi.Classify: JSON fields are modelled as strings only. A non-string `log` or `result` and JSON values that are not objects collapse into the absent-field cases.
- Editor.FailureMessage: the error body's `log` field is modelled as an optional string. A truthy non-string `log`, such as the number 5, would become the message "5" through `new Error(...)`; the model cannot show that case.
- CompileApi.Handle: the request body's `latex` field is modelled as an optional string. A non-string truthy `latex`, such as a number, is not modelled; the route would forward it to the service as that JSON value.
- Sanitize.NeutralizeDirectives: only the option-less half of remote-image removal is claimed (`Cleanup.PlainRemoteImagesRemoved`, `Cleanup.CleanedHasNoPlainRemoteImage`); an image with options can survive. In `\includegraphics[\includegraphics{http:a]b}]{http:z}` the first pattern finds no match, because its options end at the first `]` and `b}` follows. The second pattern then replaces the inner `\includegraphics{http:a]b}`, which leaves `\includegraphics[% external image removed]{http:z}`. That is a remote image with options, and no later pattern looks for it.
- Sanitize.LocalImageNotMatched: states only that no pattern starts a match at a local image. A match that starts earlier can still remove it: `\input{\includegraphics{a.png}}` is one `\input` match, and the image goes with it.
- Cleanup.CleanedHasNoInclusion: the absence of `\input{…}`, `\include{…}`, option-less remote images and stale package lines is stated on the cleaned text, before the envelope, not on the sanitiser's result. The envelope's own text can complete a match. `\input{abc` has no closing brace, so it survives the cleanup, and once wrapped it runs into the `}` of `\end{document}`. `\includegraphics{http:abc` does the same, so `Cleanup.CleanedHasNoPlainRemoteImage` is likewise stated before the envelope.
- Editor.ErrorBlockShown: a failed compile with an empty message reports failure but shows no error block and no Fix with AI button, as the page does.
- Sanitize.SanitizeLatex: idempotence is not claimed because it does not hold. `tex\nlatex\n\documentclass{article}` loses one tag line per pass.

## Design versus code

The system's design description and the code modelled here differ in these points; the
model follows the code.

- The design has a second compile provider tried after the first fails. The route calls only latexonline.cc.
- The design bounds automatic repair by a maximum attempt count. The code has no automatic loop: "Fix with AI" is a manual action that can be repeated without bound.
- The design classifies success by status and content type. The route classifies by the `ok` flag and the JSON fields `status` and `result`.
- The design asks for idempotent normalisation. The sanitiser is not idempotent (see above).
- The design discards stale results by document revision. The page has no revision counter or staleness check.
- The design releases superseded object URLs. The page replaces `pdfUrl` without revoking the previous URL.
- The design's envelope always compiles. As written, it opens with doubled backslashes (see Findings).
- The design selects the engine per compile. The route ignores the engine it receives and always runs `pdflatex`.

## Findings

| source | as written | input that shows it | evidently intended | confidence | as-written member | corrected member |
|---|---|---|---|---|---|---|
| wordaraaii/src/pages/document-generator.js:47-79 | the preamble is a `String.raw` template whose lines begin with `\\`, so the added text opens `\\documentclass{article}`, which LaTeX reads as a line break followed by the word `documentclass` | `sanitizeLatex("Hello world")` with the default engine | single backslashes: the text opens with the `\documentclass{article}` command | not executed | Sanitize.AsWrittenBreaksPlainProse | Sanitize.SanitizedPlainProseOpensDocument |

`Sanitize.SanitizeLatexAsWritten` and `Sanitize.WrapAsWritten` model the page as written,
and `Sanitize.AsWrittenWrapOpensWithLineBreak` proves that every wrapped result has the
defect. `Sanitize.SanitizeLatex` uses the corrected envelope. The editor model uses the
corrected version, and `Sanitize.WrapOpensDocument` proves it opens every wrapped document
properly.
