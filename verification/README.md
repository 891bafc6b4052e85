# Resumos: document intake, analysis request and quiz session

Resumos is a web page that summarises an uploaded document with a language model
and then quizzes the reader on it. Around the presentation code there are three
pieces of sequential logic, and this project models them as pure Dafny functions
and proves their contracts:

- **File intake** (`FileUpload.handleFile`). It checks the size against 10 MiB,
  then checks the MIME type against four listed types or the lower-cased name
  against `.txt/.pdf/.doc/.docx`. It extracts the text, refuses blank text and
  hands the text and the file name to the analysis.
- **Extraction and analysis request** (`document-processor.ts`).
  `extractTextFromFile` picks the text, PDF, Word or generic branch. The PDF and
  Word branches put a fixed notice in place of empty text. `processDocument`
  embeds at most 8000 characters of the document in the prompt, adding `...`
  when it cuts. Every failure, including an empty model reply, becomes one
  generic message.
- **Quiz session** (`QuizComponent`). The state is the current question, the
  sparse answer map, and the `showResults` and `quizCompleted` flags. The four
  handlers (select, next, previous, restart) are transitions over that state.
  There is also a score and two three-way result tiers: the colour and the badge.

Modules: `Wrappers` (Option and Result), `Text` (the JavaScript string operations
used: `toLowerCase`, `endsWith`, `includes`, `trim`), `DocumentProcessor`,
`QuizSession` and `FileUpload`.

Three inputs come from outside the model:
- The text `file.text()` decodes is a field of `File`; `None` means reading threw.
- The model's reply is a `Completion`: a transport failure, or a reply whose
  content may be missing.
- `JSON.parse` is a function parameter returning `None` when it throws.

Three behaviours of the code are easy to miss:
- `handlePrevious` has no completion guard. Only the results screen hides the
  button. So `Previous` moves the index even in a completed session.
- Next is not blocked for an unanswered question. The button is only disabled in
  the view. `AdvancingCompletes` shows a quiz can be finished with nothing
  answered.
- Extraction is not only a passthrough. An empty PDF or Word text is replaced by a
  fixed notice, so an empty PDF gets past the blank check (`EmptyPdfDeliversNotice`).

The colour (`getScoreColor`) and the badge use different formulas. They agree on
every non-empty quiz (`TiersAgree`). As formulas they differ on an empty quiz: 0/0
is NaN in JavaScript, so the colour gives the lowest tier while the badge gives the
top tier (`TiersDisagreeOnEmptyQuiz`). The page never shows that disagreement.
With an empty quiz, `showResults` starts false (src/components/QuizComponent.tsx:18)
and the first render reads `analysis.quiz[0].question`, which is undefined, and
throws (src/components/QuizComponent.tsx:144, 167). The model's `Next` still
completes an empty quiz. The source cannot reach that state, because the component
has already crashed.

## Model

| member | source | states |
|---|---|---|
| Text.ToLower | src/components/FileUpload.tsx:40 | lower-casing keeps the length and maps each ASCII capital to its small letter, leaving other characters alone |
| Text.EndsWith | src/components/FileUpload.tsx:40 | `endsWith`: the suffix fits and the last characters of the string equal it |
| Text.Contains | src/lib/document-processor.ts:87 | `includes`: the substring occurs at some index of the string |
| Text.TrimStart | src/components/FileUpload.tsx:54 | the result is a suffix of the input, every dropped character is whitespace, and the result does not start with whitespace |
| Text.TrimEnd | src/components/FileUpload.tsx:54 | the result is a prefix of the input, every dropped character is whitespace, and the result does not end with whitespace |
| Text.Trim | src/components/FileUpload.tsx:54 | the trimmed text is a contiguous piece of the input, everything before and after it is whitespace, and it has no whitespace at either end |
| Text.TrimEmptyIffBlank | src/components/FileUpload.tsx:54 | `!content.trim()` holds exactly when every character of the content is whitespace |
| DocumentProcessor.IsPlainTextFile | src/lib/document-processor.ts:76 | the text-branch test: type `text/plain`, or the lower-cased name ends in `.txt` |
| DocumentProcessor.IsPdfFile | src/lib/document-processor.ts:80 | the PDF-branch test: type `application/pdf`, or the lower-cased name ends in `.pdf` |
| DocumentProcessor.IsWordFile | src/lib/document-processor.ts:87 | the Word-branch test: the type contains `word`, or the lower-cased name ends in `.docx` or `.doc` |
| DocumentProcessor.SelectBranch | src/lib/document-processor.ts:72-94 | the text branch wins when the type is `text/plain` or the name ends in `.txt`; otherwise PDF, then Word (type contains `word`, name ends in `.docx`/`.doc`), then the generic branch, each exactly under its condition |
| DocumentProcessor.ExtractText | src/lib/document-processor.ts:71-98 | a read failure gives the extraction error and nothing else does; text and generic files give their text verbatim even when empty; non-empty text is never replaced; empty PDF and Word text becomes the matching notice |
| DocumentProcessor.Excerpt | src/lib/document-processor.ts:36 | the embedded excerpt is a prefix of the content of length min(8000, length), never longer than 8000 |
| DocumentProcessor.Marker | src/lib/document-processor.ts:36 | the marker is `...` exactly when the content is longer than 8000 characters and empty otherwise |
| DocumentProcessor.ContentLine | src/lib/document-processor.ts:36 | the prompt line starts with the excerpt and is at most 8004 characters; up to 8000 it is the whole content plus a space, past 8000 the first 8000 characters plus ` ...` |
| DocumentProcessor.BuildRequest | src/lib/document-processor.ts:25-59 | the request carries the file name and the content line: the whole content plus a space up to 8000 characters, the first 8000 plus ` ...` beyond; at temperature 0.7 and 2000 tokens |
| DocumentProcessor.HasContent | src/lib/document-processor.ts:61-62 | a completion passes `!result` only when it is a reply whose content is present and non-empty |
| DocumentProcessor.ProcessDocument | src/lib/document-processor.ts:23-69 | the service is asked with the request built from this content and name; the result is a success exactly when that reply has non-empty content that parses, and then it is the parsed analysis; every failure carries the single generic message, and an absent or empty reply always fails |
| DocumentProcessor.AnalysisIgnoresTruncatedTail | src/lib/document-processor.ts:23-64 | two documents over 8000 characters with the same name and the same first 8000 characters send the identical request, so only the service's answer can make their outcomes differ |
| DocumentProcessor.AnalysisAnswersItsOwnRequest | src/lib/document-processor.ts:54-64 | a service that answers only the request built for one document and name gives that document its parsed analysis and fails any document or name with a different request |
| DocumentProcessor.ExactLimitEmbeddedWhole | src/lib/document-processor.ts:36 | content of exactly 8000 characters is embedded whole, with no marker |
| DocumentProcessor.ContentLineRoundTrip | src/lib/document-processor.ts:36 | up to 8000 characters, the content is the prompt line minus its final space |
| DocumentProcessor.TruncationForgetsTail | src/lib/document-processor.ts:36 | two over-long contents that share their first 8000 characters give the same prompt line |
| DocumentProcessor.ContentLineInjectiveWithinLimit | src/lib/document-processor.ts:36 | two contents within the limit with the same prompt line are equal |
| DocumentProcessor.WordMimeTypesContainWord | src/lib/document-processor.ts:87 | both Word MIME types that the upload accepts satisfy the Word branch's `includes('word')` |
| DocumentProcessor.EmptyFileExtraction | src/lib/document-processor.ts:76-94 | an empty PDF or Word file yields non-blank text; an empty text or generic file yields the empty text |
| QuizSession.SelectAnswer | src/components/QuizComponent.tsx:21-27 | after completion nothing changes; before, the answer is recorded at the current index, every other index reads as before, and the index and flags are unchanged |
| QuizSession.Next | src/components/QuizComponent.tsx:29-36 | below the last index it moves forward by one and keeps the flags; at or past it, it sets both flags and keeps the index; answers never change |
| QuizSession.Previous | src/components/QuizComponent.tsx:38-42 | above 0 it moves back by one; at 0 it changes nothing; answers and flags never change |
| QuizSession.Restart | src/components/QuizComponent.tsx:44-49 | index 0, no answer recorded at any index, and both flags false |
| QuizSession.InitialValid | src/components/QuizComponent.tsx:16-19 | the mount state of a non-empty quiz satisfies the session invariant |
| QuizSession.StepPreservesValid | src/components/QuizComponent.tsx:21-49 | each handler keeps the index in bounds, the two flags equal, and answers on quiz indices |
| QuizSession.RunPreservesValid | src/components/QuizComponent.tsx:21-49 | any sequence of user actions keeps the session invariant |
| QuizSession.IndexAlwaysInBounds | src/components/QuizComponent.tsx:16-49 | from mount, with a non-empty quiz, `0 <= currentQuestion < quiz.length` after any actions |
| QuizSession.PreviousUndoesNext | src/components/QuizComponent.tsx:29-42 | below the last question, Previous after Next gives back the same state |
| QuizSession.NextUndoesPrevious | src/components/QuizComponent.tsx:29-42 | above the first question, Next after Previous gives back the same state |
| QuizSession.CompletionLocksAnswers | src/components/QuizComponent.tsx:21-36 | once completed, any actions without a restart leave the session completed with the same answers |
| QuizSession.AdvancingCompletes | src/components/QuizComponent.tsx:29-36 | pressing Next enough times completes the quiz on the last question with the answers unchanged, answered or not |
| QuizSession.RestartIsFresh | src/components/QuizComponent.tsx:44-49 | any actions after a restart behave exactly as from the mount state |
| QuizSession.IsCorrect | src/components/QuizComponent.tsx:54 | a question counts when an answer is recorded for it and equals its `correctAnswer`; an unanswered one never counts |
| QuizSession.ScoreBelow | src/components/QuizComponent.tsx:51-59 | the count over the first k questions is at most k and equals the number of correctly answered indices below k |
| QuizSession.Score | src/components/QuizComponent.tsx:51-59 | the score lies between 0 and the quiz length and is the number of correctly answered indices |
| QuizSession.CalculateScore | src/components/QuizComponent.tsx:51-59 | the one-pass count equals the number of indices whose recorded answer is the correct one, at most the quiz length |
| QuizSession.ScoreOnlyReadsQuizAnswers | src/components/QuizComponent.tsx:53-56 | answer maps that agree on the quiz's indices give the same score |
| QuizSession.NoAnswersScoreZero | src/components/QuizComponent.tsx:44-59 | with no recorded answer, as after a restart, the score is 0: unanswered questions never count |
| QuizSession.AllCorrectScoresAll | src/components/QuizComponent.tsx:51-59 | answering every question correctly scores the number of questions |
| QuizSession.SelectChangesOnlyCurrent | src/components/QuizComponent.tsx:21-59 | selecting an answer changes the score only by the current question's correctness before and after |
| QuizSession.BadgeTier | src/components/QuizComponent.tsx:90-91 | the badge is top iff 5·score >= 4·total, middle iff 3·total <= 5·score < 4·total, lowest iff 5·score < 3·total |
| QuizSession.ColorTier | src/components/QuizComponent.tsx:61-66 | for a non-empty quiz, the same three-way split on the percentage; for an empty quiz, the lowest tier at 0/0 (NaN) and top only for a positive score |
| QuizSession.PercentageFacts | src/components/QuizComponent.tsx:61-64 | the percentage is at least 80 (60) iff 5·score is at least 4 (3) times the total |
| QuizSession.TiersAgree | src/components/QuizComponent.tsx:61-91 | on a non-empty quiz the colour and the badge always give the same tier |
| QuizSession.TiersDisagreeOnEmptyQuiz | src/components/QuizComponent.tsx:61-91 | on an empty quiz the colour is the lowest tier and the badge the top tier |
| QuizSession.ThreeOfFiveIsMiddle | src/components/QuizComponent.tsx:51-66 | on five questions with 0–2 right and 3–4 wrong, the score is 3 and both displays show the middle tier |
| FileUpload.HasValidType | src/components/FileUpload.tsx:31-40 | `hasValidType`: the MIME type is one of the four listed, or the lower-cased name ends in one of the four extensions |
| FileUpload.Validate | src/components/FileUpload.tsx:23-46 | accepts exactly the files of at most 10 MiB with a valid type; an oversized file gets the size error whatever its type, and only a file within the size limit can get the type error |
| FileUpload.HandleFile | src/components/FileUpload.tsx:20-65 | no file leaves the state alone; the size, type, read and blank checks fail in that order with their messages and no callback; the callback runs exactly for valid files with extractable non-blank text, with that text and the file name, leaving status success and no error |
| FileUpload.ExactLimitPassesSizeCheck | src/components/FileUpload.tsx:24 | a file of exactly 10·1024·1024 bytes passes the size check |
| FileUpload.OversizedNeverRead | src/components/FileUpload.tsx:24-28 | an oversized file fails with the size message and its contents do not influence the outcome |
| FileUpload.UnsupportedNeverRead | src/components/FileUpload.tsx:39-46 | a file failing the type check has an outcome independent of its contents |
| FileUpload.UpperCaseExtensionAccepted | src/components/FileUpload.tsx:38-40 | a name ending in `.TXT` passes the type check whatever its MIME type |
| FileUpload.ValidFilesHaveKnownBranch | src/components/FileUpload.tsx:31-40 | every file passing the type check is extracted by the text, PDF or Word branch, never the generic one |
| FileUpload.BlankContentRefused | src/components/FileUpload.tsx:54-63 | blank extracted text fails with the empty-content message and the callback is not called |
| FileUpload.TextFileDeliveredVerbatim | src/components/FileUpload.tsx:52-59 | a `text/plain` file within the size limit with non-blank text hands on that text unchanged with its name |
| FileUpload.EmptyPdfDeliversNotice | src/components/FileUpload.tsx:52-59 | an empty PDF is not refused as blank: the PDF notice is handed on instead |

## Left out

- The OpenAI client and the `chat.completions.create` call (src/lib/document-processor.ts:3-6, 54-59) are network I/O. The reply is an input (`Completion`).
- `JSON.parse` and the unchecked mapping onto `DocumentAnalysis` (src/lib/document-processor.ts:64) are foreign. `parse` is a parameter. The model adds no schema validation, because the source has none.
- `file.text()` byte decoding is browser I/O. The decoded text is a field of `File`.
- The fixed wording of the prompt template is not modelled. Only its variable parts, the file name and the content line, are.
- With an empty quiz the component throws on its first render (src/components/QuizComponent.tsx:144, 167). The model has no crash state, and its transitions stay defined on an empty quiz.
- The logging calls (`console.error`) are not modelled.
- DocumentProcessor.BuildRequest: the model name and the 0.7 temperature are constants with nothing to prove, and the real 0.7 stands for the floating-point value.
- QuizSession.ColorTier: floating-point division and comparison are modelled with exact reals, so rounding is not modelled. The NaN and Infinity cases of division by zero are written out.
- QuizSession.BadgeTier: `total * 0.8` and `total * 0.6` are computed in exact reals, not in floating point.
- The progress percentage and the `toFixed` display (src/components/QuizComponent.tsx:68, 88) are floating-point values used only for display.
- The view's rule that Next is disabled until the question is answered (src/components/QuizComponent.tsx:210) lives in the view, not in `handleNext`. It is not part of the state machine.
- `QuizQuestion.correctAnswer` is always an integer here. A reply that omits it would, in the source, make an unanswered question count as correct (`undefined === undefined`), and the model cannot express that reply.
- Text.ToLower: only ASCII letters are lower-cased. JavaScript's full Unicode mapping is not modelled.
- Text.Trim: indices count Unicode scalar values, not UTF-16 code units.
- DocumentProcessor.Excerpt: the 8000-character limit counts Unicode scalar values, not the UTF-16 code units `substring` counts. So a document with characters outside the Basic Multilingual Plane can keep more text here than in the source.
- DocumentProcessor.Marker: the `content.length > 8000` test also counts Unicode scalar values, not UTF-16 code units. A document of 4001 characters outside the Basic Multilingual Plane is 8002 code units, so the source appends `...` and the model does not. DocumentProcessor.ContentLine inherits this gap.
- DocumentProcessor.ProcessDocument: `complete` gives one fixed answer per request. The real service samples at temperature 0.7 and may answer the same request differently on two calls.
- FileUpload.HandleFile: the transient `uploading` status set before extraction is not modelled. The function returns the state `handleFile` finally leaves.
- The drag-and-drop handlers, the status icon and the status text (src/components/FileUpload.tsx:67-118) are UI events and rendering.
- src/app/page.tsx, src/components/DocumentSummary.tsx, src/components/QuestionsList.tsx and src/components/ui/progress.tsx are rendering and async orchestration.
