/**
 * The analysis shapes, the text-extraction dispatch and the analysis request of
 * src/lib/document-processor.ts. Reading the file's bytes, the language-model
 * call and `JSON.parse` are foreign; they enter as inputs.
 */
module DocumentProcessor {
  import opened Wrappers
  import opened Text

  datatype Difficulty = Basico | Intermediario | Avancado

  /** One multiple-choice question. Nothing checks `correctAnswer` against `options`. */
  datatype QuizQuestion = QuizQuestion(
    question: string,
    options: seq<string>,
    correctAnswer: int,
    explanation: string)

  datatype DocumentAnalysis = DocumentAnalysis(
    summary: string,
    questions: seq<string>,
    quiz: seq<QuizQuestion>,
    keyPoints: seq<string>,
    difficulty: Difficulty)

  /**
   * A browser `File`: its name, size in bytes, MIME type, and what `file.text()`
   * yields (`None` when reading throws).
   */
  datatype File = File(name: string, size: int, mimeType: string, decoded: Option<string>)

  // The longer literals are split in two so that the verifier sees their characters.
  const PdfFallback: string :=
    "Conteúdo PDF detectado. " + "Para melhor extração, use um arquivo de texto."
  const WordFallback: string :=
    "Documento Word detectado. " + "Para melhor extração, salve como arquivo de texto."
  const ExtractionFailedMessage: string :=
    "Não foi possível extrair o texto do arquivo. " + "Tente um formato diferente."
  const AnalysisFailedMessage: string :=
    "Falha ao analisar o documento. Tente novamente."

  // ---------------------------------------------------------------------------
  // Text extraction
  // ---------------------------------------------------------------------------

  /** The four branches of `extractTextFromFile`, tried in this order. */
  datatype Branch = PlainText | Pdf | Word | Other

  predicate IsPlainTextFile(f: File) {
    f.mimeType == "text/plain" || EndsWith(ToLower(f.name), ".txt")
  }

  predicate IsPdfFile(f: File) {
    f.mimeType == "application/pdf" || EndsWith(ToLower(f.name), ".pdf")
  }

  predicate IsWordFile(f: File) {
    || Contains(f.mimeType, "word")
    || EndsWith(ToLower(f.name), ".docx")
    || EndsWith(ToLower(f.name), ".doc")
  }

  function SelectBranch(f: File): (b: Branch)
    ensures b == PlainText <==> IsPlainTextFile(f)
    ensures b == Pdf <==> !IsPlainTextFile(f) && IsPdfFile(f)
    ensures b == Word <==> !IsPlainTextFile(f) && !IsPdfFile(f) && IsWordFile(f)
    ensures b == Other <==> !IsPlainTextFile(f) && !IsPdfFile(f) && !IsWordFile(f)
  {
    if IsPlainTextFile(f) then PlainText
    else if IsPdfFile(f) then Pdf
    else if IsWordFile(f) then Word
    else Other
  }

  /**
   * `extractTextFromFile`: the decoded text, with a fixed notice in place of an
   * empty PDF or Word text, or the extraction error when reading fails.
   */
  function ExtractText(f: File): (r: Result<string, string>)
    ensures f.decoded.None? <==> r == Failure(ExtractionFailedMessage)
    ensures r.Failure? ==> f.decoded.None?
    // a text file, or a file matching no branch, yields its text verbatim, even when empty
    ensures f.decoded.Some? && (IsPlainTextFile(f) || SelectBranch(f) == Other)
      ==> r == Success(f.decoded.value)
    // PDF and Word texts are replaced only when empty
    ensures f.decoded.Some? && f.decoded.value != [] ==> r == Success(f.decoded.value)
    ensures f.decoded == Some([]) && SelectBranch(f) == Pdf ==> r == Success(PdfFallback)
    ensures f.decoded == Some([]) && SelectBranch(f) == Word ==> r == Success(WordFallback)
  {
    match f.decoded
    case None => Failure(ExtractionFailedMessage)
    case Some(text) =>
      match SelectBranch(f)
      case PlainText => Success(text)
      case Pdf => Success(if text == [] then PdfFallback else text)
      case Word => Success(if text == [] then WordFallback else text)
      case Other => Success(text)
  }

  // ---------------------------------------------------------------------------
  // Analysis request
  // ---------------------------------------------------------------------------

  /** How many characters of the document go into the prompt. */
  const ExcerptLimit: nat := 8000

  /** `content.substring(0, 8000)`. */
  function Excerpt(content: string): (r: string)
    ensures |r| <= ExcerptLimit
    ensures |r| == if |content| <= ExcerptLimit then |content| else ExcerptLimit
    ensures r <= content
  {
    if |content| <= ExcerptLimit then content else content[..ExcerptLimit]
  }

  /** The truncation marker: `'...'` when the content is longer than the limit. */
  function Marker(content: string): (r: string)
    ensures r == "..." <==> |content| > ExcerptLimit
    ensures r == [] <==> |content| <= ExcerptLimit
  {
    if |content| > ExcerptLimit then "..." else ""
  }

  /** The prompt line that embeds the document: excerpt, one space, marker. */
  function ContentLine(content: string): (r: string)
    ensures Excerpt(content) <= r
    ensures |r| <= ExcerptLimit + 4
    ensures |content| <= ExcerptLimit ==> r == content + " "
    ensures |content| > ExcerptLimit ==> r == content[..ExcerptLimit] + " ..."
  {
    Excerpt(content) + " " + Marker(content)
  }

  /** The variable parts of the prompt template; its fixed wording is not modelled. */
  datatype Prompt = Prompt(documentName: string, contentLine: string)

  /** The one chat-completion request `processDocument` sends. */
  datatype CompletionRequest = CompletionRequest(
    model: string,
    prompt: Prompt,
    temperature: real,
    maxTokens: int)

  function BuildRequest(content: string, fileName: string): (req: CompletionRequest)
    ensures req.prompt.documentName == fileName
    ensures |req.prompt.contentLine| <= ExcerptLimit + 4
    ensures content[..if |content| <= ExcerptLimit then |content| else ExcerptLimit] <= req.prompt.contentLine
    ensures |content| <= ExcerptLimit ==> req.prompt.contentLine == content + " "
    ensures |content| > ExcerptLimit ==> req.prompt.contentLine == content[..ExcerptLimit] + " ..."
    ensures req.temperature == 0.7 && req.maxTokens == 2000
  {
    CompletionRequest("gpt-4o", Prompt(fileName, ContentLine(content)), 0.7, 2000)
  }

  /** What the completion service gives back: a transport failure, or a reply whose
      first choice's message content may be missing. */
  datatype Completion = TransportFailure | Reply(content: Option<string>)

  /** The response text `processDocument` goes on to parse, if any. */
  predicate HasContent(c: Completion) {
    c.Reply? && c.content.Some? && c.content.value != []
  }

  /**
   * `processDocument`. `complete` is the completion service, asked exactly once,
   * with `BuildRequest(content, fileName)`; `parse` is `JSON.parse` (`None` when it
   * throws).
   */
  function ProcessDocument(
    content: string,
    fileName: string,
    complete: CompletionRequest -> Completion,
    parse: string -> Option<DocumentAnalysis>
  ): (r: Result<DocumentAnalysis, string>)
    ensures r.Failure? ==> r.error == AnalysisFailedMessage
    ensures !HasContent(complete(BuildRequest(content, fileName))) ==> r.Failure?
    ensures r.Success? <==>
      && HasContent(complete(BuildRequest(content, fileName)))
      && parse(complete(BuildRequest(content, fileName)).content.value).Some?
    ensures r.Success? ==>
      r.value == parse(complete(BuildRequest(content, fileName)).content.value).value
  {
    var reply := complete(BuildRequest(content, fileName));
    if !HasContent(reply) then Failure(AnalysisFailedMessage)
    else
      match parse(reply.content.value)
      case None => Failure(AnalysisFailedMessage)
      case Some(analysis) => Success(analysis)
  }

  /** The analysis depends on the document only through the prompt: two documents
      longer than 8000 characters that agree on their first 8000 and have the same
      name send the identical request, so only the service's answer can make their
      outcomes differ. */
  lemma AnalysisIgnoresTruncatedTail(
    a: string, b: string, fileName: string,
    complete: CompletionRequest -> Completion,
    parse: string -> Option<DocumentAnalysis>)
    requires |a| > ExcerptLimit && |b| > ExcerptLimit
    requires a[..ExcerptLimit] == b[..ExcerptLimit]
    ensures ProcessDocument(a, fileName, complete, parse) == ProcessDocument(b, fileName, complete, parse)
  {
    TruncationForgetsTail(a, b);
    assert BuildRequest(a, fileName) == BuildRequest(b, fileName);
  }

  /** The service is asked about the given document: when it answers only the
      request for that document and name, any other document or name fails. */
  lemma AnalysisAnswersItsOwnRequest(
    content: string, fileName: string, other: string, otherName: string,
    parse: string -> Option<DocumentAnalysis>,
    answer: string)
    requires parse(answer).Some? && answer != []
    requires BuildRequest(other, otherName) != BuildRequest(content, fileName)
    ensures var complete := (req: CompletionRequest) =>
      if req == BuildRequest(content, fileName) then Reply(Some(answer)) else TransportFailure;
      && ProcessDocument(content, fileName, complete, parse) == Success(parse(answer).value)
      && ProcessDocument(other, otherName, complete, parse) == Failure(AnalysisFailedMessage)
  {
  }

  // ---------------------------------------------------------------------------
  // Properties of the truncation
  // ---------------------------------------------------------------------------

  /** Content of exactly the limit's length is embedded whole, without the marker. */
  lemma ExactLimitEmbeddedWhole(content: string)
    requires |content| == ExcerptLimit
    ensures Excerpt(content) == content
    ensures Marker(content) == []
    ensures ContentLine(content) == content + " "
  {
  }

  /** Up to the limit, the content can be read back from the prompt line. */
  lemma {:induction false} ContentLineRoundTrip(content: string)
    requires |content| <= ExcerptLimit
    ensures |ContentLine(content)| == |content| + 1
    ensures ContentLine(content)[..|ContentLine(content)| - 1] == content
  {
    assert ContentLine(content) == content + " ";
  }

  /** Past the limit, only the first 8000 characters reach the prompt: contents
      that agree on them produce the same prompt line. */
  lemma TruncationForgetsTail(a: string, b: string)
    requires |a| > ExcerptLimit && |b| > ExcerptLimit
    requires a[..ExcerptLimit] == b[..ExcerptLimit]
    ensures ContentLine(a) == ContentLine(b)
  {
  }

  /** Two contents within the limit give the same prompt line only if they are equal. */
  lemma ContentLineInjectiveWithinLimit(a: string, b: string)
    requires |a| <= ExcerptLimit && |b| <= ExcerptLimit
    requires ContentLine(a) == ContentLine(b)
    ensures a == b
  {
    ContentLineRoundTrip(a);
    ContentLineRoundTrip(b);
  }

  // ---------------------------------------------------------------------------
  // Properties of the dispatch
  // ---------------------------------------------------------------------------

  const MsWordType: string := "application/msword"
  const OpenXmlWordType: string := OpenXmlPrefix + OpenXmlSuffix
  const OpenXmlPrefix: string := "application/vnd.openxmlformats-officedocument."
  const OpenXmlSuffix: string := "wordprocessingml.document"

  /** Both Word MIME types the upload accepts contain `word`. */
  lemma WordMimeTypesContainWord()
    ensures Contains(MsWordType, "word")
    ensures Contains(OpenXmlWordType, "word")
  {
    assert OccursAt(MsWordType, "word", 14);
    assert |OpenXmlPrefix| == 46;
    assert OpenXmlWordType[46..50] == OpenXmlSuffix[..4] == "word";
    assert OccursAt(OpenXmlWordType, "word", 46);
  }

  /** An empty PDF or Word file still yields non-blank text; an empty text file does not. */
  lemma EmptyFileExtraction(f: File)
    requires f.decoded == Some([])
    ensures SelectBranch(f) in {Pdf, Word} ==> ExtractText(f).Success? && !IsBlank(ExtractText(f).value)
    ensures SelectBranch(f) in {PlainText, Other} ==> ExtractText(f) == Success([])
  {
    if SelectBranch(f) == Pdf {
      assert PdfFallback[0] == 'C';
    } else if SelectBranch(f) == Word {
      assert WordFallback[0] == 'D';
    }
  }
}
