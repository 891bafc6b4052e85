/**
 * `handleFile` of src/components/FileUpload.tsx: size check, type check,
 * extraction, blank-content check, then the hand-over to the analysis.
 */
module FileUpload {
  import opened Wrappers
  import opened Text
  import opened DocumentProcessor

  /** Largest accepted file: 10 MiB. */
  const MaxFileSize: int := 10 * 1024 * 1024

  const ValidTypes: seq<string> := ["text/plain", "application/pdf", MsWordType, OpenXmlWordType]
  const ValidExtensions: seq<string> := [".txt", ".pdf", ".doc", ".docx"]

  const TooLargeMessage: string := "Arquivo muito grande. Máximo 10MB."
  const UnsupportedMessage: string := "Formato não suportado. Use: TXT, PDF, DOC ou DOCX."
  const EmptyContentMessage: string := "Arquivo vazio ou não foi possível extrair o texto."

  datatype Status = Idle | Uploading | Succeeded | Failed

  /** `uploadStatus` and `errorMessage`. */
  datatype UploadState = UploadState(status: Status, errorMessage: string)

  /** The arguments `onFileProcessed` is called with. */
  datatype Delivery = Delivery(content: string, fileName: string)

  /** The state `handleFile` leaves behind, and the callback it made, if any. */
  datatype Outcome = Outcome(state: UploadState, delivered: Option<Delivery>)

  /** The MIME type is listed, or the lower-cased name ends in a listed extension. */
  predicate HasValidType(f: File) {
    || f.mimeType in ValidTypes
    || exists k | 0 <= k < |ValidExtensions| :: EndsWith(ToLower(f.name), ValidExtensions[k])
  }

  /** The size and type checks, in that order. */
  function Validate(f: File): (r: Result<File, string>)
    ensures r.Success? <==> f.size <= MaxFileSize && HasValidType(f)
    ensures r.Success? ==> r.value == f
    ensures f.size > MaxFileSize ==> r == Failure(TooLargeMessage)
    ensures f.size <= MaxFileSize && !HasValidType(f) ==> r == Failure(UnsupportedMessage)
  {
    if f.size > MaxFileSize then Failure(TooLargeMessage)
    else if !HasValidType(f) then Failure(UnsupportedMessage)
    else Success(f)
  }

  function Fail(message: string): Outcome {
    Outcome(UploadState(Failed, message), None)
  }

  /** `handleFile`, with `file` absent when no file was chosen. */
  function HandleFile(file: Option<File>, st: UploadState): (r: Outcome)
    ensures file.None? ==> r == Outcome(st, None)
    ensures file.Some? ==> r.state.status in {Succeeded, Failed}
    ensures file.Some? && file.value.size > MaxFileSize ==> r == Fail(TooLargeMessage)
    ensures file.Some? && file.value.size <= MaxFileSize && !HasValidType(file.value)
      ==> r == Fail(UnsupportedMessage)
    ensures file.Some? && Validate(file.value).Success? && file.value.decoded.None?
      ==> r == Fail(ExtractionFailedMessage)
    ensures
      && file.Some? && Validate(file.value).Success? && ExtractText(file.value).Success?
      && IsBlank(ExtractText(file.value).value)
      ==> r == Fail(EmptyContentMessage)
    ensures r.delivered.Some? <==>
      && file.Some? && Validate(file.value).Success?
      && ExtractText(file.value).Success? && !IsBlank(ExtractText(file.value).value)
    ensures r.delivered.Some? ==>
      && r.state == UploadState(Succeeded, "")
      && r.delivered.value == Delivery(ExtractText(file.value).value, file.value.name)
    ensures file.Some? && r.delivered.None? ==> r.state.status == Failed && r.state.errorMessage != ""
  {
    match file
    case None => Outcome(st, None)
    case Some(f) =>
      match Validate(f)
      case Failure(message) => Fail(message)
      case Success(_) =>
        match ExtractText(f)
        case Failure(message) => Fail(message)
        case Success(content) =>
          TrimEmptyIffBlank(content);
          if Trim(content) == [] then Fail(EmptyContentMessage)
          else Outcome(UploadState(Succeeded, ""), Some(Delivery(content, f.name)))
  }

  // ---------------------------------------------------------------------------
  // Properties
  // ---------------------------------------------------------------------------

  /** A file of exactly 10 MiB passes the size check. */
  lemma ExactLimitPassesSizeCheck(f: File)
    requires f.size == 10 * 1024 * 1024
    ensures Validate(f) != Failure(TooLargeMessage)
  {
  }

  /** An oversized file is rejected for its size whatever its type, and its text is
      never read: the outcome does not depend on it. */
  lemma OversizedNeverRead(f: File, decoded: Option<string>, st: UploadState)
    requires f.size > MaxFileSize
    ensures HandleFile(Some(f), st) == HandleFile(Some(f.(decoded := decoded)), st)
    ensures HandleFile(Some(f), st).state.errorMessage == TooLargeMessage
  {
  }

  /** A file failing the type check is never read either. */
  lemma UnsupportedNeverRead(f: File, decoded: Option<string>, st: UploadState)
    requires f.size <= MaxFileSize && !HasValidType(f)
    ensures HandleFile(Some(f), st) == HandleFile(Some(f.(decoded := decoded)), st)
  {
  }

  /** The extension test ignores case: a name ending in upper-case `.TXT`, such as
      `REPORT.TXT`, is accepted whatever its MIME type. */
  lemma UpperCaseExtensionAccepted(f: File)
    requires EndsWith(f.name, ".TXT")
    ensures HasValidType(f)
  {
    var lower := ToLower(f.name);
    var n := |f.name|;
    assert f.name[n - 4..] == ".TXT";
    assert f.name[n - 4] == '.' && f.name[n - 3] == 'T' && f.name[n - 2] == 'X' && f.name[n - 1] == 'T';
    assert lower[n - 4..] == ".txt";
    assert EndsWith(lower, ValidExtensions[0]);
  }

  /** Whatever passes validation is extracted by the text, PDF or Word branch,
      never by the generic one. */
  lemma ValidFilesHaveKnownBranch(f: File)
    requires HasValidType(f)
    ensures SelectBranch(f) != Other
  {
    WordMimeTypesContainWord();
    if f.mimeType !in ValidTypes {
      var k :| 0 <= k < |ValidExtensions| && EndsWith(ToLower(f.name), ValidExtensions[k]);
    }
  }

  /** Blank text, from a text file or otherwise, is refused and not handed on. */
  lemma BlankContentRefused(f: File, st: UploadState)
    requires Validate(f).Success?
    requires ExtractText(f).Success? && IsBlank(ExtractText(f).value)
    ensures HandleFile(Some(f), st) == Fail(EmptyContentMessage)
  {
    TrimEmptyIffBlank(ExtractText(f).value);
  }

  /** An accepted text file hands on its text unchanged, with its name. */
  lemma TextFileDeliveredVerbatim(f: File, st: UploadState)
    requires f.size <= MaxFileSize && f.mimeType == "text/plain"
    requires f.decoded.Some? && !IsBlank(f.decoded.value)
    ensures HandleFile(Some(f), st).delivered == Some(Delivery(f.decoded.value, f.name))
  {
  }

  /** An empty PDF is not refused as blank: its fixed notice is handed on instead. */
  lemma EmptyPdfDeliversNotice(f: File, st: UploadState)
    requires f.size <= MaxFileSize && f.mimeType == "application/pdf" && f.decoded == Some([])
    requires !EndsWith(ToLower(f.name), ".txt")
    ensures HandleFile(Some(f), st).delivered == Some(Delivery(PdfFallback, f.name))
  {
    EmptyFileExtraction(f);
  }
}
