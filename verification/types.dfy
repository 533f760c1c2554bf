/** The records shared by the browser hook and the serverless handlers: the form the user
    fills, the wizard steps, citations, and the JSON responses the handlers send back. */
module Types {
  import opened Wrappers

  /** JavaScript truthiness of an optional string: present and not empty */
  predicate Truthy(s: Option<string>) {
    s.Some? && s.value != []
  }

  /** The screens of the wizard */
  datatype Step = InitialStep | SummaryStep | SearchStep | MiniplexStep | OcrStep | ProcessingStep

  datatype DocumentType = UrlDocument | FileDocument | PasteDocument

  datatype SummaryType = Bullets | General

  datatype SummarySize = Quarter | Half | Full

  datatype WebSource = AllWebs | Boe | Borne | CustomWebs

  /** The browser `File` object, reduced to what the handlers read from it */
  datatype UploadedFile = UploadedFile(name: string, mimeType: string)

  /** The form state of the wizard; `file` is `null` until a file is chosen */
  datatype FormData = FormData(
    documentType: DocumentType,
    pastedText: string,
    summaryType: SummaryType,
    summarySize: SummarySize,
    webSource: WebSource,
    searchQuery: string,
    customWebs: string,
    file: Option<UploadedFile>)

  /** A `Partial<DocumentFormData>`: None marks a key the update does not carry */
  datatype FormPatch = FormPatch(
    documentType: Option<DocumentType>,
    pastedText: Option<string>,
    summaryType: Option<SummaryType>,
    summarySize: Option<SummarySize>,
    webSource: Option<WebSource>,
    searchQuery: Option<string>,
    customWebs: Option<string>,
    file: Option<Option<UploadedFile>>)

  /** The string each web-source choice is sent as */
  function WebSourceName(w: WebSource): string {
    match w
    case AllWebs => "all"
    case Boe => "boe"
    case Borne => "borne"
    case CustomWebs => "custom"
  }

  /** The string each summary type is sent as */
  function SummaryTypeName(t: SummaryType): string {
    match t
    case Bullets => "bullets"
    case General => "general"
  }

  /** The string each summary size is sent as */
  function SummarySizeName(z: SummarySize): string {
    match z
    case Quarter => "quarter"
    case Half => "half"
    case Full => "full"
  }

  /** A `{title, url}` record as both search handlers return it */
  datatype Citation = Citation(title: string, url: string)

  /** The JSON bodies the handlers send; Search passes the provider's text on unchecked,
      so its `result` may be absent */
  datatype Body =
    | MiniplexBody(result: string, citations: seq<Citation>, questions: seq<string>)
    | SearchBody(searchResult: Option<string>, references: seq<Citation>, relatedQuestions: seq<string>)
    | SummaryBody(summary: string)
    | TextBody(text: string)
    | ErrorBody(error: string)

  datatype Response = Response(status: int, body: Body)

  /** A thrown `Error` turned into the handlers' `500 {error: message}` reply */
  function ErrorResponse(message: string): (r: Response)
    ensures r.status == 500 && r.body == ErrorBody(message)
  {
    Response(500, ErrorBody(message))
  }
}
