/** The browser hook that drives the wizard: navigation between steps, form updates, and
    the submit handler that calls one serverless function per step, stores the result as a
    message and shows it. Each call to a serverless function and the insert into the
    `messages` table are function parameters; the state after a submit is the state once
    every awaited call has settled. */
module DocumentProcessing {
  import opened Wrappers
  import opened Types
  import opened Formatting
  import Text

  /** What `supabase.functions.invoke` hands back: an error with its message, or the data */
  datatype Reply<+T> = ErrorReply(message: string) | DataReply(data: T)

  /** The data of `process-search` the hook reads */
  datatype SearchData = SearchData(result: Option<string>, references: Option<seq<Citation>>)

  /** The data of `process-miniplex`, kept whole as `searchResult` */
  datatype MiniplexData = MiniplexData(result: string, citations: seq<Citation>, relatedQuestions: seq<string>)

  /** The backend as the hook sees it. The three form-driven functions take the query or
      text and the two choices as sent; `document` and `ocr` hand back their `summary` and
      `text` fields, absent when the data lacks them; `insert` takes the content of the
      stored message and returns the message of the insert error, if any. */
  datatype Backend = Backend(
    search: (string, string, string) -> Reply<SearchData>,
    document: (string, string, string) -> Reply<Option<string>>,
    miniplex: (string, string, string) -> Reply<MiniplexData>,
    ocr: UploadedFile -> Reply<Option<string>>,
    insert: Option<string> -> Option<string>)

  /** The hook's state; a chat message is reduced to its content, which is absent when the
      search reply had no result */
  datatype HookState = HookState(
    messages: seq<Option<string>>,
    step: Step,
    form: FormData,
    isProcessing: bool,
    error: Option<string>,
    searchResult: Option<MiniplexData>,
    searchReferences: seq<Citation>,
    isSearching: bool)

  /** The form every session starts from and `initial` resets to */
  const DefaultForm := FormData(PasteDocument, "", General, Quarter, AllWebs, "", "", None)

  const Initial := HookState([], InitialStep, DefaultForm, false, None, None, [], false)

  const Placeholder := "Processing your query..."
  const NoFileMessage := "Please upload a file"
  const DefaultError := "An error occurred while processing the document"

  /** The message of the TypeError thrown when a method is called on an absent field, in
      the wording of the V8 engine (Chromium, Node); other engines word it differently */
  function UndefinedRead(name: string): string {
    "Cannot read properties of undefined (reading '" + name + "')"
  }

  /** `handleNavigate` */
  function Navigate(st: HookState, step: Step): (r: HookState)
    ensures r.step == step
    ensures r == st.(step := step, form := r.form)
  {
    st.(step := step, form := if step == InitialStep then DefaultForm else st.form)
  }

  /** Going back to the start clears the form; going anywhere else keeps it. */
  lemma NavigateForm(st: HookState, step: Step)
    ensures step == InitialStep ==> Navigate(st, step).form == DefaultForm
    ensures step != InitialStep ==> Navigate(st, step).form == st.form
  {
  }

  /** `{ ...prev, ...data }`: each key the patch carries overwrites, the others stay */
  function MergeForm(form: FormData, patch: FormPatch): (r: FormData)
    ensures patch.pastedText.Some? ==> r.pastedText == patch.pastedText.value
    ensures patch.pastedText.None? ==> r.pastedText == form.pastedText
    ensures patch.searchQuery.Some? ==> r.searchQuery == patch.searchQuery.value
    ensures patch.searchQuery.None? ==> r.searchQuery == form.searchQuery
    ensures patch.file.Some? ==> r.file == patch.file.value
    ensures patch.file.None? ==> r.file == form.file
    ensures patch.documentType.Some? ==> r.documentType == patch.documentType.value
    ensures patch.documentType.None? ==> r.documentType == form.documentType
    ensures patch.summaryType.Some? ==> r.summaryType == patch.summaryType.value
    ensures patch.summaryType.None? ==> r.summaryType == form.summaryType
    ensures patch.summarySize.Some? ==> r.summarySize == patch.summarySize.value
    ensures patch.summarySize.None? ==> r.summarySize == form.summarySize
    ensures patch.webSource.Some? ==> r.webSource == patch.webSource.value
    ensures patch.webSource.None? ==> r.webSource == form.webSource
    ensures patch.customWebs.Some? ==> r.customWebs == patch.customWebs.value
    ensures patch.customWebs.None? ==> r.customWebs == form.customWebs
  {
    FormData(
      patch.documentType.GetOr(form.documentType),
      patch.pastedText.GetOr(form.pastedText),
      patch.summaryType.GetOr(form.summaryType),
      patch.summarySize.GetOr(form.summarySize),
      patch.webSource.GetOr(form.webSource),
      patch.searchQuery.GetOr(form.searchQuery),
      patch.customWebs.GetOr(form.customWebs),
      patch.file.GetOr(form.file))
  }

  const EmptyPatch := FormPatch(None, None, None, None, None, None, None, None)

  /** The patch that carries every key of `later` and the keys of `earlier` it does not */
  function Then(earlier: FormPatch, later: FormPatch): FormPatch {
    FormPatch(
      if later.documentType.Some? then later.documentType else earlier.documentType,
      if later.pastedText.Some? then later.pastedText else earlier.pastedText,
      if later.summaryType.Some? then later.summaryType else earlier.summaryType,
      if later.summarySize.Some? then later.summarySize else earlier.summarySize,
      if later.webSource.Some? then later.webSource else earlier.webSource,
      if later.searchQuery.Some? then later.searchQuery else earlier.searchQuery,
      if later.customWebs.Some? then later.customWebs else earlier.customWebs,
      if later.file.Some? then later.file else earlier.file)
  }

  /** The patch that sets every field to the form's value */
  function Whole(form: FormData): FormPatch {
    FormPatch(Some(form.documentType), Some(form.pastedText), Some(form.summaryType),
              Some(form.summarySize), Some(form.webSource), Some(form.searchQuery),
              Some(form.customWebs), Some(form.file))
  }

  /** An empty update changes nothing, an update applied twice is applied once, two updates
      in a row are one combined update, and a whole form replaces the state. */
  lemma MergeFormLaws(form: FormData, p: FormPatch, q: FormPatch, other: FormData)
    ensures MergeForm(form, EmptyPatch) == form
    ensures MergeForm(MergeForm(form, p), p) == MergeForm(form, p)
    ensures MergeForm(MergeForm(form, p), q) == MergeForm(form, Then(p, q))
    ensures MergeForm(form, Whole(other)) == other
  {
  }

  /** `handleFileChange` for the first selected file, if any */
  function FileChange(st: HookState, file: Option<UploadedFile>): (r: HookState)
    ensures r.error == None
    ensures file.Some? ==> r.form.file == file
    ensures file.None? ==> r.form == st.form
    ensures r.form == st.form.(file := r.form.file)
    ensures r == st.(error := None, form := r.form)
  {
    var st1 := st.(error := None);
    if file.Some? then st1.(form := st1.form.(file := file)) else st1
  }

  /** The state after a step's handler, with the message of the error it threw, if any */
  datatype Outcome = Outcome(state: HookState, thrown: Option<string>)

  /** `handleSearchSubmit`: the placeholder and the processing step come first, whatever
      the reply; the references of a reply are shown even when storing its result fails */
  function SearchSubmit(st: HookState, b: Backend): (o: Outcome)
    ensures o.state.form == st.form && o.state.step == ProcessingStep && o.state.isSearching
    ensures var reply := b.search(st.form.searchQuery, WebSourceName(st.form.webSource), st.form.customWebs);
      && (reply.ErrorReply? ==> o.thrown == Some(reply.message) && o.state.searchReferences == [])
      && (reply.DataReply? ==> o.state.searchReferences == reply.data.references.GetOr([]))
      && (o.thrown.None? <==> reply.DataReply? && b.insert(reply.data.result).None?)
      && (o.thrown.None? ==> o.state.messages == [reply.data.result])
      && (o.thrown.Some? ==> o.state.messages == [Some(Placeholder)])
  {
    var form := st.form;
    var st1 := st.(isSearching := true, searchReferences := [], step := ProcessingStep,
                   messages := [Some(Placeholder)]);
    match b.search(form.searchQuery, WebSourceName(form.webSource), form.customWebs)
    case ErrorReply(m) => Outcome(st1, Some(m))
    case DataReply(d) =>
      var st2 := if d.references.Some? then st1.(searchReferences := d.references.value) else st1;
      match b.insert(d.result)
      case Some(e) => Outcome(st2, Some(e))
      case None => Outcome(st2.(messages := [d.result]), None)
  }

  /** The content stored for a summary reply: the formatted summary, or none when the
      reply has no summary and the type is general (bullets call `startsWith` on it) */
  function SummaryContent(summaryType: SummaryType, summary: Option<string>): Option<string>
    requires summary.Some? || summaryType == General
  {
    if summary.Some? then Some(FormatSummary(summaryType, summary.value)) else None
  }

  /** `handleSummarySubmit`: only the messages can change, and only by one appended message
      that the insert accepted */
  function SummarySubmit(st: HookState, b: Backend): (o: Outcome)
    ensures o.state == st.(messages := o.state.messages)
    ensures o.thrown.Some? ==> o.state == st
    ensures o.thrown.None? ==>
      && |o.state.messages| == |st.messages| + 1
      && o.state.messages[..|st.messages|] == st.messages
      && b.insert(o.state.messages[|st.messages|]).None?
    ensures var reply := b.document(st.form.pastedText, SummaryTypeName(st.form.summaryType), SummarySizeName(st.form.summarySize));
      && (reply.ErrorReply? ==> o.thrown == Some(reply.message))
      && (reply.DataReply? && reply.data.None? && st.form.summaryType == Bullets ==>
            o.thrown == Some(UndefinedRead("startsWith")))
      && (o.thrown.None? ==>
            && reply.DataReply?
            && (reply.data.Some? || st.form.summaryType == General)
            && o.state.messages[|st.messages|] == SummaryContent(st.form.summaryType, reply.data))
  {
    var form := st.form;
    match b.document(form.pastedText, SummaryTypeName(form.summaryType), SummarySizeName(form.summarySize))
    case ErrorReply(m) => Outcome(st, Some(m))
    case DataReply(summary) =>
      if summary.None? && form.summaryType == Bullets then Outcome(st, Some(UndefinedRead("startsWith")))
      else
        var content := SummaryContent(form.summaryType, summary);
        match b.insert(content)
        case Some(e) => Outcome(st, Some(e))
        case None => Outcome(st.(messages := st.messages + [content]), None)
  }

  /** `handleMiniplexSubmit`: the reply's data becomes the search result before it is
      stored; otherwise only one accepted message is appended */
  function MiniplexSubmit(st: HookState, b: Backend): (o: Outcome)
    ensures o.state == st.(searchResult := o.state.searchResult, messages := o.state.messages)
    ensures var reply := b.miniplex(st.form.searchQuery, WebSourceName(st.form.webSource), st.form.customWebs);
      && (reply.ErrorReply? ==> o == Outcome(st, Some(reply.message)))
      && (reply.DataReply? ==> o.state.searchResult == Some(reply.data))
      && (o.thrown.Some? ==> o.state.messages == st.messages)
      && (o.thrown.None? <==> reply.DataReply? && b.insert(Some(reply.data.result)).None?)
      && (o.thrown.None? ==> o.state.messages == st.messages + [Some(reply.data.result)])
  {
    var form := st.form;
    match b.miniplex(form.searchQuery, WebSourceName(form.webSource), form.customWebs)
    case ErrorReply(m) => Outcome(st, Some(m))
    case DataReply(d) =>
      var st1 := st.(searchResult := Some(d));
      match b.insert(Some(d.result))
      case Some(e) => Outcome(st1, Some(e))
      case None => Outcome(st1.(messages := st1.messages + [Some(d.result)]), None)
  }

  /** `handleOcrSubmit`: without a file nothing is sent; a failure changes nothing; a
      success appends one accepted message no longer than the extracted text */
  function OcrSubmit(st: HookState, b: Backend): (o: Outcome)
    ensures st.form.file.None? ==> o == Outcome(st, Some(NoFileMessage))
    ensures o.thrown.Some? ==> o.state == st
    ensures o.thrown.None? ==> st.form.file.Some? && o.state == st.(messages := o.state.messages)
    ensures o.thrown.None? ==> var reply := b.ocr(st.form.file.value);
      && reply.DataReply? && reply.data.Some?
      && |o.state.messages| == |st.messages| + 1
      && o.state.messages[..|st.messages|] == st.messages
      && o.state.messages[|st.messages|] == Some(StripFences(reply.data.value))
      && b.insert(o.state.messages[|st.messages|]).None?
    ensures st.form.file.Some? && b.ocr(st.form.file.value) == DataReply(None) ==>
      o.thrown == Some(UndefinedRead("replace"))
  {
    match st.form.file
    case None => Outcome(st, Some(NoFileMessage))
    case Some(f) =>
      match b.ocr(f)
      case ErrorReply(m) => Outcome(st, Some(m))
      case DataReply(None) => Outcome(st, Some(UndefinedRead("replace")))
      case DataReply(Some(text)) =>
        var clean := StripFences(text);
        match b.insert(Some(clean))
        case Some(e) => Outcome(st, Some(e))
        case None => Outcome(st.(messages := st.messages + [Some(clean)]), None)
  }

  /** The steps that have a handler */
  predicate Submits(step: Step) {
    step in {SearchStep, SummaryStep, MiniplexStep, OcrStep}
  }

  /** The handler's outcome once the submit has reset the error and the messages: the form
      is never changed, and a step without a handler throws nothing and calls nothing */
  function Dispatch(st: HookState, b: Backend): (o: Outcome)
    ensures o.state.form == st.form
    ensures !Submits(st.step) ==> o == Outcome(st.(error := None, isProcessing := true, messages := []), None)
    ensures st.step != SearchStep ==> o.state.step == st.step
  {
    var st0 := st.(error := None, isProcessing := true, messages := []);
    match st.step
    case SearchStep => SearchSubmit(st0, b)
    case SummaryStep => SummarySubmit(st0, b)
    case MiniplexStep => MiniplexSubmit(st0, b)
    case OcrStep => OcrSubmit(st0, b)
    case _ => Outcome(st0, None)
  }

  /** `handleSubmit`: the thrown message, or the default one when it is empty, becomes the
      error; the flags are cleared whatever happened */
  function Submit(st: HookState, b: Backend): (r: HookState)
    ensures !r.isProcessing && !r.isSearching
    ensures r.form == st.form
    ensures r.error.Some? ==> r.error.value != []
    ensures !Submits(st.step) ==> r.error == None && r.messages == [] && r.step == st.step
  {
    var o := Dispatch(st, b);
    var st1 :=
      match o.thrown
      case Some(m) =>
        o.state.(error := Some(if m != [] then m else DefaultError),
                 step := if st.step == OcrStep then OcrStep else o.state.step)
      case None => o.state;
    st1.(isProcessing := false, isSearching := false)
  }

  /** The error shown after a submit is exactly the message the handler threw, or the
      default message when that was empty; no error means nothing was thrown. */
  lemma SubmitError(st: HookState, b: Backend)
    ensures Submit(st, b).error.None? <==> Dispatch(st, b).thrown.None?
    ensures Dispatch(st, b).thrown == Some([]) ==> Submit(st, b).error == Some(DefaultError)
    ensures Dispatch(st, b).thrown.Some? && Dispatch(st, b).thrown.value != [] ==>
      Submit(st, b).error == Dispatch(st, b).thrown
  {
  }

  /** A successful submit on a step with a handler shows one message, and that message is
      the content that was stored. */
  lemma ShownIsStored(st: HookState, b: Backend)
    requires Submits(st.step)
    requires Submit(st, b).error.None?
    ensures |Submit(st, b).messages| == 1
    ensures b.insert(Submit(st, b).messages[0]).None?
  {
  }

  /** The OCR step without a file fails with its message before anything is sent, and
      stays on the OCR step. */
  lemma OcrNeedsFile(st: HookState, b1: Backend, b2: Backend)
    requires st.step == OcrStep && st.form.file.None?
    ensures Submit(st, b1) == Submit(st, b2)
    ensures Submit(st, b1).error == Some(NoFileMessage)
    ensures Submit(st, b1).step == OcrStep && Submit(st, b1).messages == []
  {
  }

  /** Steps without a handler make no call: the submit only clears the messages. */
  lemma IdleSteps(st: HookState, b1: Backend, b2: Backend)
    requires !Submits(st.step)
    ensures Submit(st, b1) == Submit(st, b2)
    ensures Submit(st, b1) == st.(messages := [], error := None, isProcessing := false, isSearching := false)
  {
  }

  /** A summary is shown formatted: a bullet summary as the list built from its lines. */
  lemma SummaryShown(st: HookState, b: Backend)
    requires st.step == SummaryStep
    requires var form := st.form;
      var reply := b.document(form.pastedText, SummaryTypeName(form.summaryType), SummarySizeName(form.summarySize));
      reply.DataReply? && reply.data.Some?
    requires Submit(st, b).error.None?
    ensures var form := st.form;
      var summary := b.document(form.pastedText, SummaryTypeName(form.summaryType), SummarySizeName(form.summarySize)).data.value;
      Submit(st, b).messages == [Some(FormatSummary(form.summaryType, summary))]
  {
  }

  /** A reply without a summary fails with a TypeError for bullet summaries; a general
      summary stores and shows the missing content. */
  lemma SummaryMissing(st: HookState, b: Backend)
    requires st.step == SummaryStep
    requires var form := st.form;
      b.document(form.pastedText, SummaryTypeName(form.summaryType), SummarySizeName(form.summarySize)) == DataReply(None)
    ensures st.form.summaryType == Bullets ==>
      Submit(st, b).error == Some(UndefinedRead("startsWith")) && Submit(st, b).messages == []
    ensures st.form.summaryType == General && b.insert(None).None? ==>
      Submit(st, b).error == None && Submit(st, b).messages == [None]
  {
  }

  /** A search moves to the processing step with its placeholder before the call; when the
      call fails, both stay, and the references are left empty. */
  lemma SearchFailureStays(st: HookState, b: Backend)
    requires st.step == SearchStep
    requires b.search(st.form.searchQuery, WebSourceName(st.form.webSource), st.form.customWebs).ErrorReply?
    ensures var r := Submit(st, b);
      && r.step == ProcessingStep
      && r.messages == [Some(Placeholder)]
      && r.searchReferences == []
      && r.error.Some?
  {
  }

  /** A successful search replaces its placeholder by the result and shows the references
      of the reply, or none when the reply carries none. */
  lemma SearchShown(st: HookState, b: Backend)
    requires st.step == SearchStep
    requires var reply := b.search(st.form.searchQuery, WebSourceName(st.form.webSource), st.form.customWebs);
      reply.DataReply? && b.insert(reply.data.result).None?
    ensures var d := b.search(st.form.searchQuery, WebSourceName(st.form.webSource), st.form.customWebs).data;
      var r := Submit(st, b);
      && r.error == None
      && r.step == ProcessingStep
      && r.messages == [d.result]
      && r.searchReferences == d.references.GetOr([])
  {
  }

  /** MiniPlex data is kept as the search result even when storing its message fails. */
  lemma MiniplexResultKept(st: HookState, b: Backend)
    requires st.step == MiniplexStep
    requires b.miniplex(st.form.searchQuery, WebSourceName(st.form.webSource), st.form.customWebs).DataReply?
    ensures Submit(st, b).searchResult
      == Some(b.miniplex(st.form.searchQuery, WebSourceName(st.form.webSource), st.form.customWebs).data)
  {
  }

  /** OCR text wrapped in an ```html fence is shown without the fence. */
  lemma OcrShown(st: HookState, b: Backend, w1: string, body: string, w2: string)
    requires st.step == OcrStep && st.form.file.Some?
    requires Text.AllSpace(w1) && Text.AllSpace(w2) && Text.Trimmed(body)
    requires b.ocr(st.form.file.value) == DataReply(Some("```html" + w1 + body + w2 + "```"))
    requires b.insert(Some(body)).None?
    ensures Submit(st, b).messages == [Some(body)] && Submit(st, b).error == None
  {
    StripFencesRoundTrip(w1, body, w2);
  }
}
