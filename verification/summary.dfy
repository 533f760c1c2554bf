/** The document-summary handler: the system prompt built from the summary type and size,
    the guard on the API key, and the reply built from the completion. The completion
    service is a function parameter, so "no request is made" is stated as "the reply does
    not depend on the service". */
module Summary {
  import opened Wrappers
  import opened Types

  const BulletOpening := "Create a bullet-point summary"
  const GeneralOpening := "Write a comprehensive summary"
  const PromptMiddle := " of the following text. "
  const QuarterSentence := "Keep it very concise."
  const HalfSentence := "Provide a moderate level of detail."
  const FullSentence := "Include all important details."

  /** The opening chosen by `summaryType === 'bullets'` */
  function Opening(summaryType: string): string {
    if summaryType == "bullets" then BulletOpening else GeneralOpening
  }

  /** What the `switch` appends: one sentence per known size, nothing for any other value */
  function SizeSentence(summarySize: string): string {
    if summarySize == "quarter" then QuarterSentence
    else if summarySize == "half" then HalfSentence
    else if summarySize == "full" then FullSentence
    else ""
  }

  /** The system prompt */
  function Prompt(summaryType: string, summarySize: string): (p: string)
    ensures |p| >= |BulletOpening| + |PromptMiddle|
    ensures |p| == |BulletOpening| + |PromptMiddle| <==> summarySize !in {"quarter", "half", "full"}
  {
    Opening(summaryType) + PromptMiddle + SizeSentence(summarySize)
  }

  /** The prompt begins with the bullet opening exactly for `bullets` and with the general
      opening otherwise, followed in both cases by " of the following text. ". */
  lemma PromptOpening(summaryType: string, summarySize: string)
    ensures var p := Prompt(summaryType, summarySize);
      && (p[..29] == BulletOpening <==> summaryType == "bullets")
      && (p[..29] == GeneralOpening <==> summaryType != "bullets")
      && p[29..53] == PromptMiddle
  {
    var p := Prompt(summaryType, summarySize);
    assert |BulletOpening| == 29 && |GeneralOpening| == 29 && |PromptMiddle| == 24;
    assert p[..29] == Opening(summaryType);
    assert p[29..53] == PromptMiddle;
    assert BulletOpening[0] != GeneralOpening[0];
  }

  /** The size sentence ends the prompt; known sizes give three different sentences and any
      other size gives the bare opening. */
  lemma PromptSize(summaryType: string, summarySize: string)
    ensures var p := Prompt(summaryType, summarySize);
      && p[53..] == SizeSentence(summarySize)
      && (summarySize == "quarter" ==> p[53..] == "Keep it very concise.")
      && (summarySize == "half" ==> p[53..] == "Provide a moderate level of detail.")
      && (summarySize == "full" ==> p[53..] == "Include all important details.")
      && (summarySize !in {"quarter", "half", "full"} ==> |p| == 53)
  {
    var p := Prompt(summaryType, summarySize);
    assert |Opening(summaryType) + PromptMiddle| == 53;
    assert p[53..] == SizeSentence(summarySize);
  }

  /** The prompt tells apart every choice the form offers: equal prompts mean the same
      summary type and the same size. */
  lemma PromptInjective(t1: SummaryType, z1: SummarySize, t2: SummaryType, z2: SummarySize)
    requires Prompt(SummaryTypeName(t1), SummarySizeName(z1)) == Prompt(SummaryTypeName(t2), SummarySizeName(z2))
    ensures t1 == t2 && z1 == z2
  {
    var p1 := Prompt(SummaryTypeName(t1), SummarySizeName(z1));
    PromptOpening(SummaryTypeName(t1), SummarySizeName(z1));
    PromptOpening(SummaryTypeName(t2), SummarySizeName(z2));
    PromptSize(SummaryTypeName(t1), SummarySizeName(z1));
    PromptSize(SummaryTypeName(t2), SummarySizeName(z2));
    assert SummaryTypeName(t1) == "bullets" <==> t1 == Bullets;
    assert SummaryTypeName(t2) == "bullets" <==> t2 == Bullets;
    assert QuarterSentence[0] != HalfSentence[0] && QuarterSentence[0] != FullSentence[0];
    assert HalfSentence[0] != FullSentence[0];
  }

  /** The outcome of the completion request: an HTTP error, an error thrown on the way (by
      `fetch`, by `response.json()` or by reading `data.choices[0]`) with its message, or
      the optional `choices[0].message.content` */
  datatype Completion = Rejected | Threw(message: string) | Completed(content: Option<string>)

  const KeyMissing := "OPENAI_API_KEY is not set"
  const SummaryFailed := "Failed to generate summary"
  const NoSummary := "Unable to generate summary"

  /** The handler: `complete(prompt, text)` is the call to the completion service */
  function HandleDocument(apiKey: Option<string>, text: string, summaryType: string, summarySize: string,
                          complete: (string, string) -> Completion): (r: Response)
    ensures !Truthy(apiKey) ==> r == ErrorResponse(KeyMissing)
    ensures Truthy(apiKey) && complete(Prompt(summaryType, summarySize), text).Rejected? ==> r == ErrorResponse(SummaryFailed)
    ensures Truthy(apiKey) && complete(Prompt(summaryType, summarySize), text).Threw? ==>
      r == ErrorResponse(complete(Prompt(summaryType, summarySize), text).message)
    ensures r.status == 200 <==> Truthy(apiKey) && complete(Prompt(summaryType, summarySize), text).Completed?
    ensures r.status == 200 ==> r.body.SummaryBody? && r.body.summary != []
  {
    if !Truthy(apiKey) then ErrorResponse(KeyMissing)
    else
      match complete(Prompt(summaryType, summarySize), text)
      case Rejected => ErrorResponse(SummaryFailed)
      case Threw(m) => ErrorResponse(m)
      case Completed(content) =>
        Response(200, SummaryBody(if Truthy(content) then content.value else NoSummary))
  }

  /** Without a key the reply does not depend on the completion service: the guard comes
      before any request. */
  lemma KeyCheckedFirst(text: string, summaryType: string, summarySize: string,
                        c1: (string, string) -> Completion, c2: (string, string) -> Completion)
    ensures HandleDocument(None, text, summaryType, summarySize, c1)
      == HandleDocument(None, text, summaryType, summarySize, c2)
    ensures HandleDocument(Some(""), text, summaryType, summarySize, c1)
      == HandleDocument(None, text, summaryType, summarySize, c2)
  {
  }

  /** A completion without content yields the fallback summary; one with content yields it. */
  lemma SummaryFallback(key: string, text: string, summaryType: string, summarySize: string,
                        complete: (string, string) -> Completion)
    requires key != [] && complete(Prompt(summaryType, summarySize), text).Completed?
    ensures var content := complete(Prompt(summaryType, summarySize), text).content;
      HandleDocument(Some(key), text, summaryType, summarySize, complete)
        == Response(200, SummaryBody(if content.None? || content.value == [] then NoSummary else content.value))
  {
  }
}
