/** The Search handler around its call to the search provider: the optional domain filter
    it sends, the citations it builds from the provider's references, and the reply in
    which the first `[k]` of each citation becomes a link. The provider's reply is an
    input. */
module Search {
  import opened Wrappers
  import opened Text
  import opened Types
  import opened Marks
  import opened DomainFilter

  /** `search_domain_filter`: left out of the request (undefined) when the list is empty */
  function FilterParam(domains: seq<string>): (r: Option<seq<string>>)
    ensures r.None? <==> domains == []
    ensures r.Some? ==> r.value == domains
  {
    if |domains| > 0 then Some(domains) else None
  }

  /** The filter the request carries for a `webSource` and `customWebs` */
  function RequestFilter(webSource: string, customWebs: Option<string>): Option<seq<string>> {
    FilterParam(Domains(webSource, customWebs))
  }

  /** No filter is sent for `all`, nor for `custom` without sites; the fixed sources send
      their domain; a list of trimmed, comma-free domains is sent back as that list. */
  lemma RequestFilterCases(webSource: string, customWebs: Option<string>, ds: seq<string>)
    requires |ds| > 0 && Join(ds, ',') != []
    requires forall i :: 0 <= i < |ds| ==> Trimmed(ds[i]) && ',' !in ds[i]
    ensures RequestFilter("all", customWebs) == None
    ensures RequestFilter("custom", None) == None && RequestFilter("custom", Some("")) == None
    ensures RequestFilter("boe", customWebs) == Some(["boe.es"])
    ensures RequestFilter("borne", customWebs) == Some(["borne.gov.uk"])
    ensures RequestFilter("custom", Some(Join(ds, ','))) == Some(ds)
  {
    CustomDomainsRoundTrip(ds);
  }

  /** One entry of the provider's `search_results` or `references`; absent fields are None */
  datatype Reference = Reference(title: Option<string>, text: Option<string>, url: Option<string>)

  /** The fields of the provider's reply the handler reads. `message` is None when
      `data.choices[0].message` cannot be read, and holds the optional content otherwise. */
  datatype Reply = Reply(
    message: Option<Option<string>>,
    searchResults: Option<seq<Reference>>,
    references: Option<seq<Reference>>,
    relatedQuestions: Option<seq<string>>)

  /** `data.search_results || data.references || []`; an array, even an empty one, counts
      as present */
  function ReferencesOf(reply: Reply): (r: seq<Reference>)
    ensures reply.searchResults.Some? ==> r == reply.searchResults.value
    ensures reply.searchResults.None? && reply.references.Some? ==> r == reply.references.value
    ensures reply.searchResults.None? && reply.references.None? ==> r == []
  {
    match reply.searchResults
    case Some(rs) => rs
    case None => reply.references.GetOr([])
  }

  /** `ref.title || ref.text || "Reference " + (index + 1)` */
  function TitleOf(ref: Reference, index: nat): (t: string)
    ensures t != []
    ensures Truthy(ref.title) ==> t == ref.title.value
    ensures !Truthy(ref.title) && Truthy(ref.text) ==> t == ref.text.value
    ensures !Truthy(ref.title) && !Truthy(ref.text) ==> t == "Reference " + Decimal(index + 1)
  {
    if Truthy(ref.title) then ref.title.value
    else if Truthy(ref.text) then ref.text.value
    else "Reference " + Decimal(index + 1)
  }

  /** `references.map(...)`: one citation per reference, in order */
  function CitationsOf(refs: seq<Reference>): (r: seq<Citation>)
    ensures |r| == |refs|
    ensures forall i :: 0 <= i < |r| ==> r[i].title != []
    ensures forall i :: 0 <= i < |r| ==> r[i].url == refs[i].url.GetOr("")
    ensures forall i :: 0 <= i < |r| ==> r[i].title == TitleOf(refs[i], i)
  {
    seq(|refs|, i requires 0 <= i < |refs| => Citation(TitleOf(refs[i], i), refs[i].url.GetOr("")))
  }

  /** A reference with neither title nor text */
  predicate Untitled(ref: Reference) {
    !Truthy(ref.title) && !Truthy(ref.text)
  }

  /** A reference without title or text is named by its position among the references, so
      two such references never share a title. */
  lemma UntitledNamedByPosition(refs: seq<Reference>, i: nat)
    requires i < |refs| && Untitled(refs[i])
    ensures CitationsOf(refs)[i].title == "Reference " + Decimal(i + 1)
    ensures forall j :: 0 <= j < |refs| && j != i && Untitled(refs[j]) ==> CitationsOf(refs)[j].title != CitationsOf(refs)[i].title
  {
    forall j | 0 <= j < |refs| && j != i && Untitled(refs[j])
      ensures CitationsOf(refs)[j].title != CitationsOf(refs)[i].title
    {
      var tj := "Reference " + Decimal(j + 1);
      var ti := "Reference " + Decimal(i + 1);
      if tj == ti {
        assert Decimal(j + 1) == tj[10..] == ti[10..] == Decimal(i + 1);
        DecimalInjective(j + 1, i + 1);
      }
    }
  }

  /** `processedContent` after the `forEach`: the first `[k]` of each citation replaced */
  function Processed(content: string, cs: seq<Citation>): (r: string)
    ensures (forall k :: 1 <= k <= |cs| ==> !ContainsSub(content, Mark(k))) ==> r == content
  {
    NoMarksUnchanged(content, Anchors(cs), |cs|);
    ReplaceEachFirst(content, Anchors(cs), |cs|)
  }

  /** When no citation holds `$` or another citation's mark, the loop rewrites the first
      occurrence of each `[k]`, 1 <= k <= |cs|, into its link in one left-to-right pass and
      leaves later occurrences and all other text as they are. */
  lemma ProcessedIsLinkifyOnce(content: string, cs: seq<Citation>)
    requires forall i :: 0 <= i < |cs| ==> PlainCitation(cs[i], i + 1, |cs|)
    ensures Processed(content, cs) == Linkify(content, Anchors(cs), true, {})
  {
    AnchorsSafe(cs);
    ReplaceEachFirstIsLinkify(content, Anchors(cs), |cs|);
    assert Anchors(cs)[..|cs|] == Anchors(cs);
  }

  const SearchError := "Failed to process search request"

  /** The handler after the provider's reply; the insert error of the database write is
      only logged. Reading a missing message throws; a missing content is passed on when
      there is nothing to replace in it and throws (`replace` on `undefined`) otherwise. */
  function HandleSearch(reply: Reply, insertError: Option<string>): (r: Response)
    ensures r.status == 200 || r == ErrorResponse(SearchError)
  {
    match reply.message
    case None => ErrorResponse(SearchError)
    case Some(content) =>
      var cs := CitationsOf(ReferencesOf(reply));
      if content.None? && |cs| > 0 then ErrorResponse(SearchError)
      else
        var result := if content.Some? then Some(Processed(content.value, cs)) else None;
        Response(200, SearchBody(result, cs, reply.relatedQuestions.GetOr([])))
  }

  /** The reply's `references` are the citations built from the provider's references,
      `related_questions` defaults to the empty list, and the database write does not
      change the reply. */
  lemma HandleSearchReply(reply: Reply, insertError: Option<string>)
    requires reply.message.Some? && reply.message.value.Some?
    ensures var r := HandleSearch(reply, insertError);
      && r.status == 200
      && r.body.SearchBody?
      && r.body.references == CitationsOf(ReferencesOf(reply))
      && |r.body.references| == |ReferencesOf(reply)|
      && (reply.relatedQuestions.None? ==> r.body.relatedQuestions == [])
      && (reply.relatedQuestions.Some? ==> r.body.relatedQuestions == reply.relatedQuestions.value)
      && r.body.searchResult == Some(Processed(reply.message.value.value, r.body.references))
    ensures HandleSearch(reply, insertError) == HandleSearch(reply, None)
  {
  }
}
