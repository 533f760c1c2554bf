/** The post-processing of the MiniPlex handler: the citations found in the model's answer,
    de-duplicated by url, and the answer with every mark `[k]` turned into a link to the
    k-th citation. The chat completion itself is an input. */
module Miniplex {
  import opened Wrappers
  import opened Text
  import opened Types
  import opened CitationRegex
  import opened Marks
  import opened RelatedQuestions

  /** A number and url as one iteration of the `exec` loop reads them */
  datatype Found = Found(number: string, url: string)

  /** The citation pushed for a url seen for the first time */
  function Cite(f: Found): (c: Citation)
    ensures c.url == f.url && c.title == "Source " + f.number
  {
    Citation("Source " + f.number, f.url)
  }

  /** The loop body before the dedup test: `match[1]` and the inner url match, whose `[0]`
      throws when that match is `null` */
  function Collect(s: string, ms: seq<RawMatch>): (r: Result<seq<Found>>)
    requires forall k :: 0 <= k < |ms| ==> ValidMatch(s, ms[k])
  {
    if ms == [] then Success([])
    else
      assert ValidMatch(s, ms[0]);
      match FirstUrl(s[ms[0].start..ms[0].end], 0)
      case None => Failure("Cannot read properties of null (reading '0')")
      case Some(u) =>
        var rest :- Collect(s, ms[1..]);
        Success([Found(Number(s, ms[0]), u)] + rest)
  }

  /** The inner match never fails: each found url is the one its outer match ended with. */
  lemma {:induction false} CollectSucceeds(s: string, ms: seq<RawMatch>)
    requires forall k :: 0 <= k < |ms| ==> ValidMatch(s, ms[k])
    ensures Collect(s, ms).Success?
    ensures |Collect(s, ms).value| == |ms|
    ensures forall k :: 0 <= k < |ms| ==>
      Collect(s, ms).value[k] == Found(Number(s, ms[k]), OuterUrl(s, ms[k]))
  {
    if ms != [] {
      InnerUrlIsOuter(s, ms[0]);
      CollectSucceeds(s, ms[1..]);
    }
  }

  function Urls(fs: seq<Found>): set<string> {
    set k | 0 <= k < |fs| :: fs[k].url
  }

  function CitationUrls(cs: seq<Citation>): set<string> {
    set k | 0 <= k < |cs| :: cs[k].url
  }

  predicate DistinctUrls(cs: seq<Citation>) {
    forall i, j :: 0 <= i < j < |cs| ==> cs[i].url != cs[j].url
  }

  /** The dedup of the `exec` loop: `citationUrls` is `seen`; a url already in it adds
      nothing, a new one adds its citation and joins the set. */
  function Dedup(fs: seq<Found>, seen: set<string>): (r: seq<Citation>)
    ensures DistinctUrls(r)
    ensures CitationUrls(r) == Urls(fs) - seen
  {
    if fs == [] then []
    else
      var rest := Dedup(fs[1..], if fs[0].url in seen then seen else seen + {fs[0].url});
      assert Urls(fs) == {fs[0].url} + Urls(fs[1..]) by {
        assert forall k :: 0 < k < |fs| ==> fs[k].url == fs[1..][k - 1].url;
      }
      if fs[0].url in seen then rest
      else
        var r := [Cite(fs[0])] + rest;
        assert forall k :: 0 < k < |r| ==> r[k] == rest[k - 1];
        assert CitationUrls(r) == {fs[0].url} + CitationUrls(rest) by {
          assert r[0].url == fs[0].url;
          assert forall k :: 0 <= k < |rest| ==> r[k + 1] == rest[k];
        }
        r
  }

  /** The reference reading of "keep first occurrences": the last entry survives exactly
      when no earlier entry has its url. */
  function KeepFirsts(fs: seq<Found>): seq<Citation> {
    if fs == [] then []
    else
      var init := fs[..|fs| - 1];
      KeepFirsts(init) + (if fs[|fs| - 1].url in Urls(init) then [] else [Cite(fs[|fs| - 1])])
  }

  lemma {:induction false} DedupAfter(ps: seq<Found>, qs: seq<Found>)
    ensures KeepFirsts(ps + qs) == KeepFirsts(ps) + Dedup(qs, Urls(ps))
    decreases |qs|
  {
    if qs == [] {
      assert ps + qs == ps;
    } else {
      var x := qs[0];
      var ps' := ps + [x];
      assert ps + qs == ps' + qs[1..];
      UrlsSnoc(ps, x);
      KeepFirstsSnoc(ps, x);
      DedupCons(qs, Urls(ps));
      DedupAfter(ps', qs[1..]);
    }
  }

  lemma UrlsSnoc(ps: seq<Found>, x: Found)
    ensures Urls(ps + [x]) == Urls(ps) + {x.url}
  {
    var ps' := ps + [x];
    assert forall k :: 0 <= k < |ps| ==> ps'[k] == ps[k];
    assert ps'[|ps|] == x;
  }

  /** The reference decides the last entry on its own. */
  lemma KeepFirstsSnoc(ps: seq<Found>, x: Found)
    ensures KeepFirsts(ps + [x]) == KeepFirsts(ps) + (if x.url in Urls(ps) then [] else [Cite(x)])
  {
    assert (ps + [x])[..|ps|] == ps;
  }

  /** The loop decides the first entry, then goes on with the rest. */
  lemma DedupCons(qs: seq<Found>, seen: set<string>)
    requires qs != []
    ensures Dedup(qs, seen)
         == (if qs[0].url in seen then [] else [Cite(qs[0])]) + Dedup(qs[1..], seen + {qs[0].url})
  {
    if qs[0].url in seen {
      assert seen + {qs[0].url} == seen;
    }
  }

  /** The loop keeps exactly the first occurrence of each url, in order. */
  lemma DedupKeepsFirsts(fs: seq<Found>)
    ensures Dedup(fs, {}) == KeepFirsts(fs)
  {
    assert [] + fs == fs;
    DedupAfter([], fs);
    assert Urls([]) == {};
  }

  /** A url that was already found adds no citation. */
  lemma RepeatAddsNothing(fs: seq<Found>, x: Found)
    requires x.url in Urls(fs)
    ensures Dedup(fs + [x], {}) == Dedup(fs, {})
  {
    DedupKeepsFirsts(fs + [x]);
    DedupKeepsFirsts(fs);
    assert (fs + [x])[..|fs|] == fs;
  }

  /** No entry before the j-th has its url. */
  predicate FirstOfUrl(fs: seq<Found>, j: nat)
    requires j < |fs|
  {
    forall q :: 0 <= q < j ==> fs[q].url != fs[j].url
  }

  /** Every kept citation comes from the first entry with its url. */
  lemma {:induction false} KeepFirstsOrigin(fs: seq<Found>, i: nat)
    requires i < |KeepFirsts(fs)|
    ensures exists j :: 0 <= j < |fs| && KeepFirsts(fs)[i] == Cite(fs[j]) && FirstOfUrl(fs, j)
  {
    var init := fs[..|fs| - 1];
    var last := fs[|fs| - 1];
    if i < |KeepFirsts(init)| {
      KeepFirstsOrigin(init, i);
      var j :| 0 <= j < |init| && KeepFirsts(init)[i] == Cite(init[j]) && FirstOfUrl(init, j);
      assert fs[j] == init[j];
      assert forall q :: 0 <= q < j ==> fs[q] == init[q];
    } else {
      assert KeepFirsts(fs)[i] == Cite(last);
      assert forall q :: 0 <= q < |fs| - 1 ==> fs[q].url != last.url by {
        assert forall q :: 0 <= q < |fs| - 1 ==> fs[q] == init[q];
      }
    }
  }

  /** The citations of an answer, in order of first appearance of their urls */
  function ExtractCitations(content: string): (r: Result<seq<Citation>>)
    ensures r.Success? ==> DistinctUrls(r.value)
  {
    var found :- Collect(content, Scan(content, 0));
    Success(Dedup(found, {}))
  }

  /** Extraction never throws; its citations are those of the matches, first url wins. */
  lemma ExtractCitationsFound(content: string)
    ensures ExtractCitations(content).Success?
    ensures ExtractCitations(content).value == KeepFirsts(Collect(content, Scan(content, 0)).value)
    ensures DistinctUrls(ExtractCitations(content).value)
  {
    var ms := Scan(content, 0);
    CollectSucceeds(content, ms);
    DedupKeepsFirsts(Collect(content, ms).value);
  }

  /** No match before the j-th ends with its url. */
  predicate FirstMatchOfUrl(s: string, ms: seq<RawMatch>, j: nat)
    requires forall k :: 0 <= k < |ms| ==> ValidMatch(s, ms[k])
    requires j < |ms|
  {
    forall q :: 0 <= q < j ==> OuterUrl(s, ms[q]) != OuterUrl(s, ms[j])
  }

  lemma MatchOrigin(s: string, ms: seq<RawMatch>, fs: seq<Found>, i: nat)
    requires forall k :: 0 <= k < |ms| ==> ValidMatch(s, ms[k])
    requires |fs| == |ms|
    requires forall k :: 0 <= k < |ms| ==> fs[k] == Found(Number(s, ms[k]), OuterUrl(s, ms[k]))
    requires i < |KeepFirsts(fs)|
    ensures exists j :: (0 <= j < |ms| && FirstMatchOfUrl(s, ms, j)
      && KeepFirsts(fs)[i] == Citation("Source " + Number(s, ms[j]), OuterUrl(s, ms[j])))
  {
    KeepFirstsOrigin(fs, i);
    var j :| 0 <= j < |fs| && KeepFirsts(fs)[i] == Cite(fs[j]) && FirstOfUrl(fs, j);
    forall q | 0 <= q < j
      ensures OuterUrl(s, ms[q]) != OuterUrl(s, ms[j])
    {
      assert fs[q].url == OuterUrl(s, ms[q]);
    }
    assert FirstMatchOfUrl(s, ms, j);
  }

  /** Each citation is titled with the digits of a match and links that match's url, and
      no earlier match has that url. */
  lemma CitationOrigin(content: string, i: nat)
    requires ExtractCitations(content).Success? && i < |ExtractCitations(content).value|
    ensures var ms := Scan(content, 0);
      exists j :: (0 <= j < |ms| && FirstMatchOfUrl(content, ms, j)
        && ExtractCitations(content).value[i] == Citation("Source " + Number(content, ms[j]), OuterUrl(content, ms[j])))
  {
    var ms := Scan(content, 0);
    CollectSucceeds(content, ms);
    ExtractCitationsFound(content);
    MatchOrigin(content, ms, Collect(content, ms).value, i);
  }

  /** `processedContent` after the `forEach` over the citations */
  function Processed(content: string, cs: seq<Citation>): (r: string)
    ensures (forall k :: 1 <= k <= |cs| ==> !ContainsSub(content, Mark(k))) ==> r == content
  {
    NoMarksUnchanged(content, Anchors(cs), |cs|);
    ReplaceEachAll(content, Anchors(cs), |cs|)
  }

  /** Titles of the form `Source <digits>` hold neither `$` nor a mark. */
  lemma SourceTitlePlain(d: string, j: nat)
    requires AllDigits(d)
    ensures '$' !in "Source " + d
    ensures !ContainsSub("Source " + d, Mark(j))
  {
    var t := "Source " + d;
    assert forall i :: 7 <= i < |t| ==> t[i] == d[i - 7];
    assert '[' !in t;
    MissingCharNoSub(t, Mark(j), '[');
  }

  /** Urls (no `]`) cannot hold a mark. */
  lemma UrlNoMark(u: string, j: nat)
    requires ']' !in u
    ensures !ContainsSub(u, Mark(j))
  {
    var p := Mark(j);
    assert p[|p| - 1] == ']';
    MissingCharNoSub(u, p, ']');
  }

  /** The citations the handler builds are safe to link whenever no url holds a `$`. */
  lemma ExtractedPlain(content: string, i: nat)
    requires ExtractCitations(content).Success? && i < |ExtractCitations(content).value|
    requires '$' !in ExtractCitations(content).value[i].url
    ensures PlainCitation(ExtractCitations(content).value[i], i + 1, |ExtractCitations(content).value|)
  {
    var cs := ExtractCitations(content).value;
    var ms := Scan(content, 0);
    CitationOrigin(content, i);
    var j :| 0 <= j < |ms| && cs[i] == Citation("Source " + Number(content, ms[j]), OuterUrl(content, ms[j]));
    var u := OuterUrl(content, ms[j]);
    assert ']' !in u by {
      assert forall k :: 0 <= k < |u| ==> IsUrlChar(u[k]);
    }
    forall k | 1 <= k <= |cs| && k != i + 1
      ensures !ContainsSub(cs[i].url, Mark(k)) && !ContainsSub(cs[i].title, Mark(k))
    {
      UrlNoMark(u, k);
      SourceTitlePlain(Number(content, ms[j]), k);
    }
    SourceTitlePlain(Number(content, ms[j]), 0);
  }

  /** The handler's loop rewrites every `[k]`, 1 <= k <= |citations|, into the link of the
      k-th citation in one left-to-right pass, whatever number the citation was found next
      to, and leaves every other text (marks above |citations| included) as it is, provided
      no url holds a `$`. */
  lemma ProcessedIsLinkify(content: string)
    requires ExtractCitations(content).Success?
    requires forall i :: 0 <= i < |ExtractCitations(content).value| ==> '$' !in ExtractCitations(content).value[i].url
    ensures Processed(content, ExtractCitations(content).value)
      == Linkify(content, Anchors(ExtractCitations(content).value), false, {})
  {
    var cs := ExtractCitations(content).value;
    forall i | 0 <= i < |cs|
      ensures PlainCitation(cs[i], i + 1, |cs|)
    {
      ExtractedPlain(content, i);
    }
    AnchorsSafe(cs);
    ReplaceEachAllIsLinkify(content, Anchors(cs), |cs|);
    assert Anchors(cs)[..|cs|] == Anchors(cs);
  }

  /** The error every thrown exception of the handler becomes */
  const MiniplexError := "Failed to process MiniPlex search request"

  /** The handler after the chat completion: `content` is `data.choices[0].message.content`,
      None when the reply lacks it (reading it, or splitting it, throws); the insert error
      of the database write is only logged. */
  function HandleMiniplex(content: Option<string>, insertError: Option<string>): (r: Response)
    ensures r.status == 200 || r == ErrorResponse(MiniplexError)
  {
    match content
    case None => ErrorResponse(MiniplexError)
    case Some(c) =>
      match ExtractCitations(c)
      case Failure(_) => ErrorResponse(MiniplexError)
      case Success(cs) => Response(200, MiniplexBody(Processed(c, cs), cs, Questions(c)))
  }

  /** With content the handler answers 200 with exactly the processed text, the citations
      and the related questions, whatever the database write reported; without content it
      answers 500. */
  lemma HandleMiniplexReply(content: Option<string>, insertError: Option<string>)
    ensures content.None? ==> HandleMiniplex(content, insertError) == ErrorResponse(MiniplexError)
    ensures content.Some? ==> ExtractCitations(content.value).Success?
    ensures content.Some? && ExtractCitations(content.value).Success? ==>
      HandleMiniplex(content, insertError) == Response(200, MiniplexBody(
        Processed(content.value, ExtractCitations(content.value).value),
        ExtractCitations(content.value).value,
        Questions(content.value)))
    ensures HandleMiniplex(content, insertError) == HandleMiniplex(content, None)
  {
    if content.Some? {
      ExtractCitationsFound(content.value);
    }
  }
}
