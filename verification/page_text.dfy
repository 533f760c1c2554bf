/** The URL handler: the guard on the requested url, the fetch and parse outcomes, and the
    clean-up `text.replace(/\s+/g, ' ').trim()` of the page's text. Fetching and HTML
    parsing are function parameters. */
module PageText {
  import opened Wrappers
  import opened Text
  import opened Types

  /** `replace(/\s+/g, ' ')`: every maximal run of whitespace becomes one space */
  function Collapse(s: string): (r: string)
    ensures r == [] <==> s == []
    ensures s != [] ==> (IsSpace(r[0]) <==> IsSpace(s[0]))
    ensures s != [] && !IsSpace(s[0]) ==> r[0] == s[0]
    decreases |s|
  {
    if s == [] then []
    else if IsSpace(s[0]) then [' '] + Collapse(s[SpacesEnd(s, 0)..])
    else [s[0]] + Collapse(s[1..])
  }

  /** The only whitespace is the plain space, and no two whitespace characters touch. */
  predicate SingleSpaced(s: string) {
    forall i :: 0 <= i < |s| && IsSpace(s[i]) ==> s[i] == ' ' && (i + 1 < |s| ==> !IsSpace(s[i + 1]))
  }

  lemma {:induction false} CollapseSingleSpaced(s: string)
    ensures SingleSpaced(Collapse(s))
    decreases |s|
  {
    if s != [] {
      var r := Collapse(s);
      if IsSpace(s[0]) {
        var e := SpacesEnd(s, 0);
        var t := s[e..];
        CollapseSingleSpaced(t);
        assert r == [' '] + Collapse(t);
        assert t != [] ==> !IsSpace(t[0]);
        forall i | 0 <= i < |r| && IsSpace(r[i])
          ensures r[i] == ' ' && (i + 1 < |r| ==> !IsSpace(r[i + 1]))
        {
          if i > 0 {
            assert r[i] == Collapse(t)[i - 1];
          }
          if i + 1 < |r| {
            assert r[i + 1] == Collapse(t)[i];
          }
        }
      } else {
        CollapseSingleSpaced(s[1..]);
        assert r == [s[0]] + Collapse(s[1..]);
        forall i | 0 <= i < |r| && IsSpace(r[i])
          ensures r[i] == ' ' && (i + 1 < |r| ==> !IsSpace(r[i + 1]))
        {
          assert r[i] == Collapse(s[1..])[i - 1];
          if i + 1 < |r| {
            assert r[i + 1] == Collapse(s[1..])[i];
          }
        }
      }
    }
  }

  /** Text that is already single-spaced is left as it is. */
  lemma {:induction false} CollapseSingleSpacedFixed(s: string)
    requires SingleSpaced(s)
    ensures Collapse(s) == s
    decreases |s|
  {
    if s != [] {
      assert SingleSpaced(s[1..]) by {
        forall i | 0 <= i < |s[1..]| && IsSpace(s[1..][i])
          ensures s[1..][i] == ' ' && (i + 1 < |s[1..]| ==> !IsSpace(s[1..][i + 1]))
        {
          assert s[1..][i] == s[i + 1];
        }
      }
      CollapseSingleSpacedFixed(s[1..]);
      if IsSpace(s[0]) {
        assert |s| > 1 ==> !IsSpace(s[1]);
        assert SpacesEnd(s, 0) == 1 by {
          assert SpacesEnd(s, 1) == 1;
        }
      }
    }
  }

  /** A slice of single-spaced text is single-spaced. */
  lemma SingleSpacedSlice(s: string, a: nat, b: nat)
    requires SingleSpaced(s) && a <= b <= |s|
    ensures SingleSpaced(s[a..b])
  {
    var t := s[a..b];
    forall i | 0 <= i < |t| && IsSpace(t[i])
      ensures t[i] == ' ' && (i + 1 < |t| ==> !IsSpace(t[i + 1]))
    {
      assert t[i] == s[a + i];
      if i + 1 < |t| {
        assert t[i + 1] == s[a + i + 1];
      }
    }
  }

  /** `text.replace(/\s+/g, ' ').trim()` */
  function Normalize(s: string): (r: string)
    ensures Trimmed(r)
    ensures r == [] <==> AllSpace(s)
  {
    var c := Collapse(s);
    assert AllSpace(c) <==> AllSpace(s) by {
      CollapseAllSpace(s);
    }
    Trim(c)
  }

  lemma {:induction false} CollapseAllSpace(s: string)
    ensures AllSpace(Collapse(s)) <==> AllSpace(s)
    decreases |s|
  {
    if s != [] {
      var r := Collapse(s);
      if IsSpace(s[0]) {
        var e := SpacesEnd(s, 0);
        CollapseAllSpace(s[e..]);
        assert r == [' '] + Collapse(s[e..]);
        assert AllSpace(s) <==> AllSpace(s[e..]) by {
          assert forall i :: 0 <= i < e ==> IsSpace(s[i]);
          assert forall i :: e <= i < |s| ==> s[i] == s[e..][i - e];
        }
        assert AllSpace(r) <==> AllSpace(Collapse(s[e..])) by {
          assert forall i :: 1 <= i < |r| ==> r[i] == Collapse(s[e..])[i - 1];
          assert forall i :: 0 <= i < |Collapse(s[e..])| ==> Collapse(s[e..])[i] == r[i + 1];
        }
      } else {
        assert !AllSpace(s);
        assert !IsSpace(r[0]);
      }
    }
  }

  lemma TrimSingleSpaced(c: string)
    requires SingleSpaced(c)
    ensures SingleSpaced(Trim(c))
  {
    var t := TrimStart(c);
    SingleSpacedSlice(c, |c| - |t|, |c|);
    var r := TrimEnd(t);
    assert r == t[0..|r|];
    SingleSpacedSlice(t, 0, |r|);
  }

  /** The trimmed result is single-spaced: no whitespace but single spaces between words. */
  lemma NormalizeSingleSpaced(s: string)
    ensures SingleSpaced(Normalize(s))
  {
    CollapseSingleSpaced(s);
    TrimSingleSpaced(Collapse(s));
  }

  /** Normalizing twice is normalizing once. */
  lemma NormalizeIdempotent(s: string)
    ensures Normalize(Normalize(s)) == Normalize(s)
  {
    var r := Normalize(s);
    NormalizeSingleSpaced(s);
    CollapseSingleSpacedFixed(r);
    TrimIdempotent(Collapse(s));
  }

  /** The characters of s that are not whitespace, in order */
  function Visible(s: string): (v: string)
    ensures forall c :: c in v ==> !IsSpace(c)
  {
    if s == [] then [] else (if IsSpace(s[0]) then [] else [s[0]]) + Visible(s[1..])
  }

  lemma {:induction false} VisibleConcat(a: string, b: string)
    ensures Visible(a + b) == Visible(a) + Visible(b)
    decreases |a|
  {
    if a == [] {
      assert a + b == b;
    } else {
      assert (a + b)[1..] == a[1..] + b;
      VisibleConcat(a[1..], b);
    }
  }

  lemma {:induction false} VisibleOfSpace(w: string)
    requires AllSpace(w)
    ensures Visible(w) == []
    decreases |w|
  {
    if w != [] {
      VisibleOfSpace(w[1..]);
    }
  }

  lemma {:induction false} CollapseKeepsVisible(s: string)
    ensures Visible(Collapse(s)) == Visible(s)
    decreases |s|
  {
    if s != [] {
      if IsSpace(s[0]) {
        var e := SpacesEnd(s, 0);
        CollapseKeepsVisible(s[e..]);
        assert s == s[..e] + s[e..];
        VisibleConcat(s[..e], s[e..]);
        VisibleOfSpace(s[..e]);
        VisibleConcat([' '], Collapse(s[e..]));
      } else {
        CollapseKeepsVisible(s[1..]);
        VisibleConcat([s[0]], Collapse(s[1..]));
      }
    }
  }

  lemma TrimStartKeepsVisible(s: string)
    ensures Visible(TrimStart(s)) == Visible(s)
  {
    var t := TrimStart(s);
    var w := s[..|s| - |t|];
    assert s == w + t;
    VisibleConcat(w, t);
    VisibleOfSpace(w);
  }

  lemma TrimEndKeepsVisible(t: string)
    ensures Visible(TrimEnd(t)) == Visible(t)
  {
    var r := TrimEnd(t);
    var w := t[|r|..];
    assert t == r + w;
    VisibleConcat(r, w);
    VisibleOfSpace(w);
  }

  lemma TrimKeepsVisible(s: string)
    ensures Visible(Trim(s)) == Visible(s)
  {
    TrimStartKeepsVisible(s);
    TrimEndKeepsVisible(TrimStart(s));
  }

  /** Normalizing only touches whitespace: the other characters stay, in order. */
  lemma NormalizeKeepsVisible(s: string)
    ensures Visible(Normalize(s)) == Visible(s)
  {
    CollapseKeepsVisible(s);
    TrimKeepsVisible(Collapse(s));
  }

  /** The outcome of `fetch(url)`: a thrown error, a response that is not ok, or the body */
  datatype Fetched = FetchThrew(message: string) | NotOk | Page(html: string)

  /** The outcome of parsing: no document, or the optional `doc.body?.textContent` of the
      document once scripts and styles are removed */
  datatype Parsed = NoDocument | Document(bodyText: Option<string>)

  const UrlRequired := "URL is required"
  const FetchFailed := "Failed to fetch URL content"
  const ParseFailed := "Failed to parse HTML"

  /** The handler for a request whose `url` field is `url` */
  function HandleUrl(url: Option<string>, fetch: string -> Fetched, parse: string -> Parsed): (r: Response)
    ensures !Truthy(url) ==> r == ErrorResponse(UrlRequired)
    ensures r.status == 200 ==> r.body.TextBody? && Trimmed(r.body.text) && SingleSpaced(r.body.text)
    ensures Truthy(url) && fetch(url.value).FetchThrew? ==> r == ErrorResponse(fetch(url.value).message)
    ensures Truthy(url) && fetch(url.value).NotOk? ==> r == ErrorResponse(FetchFailed)
    ensures Truthy(url) && fetch(url.value).Page? && parse(fetch(url.value).html).NoDocument? ==>
      r == ErrorResponse(ParseFailed)
    ensures Truthy(url) && fetch(url.value).Page? && parse(fetch(url.value).html).Document? ==>
      var body := parse(fetch(url.value).html).bodyText;
      var text := if Truthy(body) then body.value else "";
      && r == Response(200, TextBody(Normalize(text)))
      && Visible(r.body.text) == Visible(text)
  {
    if !Truthy(url) then ErrorResponse(UrlRequired)
    else
      match fetch(url.value)
      case FetchThrew(m) => ErrorResponse(m)
      case NotOk => ErrorResponse(FetchFailed)
      case Page(html) =>
        match parse(html)
        case NoDocument => ErrorResponse(ParseFailed)
        case Document(body) =>
          var text := if Truthy(body) then body.value else "";
          NormalizeSingleSpaced(text);
          NormalizeKeepsVisible(text);
          Response(200, TextBody(Normalize(text)))
  }

  /** A missing or empty url is refused before anything is fetched. */
  lemma UrlCheckedFirst(url: Option<string>, f1: string -> Fetched, f2: string -> Fetched,
                        p1: string -> Parsed, p2: string -> Parsed)
    requires !Truthy(url)
    ensures HandleUrl(url, f1, p1) == HandleUrl(url, f2, p2) == ErrorResponse(UrlRequired)
  {
  }
}
