/** The MiniPlex citation pattern `/\[(\d+)\](?:.*?)(?:http[s]?:\/\/[^\s\]]+)/g` read as a
    left-to-right scanner: a bracketed number, then the first url on the same line (`.` does
    not cross line terminators and `.*?` is lazy), the url running as far as characters
    other than whitespace and `]` go. `exec` on a global pattern resumes where the last
    match ended. */
module CitationRegex {
  import opened Wrappers
  import opened Text

  /** The class `[^\s\]]` */
  predicate IsUrlChar(c: char) {
    !IsSpace(c) && c != ']'
  }

  /** The length of `https://` or `http://` when `http[s]?:\/\/[^\s\]]` matches at i, else 0 */
  function SchemeLen(s: string, i: nat): (n: nat)
    ensures n == 0 || n == 7 || n == 8
    ensures n > 0 ==> i + n < |s| && s[i] == 'h' && IsUrlChar(s[i + n])
  {
    if i + 8 < |s| && s[i..i + 8] == "https://" && IsUrlChar(s[i + 8]) then
      assert s[i] == s[i..i + 8][0];
      8
    else if i + 7 < |s| && s[i..i + 7] == "http://" && IsUrlChar(s[i + 7]) then
      assert s[i] == s[i..i + 7][0];
      7
    else 0
  }

  /** The end of the maximal run of url characters from i (the greedy `+`) */
  function UrlEnd(s: string, i: nat): (e: nat)
    requires i <= |s|
    ensures i <= e <= |s|
    ensures forall q :: i <= q < e ==> IsUrlChar(s[q])
    ensures e == |s| || !IsUrlChar(s[e])
    decreases |s| - i
  {
    if i < |s| && IsUrlChar(s[i]) then UrlEnd(s, i + 1) else i
  }

  /** The lazy `.*?` before the url: the first position from j on, before any line
      terminator, where a url starts */
  function FindUrl(s: string, j: nat): (u: Option<nat>)
    requires j <= |s|
    ensures u.Some? ==> j <= u.value < |s| && SchemeLen(s, u.value) > 0
    ensures u.Some? ==> NoLineTerminator(s[j..u.value])
    ensures u.Some? ==> forall q :: j <= q < u.value ==> SchemeLen(s, q) == 0
    ensures u.None? ==> forall q :: j <= q <= |s| && NoLineTerminator(s[j..q]) ==> SchemeLen(s, q) == 0
    decreases |s| - j
  {
    if SchemeLen(s, j) > 0 then Some(j)
    else if j < |s| && !IsLineTerminator(s[j]) then
      var u := FindUrl(s, j + 1);
      assert u.Some? ==> s[j..u.value] == [s[j]] + s[j + 1..u.value];
      forall q | j < q <= |s| && NoLineTerminator(s[j..q])
        ensures NoLineTerminator(s[j + 1..q])
      {
        assert s[j + 1..q] == s[j..q][1..];
      }
      u
    else
      forall q | j < q <= |s|
        ensures !NoLineTerminator(s[j..q])
      {
        assert s[j..q][0] == s[j];
      }
      None
  }

  /** The lazy scan finds a url that starts before any line terminator and has no url
      start before it. */
  lemma FindUrlAt(s: string, j: nat, u: nat)
    requires j <= u < |s| && SchemeLen(s, u) > 0
    requires NoLineTerminator(s[j..u])
    requires forall q :: j <= q < u ==> SchemeLen(s, q) == 0
    ensures FindUrl(s, j) == Some(u)
  {
    match FindUrl(s, j)
    case Some(v) =>
      assert !(v < u) && !(u < v);
    case None =>
      assert false;
  }

  /** The greedy run ends at the first character that is not a url character. */
  lemma UrlEndAt(s: string, i: nat, e: nat)
    requires i <= e <= |s|
    requires forall q :: i <= q < e ==> IsUrlChar(s[q])
    requires e == |s| || !IsUrlChar(s[e])
    ensures UrlEnd(s, i) == e
  {
    var f := UrlEnd(s, i);
    assert !(f < e) && !(e < f);
  }

  /** One match: `[` at start, the digits up to digitsEnd, `]`, then the url from urlStart
      to end */
  datatype RawMatch = RawMatch(start: nat, digitsEnd: nat, urlStart: nat, end: nat)

  /** What a match of the pattern is, stated without the scanner */
  predicate ValidMatch(s: string, m: RawMatch) {
    && m.start + 1 < m.digitsEnd < m.urlStart < m.end <= |s|
    && s[m.start] == '['
    && AllDigits(s[m.start + 1..m.digitsEnd])
    && s[m.digitsEnd] == ']'
    && NoLineTerminator(s[m.digitsEnd + 1..m.urlStart])
    && (forall q :: m.digitsEnd < q < m.urlStart ==> SchemeLen(s, q) == 0)
    && SchemeLen(s, m.urlStart) > 0
    && m.urlStart + SchemeLen(s, m.urlStart) < m.end
    && (forall q :: m.urlStart + SchemeLen(s, m.urlStart) <= q < m.end ==> IsUrlChar(s[q]))
    && (m.end == |s| || !IsUrlChar(s[m.end]))
  }

  /** The number between the brackets (`match[1]`) */
  function Number(s: string, m: RawMatch): (d: string)
    requires ValidMatch(s, m)
    ensures d != [] && AllDigits(d)
  {
    s[m.start + 1..m.digitsEnd]
  }

  /** The url the match ends with */
  function OuterUrl(s: string, m: RawMatch): (u: string)
    requires ValidMatch(s, m)
    ensures u != [] && u[0] == 'h' && forall i :: 0 <= i < |u| ==> IsUrlChar(u[i])
  {
    var u := s[m.urlStart..m.end];
    var n := SchemeLen(s, m.urlStart);
    assert s[m.urlStart..m.urlStart + 8] == "https://" || s[m.urlStart..m.urlStart + 7] == "http://";
    forall i | 0 <= i < |u|
      ensures IsUrlChar(u[i])
    {
      if i < n {
        assert n == 8 ==> u[i] == "https://"[i];
        assert n == 7 ==> u[i] == "http://"[i];
      }
    }
    u
  }

  /** The pattern tried at position p alone */
  function MatchAt(s: string, p: nat): (r: Option<RawMatch>)
    ensures r.Some? ==> r.value.start == p && ValidMatch(s, r.value)
  {
    if p < |s| && s[p] == '[' then
      var d := DigitsEnd(s, p + 1);
      if d > p + 1 && d < |s| && s[d] == ']' then
        match FindUrl(s, d + 1)
        case Some(u) =>
          var e := UrlEnd(s, u + SchemeLen(s, u));
          assert forall q :: p + 1 <= q < d ==> IsDigit(s[q]);
          Some(RawMatch(p, d, u, e))
        case None => None
      else None
    else None
  }

  /** The pattern tried at the start of a match finds exactly that match: a match is
      determined by where it starts. */
  lemma MatchAtFinds(s: string, m: RawMatch)
    requires ValidMatch(s, m)
    ensures MatchAt(s, m.start) == Some(m)
  {
    MatchParts(s, m);
    MatchAtOf(s, m);
  }

  /** What the pattern reads at each part of a well-formed match */
  lemma MatchParts(s: string, m: RawMatch)
    requires ValidMatch(s, m)
    ensures m.start < |s| && s[m.start] == '[' && DigitsEnd(s, m.start + 1) == m.digitsEnd
    ensures m.start + 1 < m.digitsEnd < |s| && s[m.digitsEnd] == ']'
    ensures FindUrl(s, m.digitsEnd + 1) == Some(m.urlStart)
    ensures UrlEnd(s, m.urlStart + SchemeLen(s, m.urlStart)) == m.end
  {
    MatchDigits(s, m);
    MatchUrl(s, m);
    MatchEnd(s, m);
  }

  /** The url of a match is the first one after its `]`. */
  lemma MatchUrl(s: string, m: RawMatch)
    requires ValidMatch(s, m)
    ensures FindUrl(s, m.digitsEnd + 1) == Some(m.urlStart)
  {
    FindUrlAt(s, m.digitsEnd + 1, m.urlStart);
  }

  /** The url of a match runs up to its end. */
  lemma MatchEnd(s: string, m: RawMatch)
    requires ValidMatch(s, m)
    ensures UrlEnd(s, m.urlStart + SchemeLen(s, m.urlStart)) == m.end
  {
    UrlEndAt(s, m.urlStart + SchemeLen(s, m.urlStart), m.end);
  }

  /** The pattern at the start of m, given where its digits, its url and its end fall */
  lemma MatchAtOf(s: string, m: RawMatch)
    requires m.start < |s| && s[m.start] == '[' && DigitsEnd(s, m.start + 1) == m.digitsEnd
    requires m.start + 1 < m.digitsEnd < |s| && s[m.digitsEnd] == ']'
    requires FindUrl(s, m.digitsEnd + 1) == Some(m.urlStart)
    requires UrlEnd(s, m.urlStart + SchemeLen(s, m.urlStart)) == m.end
    ensures MatchAt(s, m.start) == Some(m)
  {
    MatchAtFields(s, m.start, m.digitsEnd, m.urlStart, m.end);
    var r := MatchAt(s, m.start).value;
    assert r == RawMatch(r.start, r.digitsEnd, r.urlStart, r.end);
    assert m == RawMatch(m.start, m.digitsEnd, m.urlStart, m.end);
  }

  lemma MatchAtFields(s: string, p: nat, d: nat, u: nat, e: nat)
    requires p < |s| && s[p] == '[' && DigitsEnd(s, p + 1) == d && p + 1 < d < |s| && s[d] == ']'
    requires FindUrl(s, d + 1) == Some(u) && UrlEnd(s, u + SchemeLen(s, u)) == e
    ensures MatchAt(s, p).Some?
    ensures MatchAt(s, p).value.digitsEnd == d
    ensures MatchAt(s, p).value.urlStart == u
    ensures MatchAt(s, p).value.end == e
  {
  }

  /** The digits of a match run up to its `]`. */
  lemma MatchDigits(s: string, m: RawMatch)
    requires ValidMatch(s, m)
    ensures DigitsEnd(s, m.start + 1) == m.digitsEnd
  {
    var p := m.start;
    forall q | p + 1 <= q < m.digitsEnd
      ensures IsDigit(s[q])
    {
      assert s[q] == s[p + 1..m.digitsEnd][q - p - 1];
    }
    DigitsEndAt(s, p + 1, m.digitsEnd);
  }

  /** No match of the pattern starts in [a, b). */
  predicate NoMatchIn(s: string, a: nat, b: nat) {
    forall p :: a <= p < b ==> MatchAt(s, p).None?
  }

  /** The successive results of `exec` with `lastIndex` starting at i */
  function Scan(s: string, i: nat): (r: seq<RawMatch>)
    ensures forall k :: 0 <= k < |r| ==> ValidMatch(s, r[k]) && i <= r[k].start
    ensures forall k :: 0 <= k < |r| - 1 ==> r[k].end <= r[k + 1].start
    decreases |s| - i
  {
    if i >= |s| then []
    else
      match MatchAt(s, i)
      case Some(m) => [m] + Scan(s, m.end)
      case None => Scan(s, i + 1)
  }

  /** `exec` misses nothing: every found match is the one the pattern gives at its start,
      and the pattern matches nowhere before the first match, between two matches (from
      where one ends to where the next starts) or after the last. */
  lemma ScanFindsEvery(s: string, i: nat)
    ensures var r := Scan(s, i);
      && (forall k :: 0 <= k < |r| ==> MatchAt(s, r[k].start) == Some(r[k]))
      && (r == [] ==> NoMatchIn(s, i, |s|))
      && (r != [] ==> NoMatchIn(s, i, r[0].start) && NoMatchIn(s, r[|r| - 1].end, |s|))
      && GapsClear(s, r)
  {
    var r := Scan(s, i);
    forall k | 0 <= k < |r| ensures MatchAt(s, r[k].start) == Some(r[k]) {
      MatchAtFinds(s, r[k]);
    }
    ScanFirstGap(s, i);
    ScanLastGap(s, i);
    ScanBetweenGaps(s, i);
  }

  /** Before the first match (or to the end, when there is none) the pattern matches nowhere. */
  lemma {:induction false} ScanFirstGap(s: string, i: nat)
    ensures Scan(s, i) == [] ==> NoMatchIn(s, i, |s|)
    ensures Scan(s, i) != [] ==> NoMatchIn(s, i, Scan(s, i)[0].start)
    decreases |s| - i
  {
    if i < |s| && MatchAt(s, i).None? {
      ScanFirstGap(s, i + 1);
    }
  }

  /** After the last match the pattern matches nowhere. */
  lemma {:induction false} ScanLastGap(s: string, i: nat)
    ensures Scan(s, i) != [] ==> NoMatchIn(s, Scan(s, i)[|Scan(s, i)| - 1].end, |s|)
    decreases |s| - i
  {
    if i < |s| {
      var mo := MatchAt(s, i);
      if mo.Some? {
        var m := mo.value;
        ScanStepSome(s, i, m);
        var rest := Scan(s, m.end);
        if rest == [] {
          assert ([m] + rest)[0] == m;
          ScanFirstGap(s, m.end);
        } else {
          ScanLastGap(s, m.end);
          assert ([m] + rest)[|rest|] == rest[|rest| - 1];
        }
      } else {
        ScanStepNone(s, i);
        ScanLastGap(s, i + 1);
      }
    }
  }

  /** Between two successive matches the pattern matches nowhere. */
  lemma {:induction false} ScanBetweenGaps(s: string, i: nat)
    ensures GapsClear(s, Scan(s, i))
    decreases |s| - i
  {
    if i < |s| {
      var mo := MatchAt(s, i);
      if mo.Some? {
        var m := mo.value;
        ScanStepSome(s, i, m);
        ScanBetweenGaps(s, m.end);
        ScanFirstGap(s, m.end);
        GapsClearCons(s, m, Scan(s, m.end));
      } else {
        ScanStepNone(s, i);
        ScanBetweenGaps(s, i + 1);
      }
    }
  }

  /** A match at i is the first result, and the scan goes on where it ends. */
  lemma ScanStepSome(s: string, i: nat, m: RawMatch)
    requires i < |s| && MatchAt(s, i) == Some(m)
    ensures Scan(s, i) == [m] + Scan(s, m.end)
  {
  }

  /** Without a match at i the scan goes on at the next position. */
  lemma ScanStepNone(s: string, i: nat)
    requires i < |s| && MatchAt(s, i).None?
    ensures Scan(s, i) == Scan(s, i + 1)
  {
  }

  /** No match between two successive matches of r */
  predicate GapsClear(s: string, r: seq<RawMatch>) {
    forall k :: 0 <= k < |r| - 1 ==> NoMatchIn(s, r[k].end, r[k + 1].start)
  }

  lemma GapsClearCons(s: string, m: RawMatch, rest: seq<RawMatch>)
    requires GapsClear(s, rest)
    requires rest != [] ==> NoMatchIn(s, m.end, rest[0].start)
    ensures GapsClear(s, [m] + rest)
  {
    var r := [m] + rest;
    forall k | 0 <= k < |r| - 1 ensures NoMatchIn(s, r[k].end, r[k + 1].start) {
      if k > 0 {
        assert r[k] == rest[k - 1] && r[k + 1] == rest[k];
      }
    }
  }

  /** The non-global match finds nothing exactly when no url starts anywhere from i on. */
  lemma {:induction false} FirstUrlNone(t: string, i: nat)
    requires i <= |t|
    ensures FirstUrl(t, i).None? <==> forall q :: i <= q < |t| ==> SchemeLen(t, q) == 0
    decreases |t| - i
  {
    if i < |t| && SchemeLen(t, i) == 0 {
      FirstUrlNone(t, i + 1);
    }
  }

  /** The non-global `t.match(/http[s]?:\/\/[^\s\]]+/)`: the first url in t from i on */
  function FirstUrl(t: string, i: nat): (r: Option<string>)
    requires i <= |t|
    ensures r.Some? ==> r.value != [] && r.value[0] == 'h'
    decreases |t| - i
  {
    if i == |t| then None
    else if SchemeLen(t, i) > 0 then Some(t[i..UrlEnd(t, i + SchemeLen(t, i))])
    else FirstUrl(t, i + 1)
  }

  lemma {:induction false} FirstUrlSkip(t: string, i: nat, u: nat)
    requires i <= u <= |t|
    requires forall q :: i <= q < u ==> SchemeLen(t, q) == 0
    ensures FirstUrl(t, i) == FirstUrl(t, u)
    decreases u - i
  {
    if i < u {
      FirstUrlSkip(t, i + 1, u);
    }
  }

  /** A url start inside a slice is one in the whole text, with the same scheme. */
  lemma SchemeInSlice(s: string, a: nat, b: nat, i: nat)
    requires a <= b <= |s| && i < b - a
    ensures SchemeLen(s[a..b], i) > 0 ==> SchemeLen(s, a + i) == SchemeLen(s[a..b], i)
    ensures SchemeLen(s, a + i) > 0 && a + i + SchemeLen(s, a + i) < b ==> SchemeLen(s[a..b], i) == SchemeLen(s, a + i)
  {
    var t := s[a..b];
    forall k | i <= k < |t|
      ensures t[k] == s[a + k]
    {
    }
    if i + 8 < |t| {
      assert t[i..i + 8] == s[a + i..a + i + 8];
    }
    if i + 7 < |t| {
      assert t[i..i + 7] == s[a + i..a + i + 7];
    }
    if i + 7 < |t| && a + i + 8 < |s| {
      assert t[i + 4] == s[a + i..a + i + 8][4];
      assert t[i + 4] == t[i..i + 7][4];
    }
  }

  /** Inside a slice that ends where a url run ends, the run ends at the slice's end. */
  lemma {:induction false} UrlEndInSlice(s: string, a: nat, b: nat, i: nat)
    requires a <= b <= |s| && i <= b - a
    requires forall q :: a + i <= q < b ==> IsUrlChar(s[q])
    ensures UrlEnd(s[a..b], i) == b - a
    decreases b - a - i
  {
    if i < b - a {
      assert s[a..b][i] == s[a + i];
      UrlEndInSlice(s, a, b, i + 1);
    }
  }

  /** Before the url, the matched text holds no url start: the bracketed number cannot
      start one, and the lazy scan saw none after it. */
  lemma NoSchemeBeforeUrl(s: string, m: RawMatch, q: nat)
    requires ValidMatch(s, m) && q < m.urlStart - m.start
    ensures SchemeLen(s[m.start..m.end], q) == 0
  {
    SchemeInSlice(s, m.start, m.end, q);
    if q == 0 {
      assert s[m.start + q] == '[';
    } else if q < m.digitsEnd - m.start {
      assert s[m.start + q] == s[m.start + 1..m.digitsEnd][q - 1];
    } else if q == m.digitsEnd - m.start {
      assert s[m.start + q] == ']';
    }
  }

  lemma FirstUrlAt(t: string, i: nat)
    requires i < |t| && SchemeLen(t, i) > 0
    ensures FirstUrl(t, i) == Some(t[i..UrlEnd(t, i + SchemeLen(t, i))])
  {
  }

  /** Within the matched text, the inner search skips to where the outer url starts. */
  lemma InnerSkipsToUrl(s: string, m: RawMatch)
    requires ValidMatch(s, m)
    ensures FirstUrl(s[m.start..m.end], 0) == FirstUrl(s[m.start..m.end], m.urlStart - m.start)
  {
    var t := s[m.start..m.end];
    var u := m.urlStart - m.start;
    forall q | 0 <= q < u
      ensures SchemeLen(t, q) == 0
    {
      NoSchemeBeforeUrl(s, m, q);
    }
    FirstUrlSkip(t, 0, u);
  }

  /** From where the outer url starts, the inner search takes the rest of the match. */
  lemma InnerUrlAtStart(s: string, m: RawMatch)
    requires ValidMatch(s, m)
    ensures FirstUrl(s[m.start..m.end], m.urlStart - m.start) == Some(s[m.urlStart..m.end])
  {
    UrlRunsToSliceEnd(s, m.start, m.end, m.urlStart - m.start);
  }

  /** A url that starts at i of the slice s[a..b] and runs to its end is what the inner
      search finds from i. */
  lemma UrlRunsToSliceEnd(s: string, a: nat, b: nat, i: nat)
    requires a + i < b <= |s|
    requires SchemeLen(s, a + i) > 0 && a + i + SchemeLen(s, a + i) < b
    requires forall q :: a + i + SchemeLen(s, a + i) <= q < b ==> IsUrlChar(s[q])
    ensures FirstUrl(s[a..b], i) == Some(s[a + i..b])
  {
    var t := s[a..b];
    var n := SchemeLen(s, a + i);
    SchemeInSlice(s, a, b, i);
    assert SchemeLen(t, i) == n;
    FirstUrlAt(t, i);
    UrlEndInSlice(s, a, b, i + n);
    assert t[i..|t|] == s[a + i..b];
  }

  /** The inner `match` finds the url the outer match ended with, so its `[0]` is defined. */
  lemma InnerUrlIsOuter(s: string, m: RawMatch)
    requires ValidMatch(s, m)
    ensures FirstUrl(s[m.start..m.end], 0) == Some(OuterUrl(s, m))
  {
    InnerSkipsToUrl(s, m);
    InnerUrlAtStart(s, m);
  }
}
