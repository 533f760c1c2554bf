/** How the browser hook shapes results before showing them: a bullet summary becomes an
    HTML list, one item per line, and OCR text loses a surrounding ```html fence. */
module Formatting {
  import opened Text
  import opened Types

  function StartsWith(s: string, prefix: string): bool {
    prefix <= s
  }

  /** `replace(/^[•-]\s*\/, '')`: one leading bullet sign and the whitespace after it */
  function StripBullet(t: string): (r: string)
    ensures |r| <= |t| && r == t[|t| - |r|..]
    ensures r != [] && r != t ==> !IsSpace(r[0])
    ensures t == [] || (t[0] != '•' && t[0] != '-') ==> r == t
    ensures t != [] && (t[0] == '•' || t[0] == '-') ==> |r| < |t| && AllSpace(t[1..|t| - |r|])
  {
    if t != [] && (t[0] == '•' || t[0] == '-') then t[SpacesEnd(t, 1)..] else t
  }

  /** A bullet sign, a whitespace run and then the rest: exactly the rest is left. */
  lemma StripBulletOf(b: char, w: string, q: string)
    requires b == '•' || b == '-'
    requires AllSpace(w)
    requires q == [] || !IsSpace(q[0])
    ensures StripBullet([b] + w + q) == q
  {
    var t := [b] + w + q;
    forall k | 1 <= k < 1 + |w|
      ensures IsSpace(t[k])
    {
      assert t[k] == w[k - 1];
    }
    if q != [] {
      assert t[1 + |w|] == q[0];
    }
    SpacesEndAt(t, 1, 1 + |w|);
    assert t[1 + |w|..] == q;
  }

  /** One `<li>` for a line: trimmed, then one bullet sign removed */
  function Item(point: string): string {
    "<li>" + StripBullet(Trim(point)) + "</li>"
  }

  /** The items of the points, concatenated (`map(...).join('')`) */
  function Items(points: seq<string>): string {
    if points == [] then [] else Item(points[0]) + Items(points[1..])
  }

  /** The list built from item texts that need no cleaning */
  function ListOf(texts: seq<string>): string {
    if texts == [] then [] else "<li>" + texts[0] + "</li>" + ListOf(texts[1..])
  }

  /** The result shown for a summary: bullet summaries not already a list become one */
  function FormatSummary(summaryType: SummaryType, result: string): (r: string)
    ensures summaryType == General ==> r == result
    ensures StartsWith(result, "<ul>") ==> r == result
    ensures StartsWith(r, "<ul>")  || r == result
  {
    if summaryType != Bullets then result
    else if StartsWith(result, "<ul>") then result
    else "<ul>" + Items(Split(result, '\n')) + "</ul>"
  }

  lemma StripBulletTrimmed(t: string)
    requires Trimmed(t)
    ensures Trimmed(StripBullet(t))
    ensures '\n' !in t ==> '\n' !in StripBullet(t)
  {
    var r := StripBullet(t);
    if r != [] {
      assert r[|r| - 1] == t[|t| - 1];
    }
    forall k | 0 <= k < |r|
      ensures r[k] in t
    {
      assert r[k] == t[|t| - |r| + k];
    }
  }

  /** The text of an item once cleaned: trimmed and on one line */
  function ItemText(point: string): (r: string)
    ensures Trimmed(r)
    ensures '\n' !in point ==> '\n' !in r
  {
    StripBulletTrimmed(Trim(point));
    StripBullet(Trim(point))
  }

  /** A bulleted line, with any whitespace around it and after the bullet sign, has the
      text after the bullet as its item text. */
  lemma ItemTextOf(w1: string, b: char, w: string, q: string, w2: string)
    requires AllSpace(w1) && AllSpace(w) && AllSpace(w2)
    requires b == '•' || b == '-'
    requires Trimmed(q)
    ensures ItemText(w1 + [b] + w + q + w2) == q
  {
    if q == [] {
      assert w1 + [b] + w + q + w2 == w1 + [b] + (w + w2);
      assert AllSpace(w + w2);
      TrimPadded(w1, [b], w + w2);
      StripBulletOf(b, [], []);
      assert [b] + [] + [] == [b];
    } else {
      assert w1 + [b] + w + q + w2 == w1 + ([b] + w + q) + w2;
      var body := [b] + w + q;
      assert body[|body| - 1] == q[|q| - 1];
      TrimPadded(w1, body, w2);
      StripBulletOf(b, w, q);
    }
  }

  /** A line that does not start with a bullet sign, with any whitespace around it, has
      itself without that whitespace as its item text. */
  lemma ItemTextPlain(w1: string, q: string, w2: string)
    requires AllSpace(w1) && AllSpace(w2)
    requires Trimmed(q)
    requires q == [] || (q[0] != '•' && q[0] != '-')
    ensures ItemText(w1 + q + w2) == q
  {
    TrimPadded(w1, q, w2);
  }

  /** The cleaned text of each point, in order */
  function Cleaned(points: seq<string>): (r: seq<string>)
    ensures |r| == |points|
    ensures forall i :: 0 <= i < |r| ==> r[i] == ItemText(points[i])
  {
    seq(|points|, i requires 0 <= i < |points| => ItemText(points[i]))
  }

  lemma {:induction false} ItemsAreList(points: seq<string>)
    ensures Items(points) == ListOf(Cleaned(points))
    decreases |points|
  {
    if points != [] {
      var c := Cleaned(points);
      ItemsAreList(points[1..]);
      assert c[1..] == Cleaned(points[1..]);
      assert Item(points[0]) == "<li>" + c[0] + "</li>";
      assert ListOf(c) == "<li>" + c[0] + "</li>" + ListOf(c[1..]);
    }
  }

  /** The cleaned texts of newline-free points are trimmed and newline-free. */
  lemma CleanedLines(points: seq<string>)
    requires forall i :: 0 <= i < |points| ==> '\n' !in points[i]
    ensures forall i :: 0 <= i < |points| ==> Trimmed(Cleaned(points)[i]) && '\n' !in Cleaned(points)[i]
  {
    forall i | 0 <= i < |points|
      ensures Trimmed(Cleaned(points)[i]) && '\n' !in Cleaned(points)[i]
    {
      assert Cleaned(points)[i] == ItemText(points[i]);
    }
  }

  lemma FormatBullets(result: string)
    requires !StartsWith(result, "<ul>")
    ensures FormatSummary(Bullets, result) == "<ul>" + Items(Split(result, '\n')) + "</ul>"
  {
  }

  /** A bullet summary not already a list becomes a list with one cleaned item per line:
      as many items as newlines plus one, each trimmed and on one line. */
  lemma BulletItems(result: string)
    requires !StartsWith(result, "<ul>")
    ensures var texts := Cleaned(Split(result, '\n'));
      && |texts| == Count(result, '\n') + 1
      && (forall i :: 0 <= i < |texts| ==> Trimmed(texts[i]) && '\n' !in texts[i])
      && FormatSummary(Bullets, result) == "<ul>" + ListOf(texts) + "</ul>"
  {
    var points := Split(result, '\n');
    FormatBullets(result);
    ItemsAreList(points);
    CleanedLines(points);
  }

  /** Formatting a formatted summary changes nothing. */
  lemma FormatSummaryIdempotent(summaryType: SummaryType, result: string)
    ensures FormatSummary(summaryType, FormatSummary(summaryType, result)) == FormatSummary(summaryType, result)
  {
  }

  /** A clean line is its own item text. */
  lemma CleanLine(t: string)
    requires Trimmed(t)
    requires t == [] || (t[0] != '•' && t[0] != '-')
    ensures ItemText(t) == t
  {
    assert [] + t + [] == t;
    TrimPadded([], t, []);
    assert StripBullet(t) == t;
  }

  lemma {:induction false} CleanedClean(texts: seq<string>)
    requires forall i :: 0 <= i < |texts| ==> Trimmed(texts[i])
    requires forall i :: 0 <= i < |texts| ==> texts[i] == [] || (texts[i][0] != '•' && texts[i][0] != '-')
    ensures Cleaned(texts) == texts
  {
    forall i | 0 <= i < |texts|
      ensures Cleaned(texts)[i] == texts[i]
    {
      CleanLine(texts[i]);
    }
  }

  /** Lines that are already clean come back as the items, in order. */
  lemma CleanLinesListed(texts: seq<string>)
    requires |texts| > 0
    requires forall i :: 0 <= i < |texts| ==> Trimmed(texts[i]) && '\n' !in texts[i]
    requires forall i :: 0 <= i < |texts| ==> texts[i] == [] || (texts[i][0] != '•' && texts[i][0] != '-')
    requires !StartsWith(Join(texts, '\n'), "<ul>")
    ensures FormatSummary(Bullets, Join(texts, '\n')) == "<ul>" + ListOf(texts) + "</ul>"
  {
    SplitJoin(texts, '\n');
    ItemsAreList(texts);
    CleanedClean(texts);
  }

  /** `replace(/^```html\s*\/, '')` */
  function StripOpeningFence(t: string): string {
    if StartsWith(t, "```html") then TrimStart(t[7..]) else t
  }

  /** `replace(/\s*```$/, '')`: the leftmost match is the whole whitespace run before the
      final fence */
  function StripClosingFence(t: string): string {
    if EndsWith(t, "```") then TrimEnd(t[..|t| - 3]) else t
  }

  /** The OCR text as shown: what is left is a piece of the text, and text without
      fences is left as it is */
  function StripFences(t: string): (r: string)
    ensures |r| <= |t|
    ensures !StartsWith(t, "```html") && !EndsWith(t, "```") ==> r == t
  {
    StripClosingFence(StripOpeningFence(t))
  }

  /** A trimmed body wrapped in a ```html fence, with any whitespace around it, comes back
      exactly. */
  lemma StripFencesRoundTrip(w1: string, body: string, w2: string)
    requires AllSpace(w1) && AllSpace(w2) && Trimmed(body)
    ensures StripFences("```html" + w1 + body + w2 + "```") == body
  {
    var t := "```html" + w1 + body + w2 + "```";
    assert StartsWith(t, "```html");
    if body == [] {
      assert t[7..] == (w1 + w2) + "```";
      assert AllSpace(w1 + w2);
      TrimStartPadded(w1 + w2, "```");
      assert "```"[..0] == [];
    } else {
      var rest := body + w2 + "```";
      assert t[7..] == w1 + rest;
      TrimStartPadded(w1, rest);
      assert EndsWith(rest, "```");
      assert rest[..|rest| - 3] == body + w2;
      TrimEndPadded(body, w2);
    }
  }

  /** Text that opens a fence but never closes it, as a reply cut off before its end
      does, loses the opening fence and the whitespace after it, and nothing else. */
  lemma StripFencesOpeningOnly(w: string, body: string)
    requires AllSpace(w)
    requires body == [] || !IsSpace(body[0])
    requires !EndsWith(body, "```")
    ensures StripFences("```html" + w + body) == body
  {
    var t := "```html" + w + body;
    assert StartsWith(t, "```html");
    assert t[7..] == w + body;
    TrimStartPadded(w, body);
  }

  /** Text that only closes a fence loses the fence and the whitespace before it, and
      nothing else. */
  lemma StripFencesClosingOnly(body: string, w: string)
    requires AllSpace(w)
    requires body == [] || !IsSpace(body[|body| - 1])
    requires !StartsWith(body + w + "```", "```html")
    ensures StripFences(body + w + "```") == body
  {
    var t := body + w + "```";
    assert EndsWith(t, "```");
    assert t[..|t| - 3] == body + w;
    TrimEndPadded(body, w);
  }

  /** Text without an opening or closing fence is shown as it is. */
  lemma NoFencesUnchanged(t: string)
    requires !StartsWith(t, "```html") && !EndsWith(t, "```")
    ensures StripFences(t) == t
  {
  }
}
