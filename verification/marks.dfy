/** Rewriting citation marks `[k]` into links, as both search handlers do: each handler
    loops over its citations and, for the k-th one, calls `String.prototype.replace` on
    the text so far. MiniPlex replaces every `[k]` (a global regular expression), Search
    only the first (a string pattern). Both expand `$` patterns in the replacement text.

    `Linkify` is an independent, single-pass reading of the same rewriting; the lemmas at
    the end prove that the handlers' loops compute it when no link contains `$` or a
    mark other than its own. */
module Marks {
  import opened Text
  import opened Types

  /** The mark `[k]` as the handlers spell it (`[${index + 1}]`) */
  function Mark(k: nat): (m: string)
    ensures |m| >= 3 && m[0] == '[' && m[|m| - 1] == ']'
  {
    "[" + Decimal(k) + "]"
  }

  /** The characters marks are made of */
  predicate MarkChar(c: char) {
    c == '[' || c == ']' || IsDigit(c)
  }

  lemma MarkChars(k: nat)
    ensures forall i :: 0 < i < |Mark(k)| - 1 ==> IsDigit(Mark(k)[i])
    ensures forall i :: 0 <= i < |Mark(k)| ==> MarkChar(Mark(k)[i])
    ensures forall i :: 0 < i < |Mark(k)| ==> Mark(k)[i] != '['
  {
  }

  /** At most one mark starts at any position. */
  lemma MarkPrefixUnique(j: nat, k: nat, s: string)
    ensures Mark(j) <= s && Mark(k) <= s ==> j == k
  {
    if Mark(j) <= s && Mark(k) <= s {
      var dj, dk := Decimal(j), Decimal(k);
      assert Mark(j) == "[" + dj + "]" && Mark(k) == "[" + dk + "]";
      assert forall i :: 1 <= i <= |dj| ==> s[i] == dj[i - 1];
      assert forall i :: 1 <= i <= |dk| ==> s[i] == dk[i - 1];
      assert s[1 + |dj|] == ']' && s[1 + |dk|] == ']';
      assert |dj| == |dk|;
      assert dj == s[1..1 + |dj|] == dk;
      DecimalInjective(j, k);
    }
  }

  /** A mark contains no mark but itself. */
  lemma MarkInMark(j: nat, k: nat)
    ensures ContainsSub(Mark(k), Mark(j)) ==> j == k
  {
    MarkChars(k);
    MarkChars(j);
    MarkPrefixUnique(j, k, Mark(k));
    MissingCharNoSub(Mark(k)[1..], Mark(j), '[');
  }

  /** The GetSubstitution operation of ECMA-262 for a pattern without capture groups:
      `$$` gives `$`, `$&` the matched text, `` $` `` the text before the match, `$'` the
      text after it, and any other `$` stays as it is. */
  function Substitute(repl: string, matched: string, before: string, after: string): string
    decreases |repl|
  {
    if repl == [] then []
    else if repl[0] == '$' && |repl| >= 2 then
      if repl[1] == '$' then "$" + Substitute(repl[2..], matched, before, after)
      else if repl[1] == '&' then matched + Substitute(repl[2..], matched, before, after)
      else if repl[1] == '`' then before + Substitute(repl[2..], matched, before, after)
      else if repl[1] == '\'' then after + Substitute(repl[2..], matched, before, after)
      else "$" + Substitute(repl[1..], matched, before, after)
    else [repl[0]] + Substitute(repl[1..], matched, before, after)
  }

  /** A replacement text without `$` is inserted literally. */
  lemma {:induction false} SubstituteLiteral(repl: string, matched: string, before: string, after: string)
    requires '$' !in repl
    ensures Substitute(repl, matched, before, after) == repl
    decreases |repl|
  {
    if repl != [] {
      SubstituteLiteral(repl[1..], matched, before, after);
    }
  }

  /** The four two-character patterns, each followed by literal text, and a final lone `$`
      which is kept. */
  lemma SubstitutePatterns(x: string, matched: string, before: string, after: string)
    requires '$' !in x
    ensures Substitute("$$" + x, matched, before, after) == "$" + x
    ensures Substitute("$&" + x, matched, before, after) == matched + x
    ensures Substitute("$`" + x, matched, before, after) == before + x
    ensures Substitute("$'" + x, matched, before, after) == after + x
    ensures Substitute(x + "$", matched, before, after) == x + "$"
  {
    SubstituteLiteral(x, matched, before, after);
    assert ("$$" + x)[2..] == x && ("$&" + x)[2..] == x;
    assert ("$`" + x)[2..] == x && ("$'" + x)[2..] == x;
    SubstituteTail(x, "$", matched, before, after);
  }

  /** Literal text in front of the rest is copied, and the rest substituted on its own. */
  lemma {:induction false} SubstituteTail(x: string, y: string, matched: string, before: string, after: string)
    requires '$' !in x
    ensures Substitute(x + y, matched, before, after) == x + Substitute(y, matched, before, after)
    decreases |x|
  {
    if x == [] {
      assert x + y == y;
    } else {
      assert (x + y)[0] == x[0] && (x + y)[1..] == x[1..] + y;
      SubstituteTail(x[1..], y, matched, before, after);
    }
  }

  /** `text.replace(new RegExp("\\[k\\]", "g"), link)` applied to the part `s` of the text
      that follows the already scanned part `before` */
  function ReplaceAllFrom(before: string, s: string, k: nat, link: string): string
    decreases |s|
  {
    var p := Mark(k);
    if p <= s then Substitute(link, p, before, s[|p|..]) + ReplaceAllFrom(before + p, s[|p|..], k, link)
    else if s == [] then []
    else [s[0]] + ReplaceAllFrom(before + [s[0]], s[1..], k, link)
  }

  /** `text.replace("[k]", link)`: only the first occurrence, applied after `before` */
  function ReplaceFirstFrom(before: string, s: string, k: nat, link: string): string
    decreases |s|
  {
    var p := Mark(k);
    if p <= s then Substitute(link, p, before, s[|p|..]) + s[|p|..]
    else if s == [] then []
    else [s[0]] + ReplaceFirstFrom(before + [s[0]], s[1..], k, link)
  }

  /** A text without the mark comes out of either replacement unchanged. */
  lemma {:induction false} ReplaceUnmarked(before: string, s: string, k: nat, link: string)
    requires !ContainsSub(s, Mark(k))
    ensures ReplaceAllFrom(before, s, k, link) == s
    ensures ReplaceFirstFrom(before, s, k, link) == s
    decreases |s|
  {
    if s != [] {
      ReplaceUnmarked(before + [s[0]], s[1..], k, link);
      assert s == [s[0]] + s[1..];
    }
  }

  /** MiniPlex's loop after its first m rounds: round k replaces every `[k]` by links[k-1]. */
  function ReplaceEachAll(s: string, links: seq<string>, m: nat): string
    requires m <= |links|
  {
    if m == 0 then s else ReplaceAllFrom([], ReplaceEachAll(s, links, m - 1), m, links[m - 1])
  }

  /** Search's loop after its first m rounds: round k replaces the first `[k]` by links[k-1]. */
  function ReplaceEachFirst(s: string, links: seq<string>, m: nat): string
    requires m <= |links|
  {
    if m == 0 then s else ReplaceFirstFrom([], ReplaceEachFirst(s, links, m - 1), m, links[m - 1])
  }

  /** A text holding none of the first m marks comes out of either loop unchanged. */
  lemma {:induction false} NoMarksUnchanged(s: string, links: seq<string>, m: nat)
    requires m <= |links|
    ensures (forall k :: 1 <= k <= m ==> !ContainsSub(s, Mark(k))) ==>
      ReplaceEachAll(s, links, m) == s && ReplaceEachFirst(s, links, m) == s
  {
    if m > 0 && forall k :: 1 <= k <= m ==> !ContainsSub(s, Mark(k)) {
      var n := m - 1;
      assert ReplaceEachAll(s, links, m) == ReplaceAllFrom([], ReplaceEachAll(s, links, n), n + 1, links[n]);
      assert ReplaceEachFirst(s, links, m) == ReplaceFirstFrom([], ReplaceEachFirst(s, links, n), n + 1, links[n]);
      NoMarksUnchanged(s, links, n);
      assert !ContainsSub(s, Mark(n + 1));
      ReplaceUnmarked([], s, n + 1, links[n]);
    }
  }

  /** The number k in 1..n whose mark starts `s`, or 0 when none does */
  function MarkAt(s: string, n: nat): (k: nat)
    ensures k <= n
    ensures k > 0 ==> Mark(k) <= s
  {
    if n == 0 then 0 else if Mark(n) <= s then n else MarkAt(s, n - 1)
  }

  /** MarkAt finds the mark whenever there is one. */
  lemma {:induction false} MarkAtComplete(s: string, n: nat, j: nat)
    requires 1 <= j <= n && Mark(j) <= s
    ensures MarkAt(s, n) == j
  {
    if n > j {
      MarkPrefixUnique(n, j, s);
      MarkAtComplete(s, n - 1, j);
    }
  }

  /** Single-pass rewriting: scanning left to right, a mark `[k]` with 1 <= k <= |anchors|
      becomes anchors[k-1] unless k is in `done`; with `once`, each k is rewritten at its
      first occurrence only. Everything else is copied. */
  function Linkify(s: string, anchors: seq<string>, once: bool, done: set<nat>): string
    decreases |s|
  {
    if s == [] then []
    else
      var k := MarkAt(s, |anchors|);
      if k > 0 && k !in done then
        anchors[k - 1] + Linkify(s[|Mark(k)|..], anchors, once, if once then done + {k} else done)
      else [s[0]] + Linkify(s[1..], anchors, once, done)
  }

  /** What the loops need of the k-th of n links: it begins and ends with a character no
      mark contains, has no `$`, and contains no mark of another citation. */
  predicate SafeLink(a: string, k: nat, n: nat) {
    && a != [] && !MarkChar(a[0]) && !MarkChar(a[|a| - 1])
    && '$' !in a
    && forall j :: 1 <= j <= n && j != k ==> !ContainsSub(a, Mark(j))
  }

  predicate SafeLinks(links: seq<string>) {
    forall i :: 0 <= i < |links| ==> SafeLink(links[i], i + 1, |links|)
  }

  lemma MarkAtPlain(s: string, n: nat)
    requires s == [] || s[0] != '['
    ensures MarkAt(s, n) == 0
  {
  }

  lemma MarkAtExtend(s: string, m: nat)
    ensures MarkAt(s, m + 1) == (if Mark(m + 1) <= s then m + 1 else MarkAt(s, m))
    ensures Mark(m + 1) <= s ==> MarkAt(s, m) == 0
  {
    MarkPrefixUnique(MarkAt(s, m), m + 1, s);
  }

  /** Text without `[` passes through unchanged. */
  lemma {:induction false} EmitsPlain(t: string, anchors: seq<string>, once: bool, done: set<nat>, q: string)
    requires q <= t && '[' !in q
    ensures Linkify(t, anchors, once, done) == q + Linkify(t[|q|..], anchors, once, done)
    decreases |q|
  {
    if q != [] {
      assert t[0] == q[0] && q[1..] <= t[1..];
      MarkAtPlain(t, |anchors|);
      LinkifyCopies(t, anchors, once, done);
      EmitsPlain(t[1..], anchors, once, done, q[1..]);
      assert t[1..][|q[1..]|..] == t[|q|..];
      var rest := Linkify(t[|q|..], anchors, once, done);
      assert [t[0]] + (q[1..] + rest) == ([t[0]] + q[1..]) + rest;
      assert [t[0]] + q[1..] == q;
    }
  }

  /** A text whose start is not rewritten begins with its first character. */
  lemma LinkifyCopies(s: string, anchors: seq<string>, once: bool, done: set<nat>)
    requires s != []
    requires MarkAt(s, |anchors|) == 0 || MarkAt(s, |anchors|) in done
    ensures Linkify(s, anchors, once, done) == [s[0]] + Linkify(s[1..], anchors, once, done)
  {
  }

  /** A text whose start is rewritten begins with the link. */
  lemma LinkifyRewrites(s: string, anchors: seq<string>, once: bool, done: set<nat>, k: nat)
    requires s != [] && k == MarkAt(s, |anchors|) && k > 0 && k !in done
    ensures Linkify(s, anchors, once, done)
         == anchors[k - 1] + Linkify(s[|Mark(k)|..], anchors, once, if once then done + {k} else done)
  {
  }

  lemma MarkTailOpenFree(j: nat)
    ensures '[' !in Mark(j)[1..]
  {
    var p := Mark(j);
    MarkChars(j);
    forall i | 0 <= i < |p[1..]|
      ensures p[1..][i] != '['
    {
      assert p[1..][i] == p[i + 1];
    }
  }

  /** A prefix with `[` at most at its start is copied whole when its start is not
      rewritten. */
  lemma EmitsPrefix(s: string, anchors: seq<string>, once: bool, done: set<nat>, p: string)
    requires p != [] && p <= s && '[' !in p[1..]
    requires MarkAt(s, |anchors|) == 0 || MarkAt(s, |anchors|) in done
    ensures Linkify(s, anchors, once, done) == p + Linkify(s[|p|..], anchors, once, done)
  {
    LinkifyCopies(s, anchors, once, done);
    var q := p[1..];
    var t := s[1..];
    assert q <= t;
    EmitsPlain(t, anchors, once, done, q);
    assert t[|q|..] == s[|p|..];
    var rest := Linkify(s[|p|..], anchors, once, done);
    assert Linkify(t, anchors, once, done) == q + rest;
    assert [s[0]] + (q + rest) == ([s[0]] + q) + rest;
    assert [s[0]] + q == p;
  }

  /** A mark that is not rewritten at the start of the text is copied whole. */
  lemma EmitsMarkLiterally(s: string, anchors: seq<string>, once: bool, done: set<nat>, j: nat)
    requires Mark(j) <= s
    requires MarkAt(s, |anchors|) == 0 || MarkAt(s, |anchors|) in done
    ensures Linkify(s, anchors, once, done) == Mark(j) + Linkify(s[|Mark(j)|..], anchors, once, done)
  {
    MarkTailOpenFree(j);
    EmitsPrefix(s, anchors, once, done, Mark(j));
  }

  predicate PlainEdges(anchors: seq<string>) {
    forall i :: 0 <= i < |anchors| ==> anchors[i] != [] && !MarkChar(anchors[i][0])
  }

  /** Every character of `q` is one marks are made of */
  predicate MarkRun(q: string) {
    forall i :: 0 <= i < |q| ==> MarkChar(q[i])
  }

  lemma MarkRunTail(q: string)
    requires q != [] && MarkRun(q)
    ensures MarkRun(q[1..])
  {
    forall i | 0 <= i < |q[1..]|
      ensures MarkChar(q[1..][i])
    {
      assert q[1..][i] == q[i + 1];
    }
  }

  /** A prefix of a text with a known first character is that character followed by a
      prefix of the rest. */
  lemma PrefixOfCons(q: string, c: char, u: string, v: string)
    requires q != []
    ensures q <= [c] + u ==> q[0] == c && q[1..] <= u
    ensures q[0] == c && q[1..] <= v ==> q <= [c] + v
  {
    if q <= [c] + u {
      assert q[1..] == ([c] + u)[1..|q|];
    }
    if q[0] == c && q[1..] <= v {
      assert q == [c] + q[1..];
    }
  }

  /** Rewriting never manufactures the tail of a mark: a run of mark characters at the
      start of the output was already at the start of the input. */
  lemma {:induction false} HiddenMarkTail(t: string, anchors: seq<string>, once: bool, done: set<nat>, q: string)
    requires PlainEdges(anchors)
    requires q != [] && MarkRun(q)
    ensures q <= Linkify(t, anchors, once, done) ==> q <= t
    decreases |q|
  {
    if t != [] {
      var k := MarkAt(t, |anchors|);
      if k > 0 && k !in done {
        LinkifyRewrites(t, anchors, once, done, k);
        var o := Linkify(t, anchors, once, done);
        assert o[0] == anchors[k - 1][0] && !MarkChar(o[0]);
        assert MarkChar(q[0]);
      } else {
        LinkifyCopies(t, anchors, once, done);
        if |q| > 1 {
          MarkRunTail(q);
          HiddenMarkTail(t[1..], anchors, once, done, q[1..]);
        }
        PrefixOfCons(q, t[0], Linkify(t[1..], anchors, once, done), t[1..]);
        assert [t[0]] + t[1..] == t;
      }
    }
  }

  /** The replacement copies a first character that does not start the mark. */
  lemma ReplaceAllCopies(before: string, s: string, k: nat, link: string)
    requires s != [] && !(Mark(k) <= s)
    ensures ReplaceAllFrom(before, s, k, link) == [s[0]] + ReplaceAllFrom(before + [s[0]], s[1..], k, link)
  {
  }

  lemma ReplaceFirstCopies(before: string, s: string, k: nat, link: string)
    requires s != [] && !(Mark(k) <= s)
    ensures ReplaceFirstFrom(before, s, k, link) == [s[0]] + ReplaceFirstFrom(before + [s[0]], s[1..], k, link)
  {
  }

  /** The sequence facts of taking one character off the front of `x` */
  lemma HeadSplit(before: string, x: string, y: string, r: string)
    requires x != []
    ensures (x + y)[0] == x[0] && (x + y)[1..] == x[1..] + y
    ensures before + [x[0]] + x[1..] == before + x
    ensures [x[0]] + (x[1..] + r) == x + r
    ensures x[1..] == [] || x[1..][|x[1..]| - 1] == x[|x| - 1]
  {
    assert x == [x[0]] + x[1..];
  }

  lemma NoSubTail(x: string, p: string)
    requires x != [] && !ContainsSub(x, p)
    ensures !(p <= x) && !ContainsSub(x[1..], p)
  {
  }

  /** The handlers' replacement skips over text that holds no occurrence of the mark. */
  lemma {:induction false} ReplaceAllSkips(before: string, x: string, y: string, k: nat, link: string)
    requires !ContainsSub(x, Mark(k))
    requires x == [] || !MarkChar(x[|x| - 1])
    ensures ReplaceAllFrom(before, x + y, k, link) == x + ReplaceAllFrom(before + x, y, k, link)
    decreases |x|
  {
    if x == [] {
      assert x + y == y && before + x == before;
    } else {
      NoMarkAtJoin(x, y, k);
      NoSubTail(x, Mark(k));
      HeadSplit(before, x, y, ReplaceAllFrom(before + x, y, k, link));
      ReplaceAllCopies(before, x + y, k, link);
      ReplaceAllSkips(before + [x[0]], x[1..], y, k, link);
    }
  }

  lemma {:induction false} ReplaceFirstSkips(before: string, x: string, y: string, k: nat, link: string)
    requires !ContainsSub(x, Mark(k))
    requires x == [] || !MarkChar(x[|x| - 1])
    ensures ReplaceFirstFrom(before, x + y, k, link) == x + ReplaceFirstFrom(before + x, y, k, link)
    decreases |x|
  {
    if x == [] {
      assert x + y == y && before + x == before;
    } else {
      NoMarkAtJoin(x, y, k);
      NoSubTail(x, Mark(k));
      HeadSplit(before, x, y, ReplaceFirstFrom(before + x, y, k, link));
      ReplaceFirstCopies(before, x + y, k, link);
      ReplaceFirstSkips(before + [x[0]], x[1..], y, k, link);
    }
  }

  /** A mark cannot start inside a nonempty text that lacks it and ends outside marks. */
  lemma NoMarkAtJoin(x: string, y: string, k: nat)
    requires x != []
    requires !ContainsSub(x, Mark(k))
    requires !MarkChar(x[|x| - 1])
    ensures !(Mark(k) <= x + y)
  {
    var p := Mark(k);
    MarkChars(k);
    if |p| <= |x| {
      assert (x + y)[..|p|] == x[..|p|];
    } else {
      assert MarkChar(p[|x| - 1]);
      assert (x + y)[|x| - 1] == x[|x| - 1];
    }
  }

  /** Joining two texts that lack a mark gives a text that lacks it when the seam
      cannot hide one. */
  lemma {:induction false} NoSubConcat(x: string, y: string, j: nat)
    requires !ContainsSub(x, Mark(j)) && !ContainsSub(y, Mark(j))
    requires x == [] || y == [] || !MarkChar(x[|x| - 1]) || !MarkChar(y[0])
    ensures !ContainsSub(x + y, Mark(j))
    decreases |x|
  {
    var p := Mark(j);
    MarkChars(j);
    if x == [] {
      assert x + y == y;
    } else {
      if |p| <= |x| {
        assert (x + y)[..|p|] == x[..|p|];
      } else if y != [] {
        assert MarkChar(p[|x| - 1]) && MarkChar(p[|x|]);
        assert (x + y)[|x| - 1] == x[|x| - 1] && (x + y)[|x|] == y[0];
      }
      assert (x + y)[1..] == x[1..] + y;
      NoSubConcat(x[1..], y, j);
    }
  }

  lemma {:induction false} NoAnchors(s: string, once: bool, done: set<nat>)
    ensures Linkify(s, [], once, done) == s
    decreases |s|
  {
    if s != [] {
      NoAnchors(s[1..], once, done);
      assert [s[0]] + s[1..] == s;
    }
  }

  /** One round of MiniPlex's loop turns the rewriting of the first m marks into the
      rewriting of the first m+1. */
  lemma {:induction false} StepAll(s: string, links: seq<string>, m: nat, before: string)
    requires m < |links| && SafeLinks(links)
    ensures ReplaceAllFrom(before, Linkify(s, links[..m], false, {}), m + 1, links[m])
         == Linkify(s, links[..m + 1], false, {})
    decreases |s|, 1
  {
    if s != [] {
      var k := MarkAt(s, m);
      assert |links[..m]| == m;
      MarkAtExtend(s, m);
      if k > 0 {
        StepAllAnchor(s, links, m, before, k);
      } else if Mark(m + 1) <= s {
        StepAllMark(s, links, m, before);
      } else {
        StepAllPlain(s, links, m, before);
      }
    }
  }

  /** The text starts with the mark of an earlier round: its link is kept as it is. */
  lemma {:induction false} StepAllAnchor(s: string, links: seq<string>, m: nat, before: string, k: nat)
    requires m < |links| && SafeLinks(links)
    requires s != [] && 0 < k && k == MarkAt(s, m)
    ensures ReplaceAllFrom(before, Linkify(s, links[..m], false, {}), m + 1, links[m])
         == Linkify(s, links[..m + 1], false, {})
    decreases |s|, 0
  {
    var a, b, p := links[..m], links[..m + 1], Mark(m + 1);
    assert |a| == m && |b| == m + 1;
    MarkAtExtend(s, m);
    MarkPrefixUnique(k, m + 1, s);
    assert MarkAt(s, |b|) == k;
    var rest := s[|Mark(k)|..];
    var x := links[k - 1];
    assert a[k - 1] == x && b[k - 1] == x;
    assert !ContainsSub(x, p) && x != [] && !MarkChar(x[|x| - 1]) by {
      assert SafeLink(links[k - 1], k, |links|);
    }
    LinkifyRewrites(s, a, false, {}, k);
    LinkifyRewrites(s, b, false, {}, k);
    var ya := Linkify(rest, a, false, {});
    ReplaceAllSkips(before, x, ya, m + 1, links[m]);
    StepAll(rest, links, m, before + x);
  }

  /** The text starts with the mark of this round: it becomes the round's link. */
  lemma {:induction false} StepAllMark(s: string, links: seq<string>, m: nat, before: string)
    requires m < |links| && SafeLinks(links)
    requires Mark(m + 1) <= s
    ensures ReplaceAllFrom(before, Linkify(s, links[..m], false, {}), m + 1, links[m])
         == Linkify(s, links[..m + 1], false, {})
    decreases |s|, 0
  {
    var a, b, p := links[..m], links[..m + 1], Mark(m + 1);
    assert |a| == m && |b| == m + 1;
    MarkAtExtend(s, m);
    var rest := s[|p|..];
    EmitsMarkLiterally(s, a, false, {}, m + 1);
    var out := Linkify(rest, a, false, {});
    assert (p + out)[|p|..] == out;
    SubstituteLiteral(links[m], p, before, out);
    assert ReplaceAllFrom(before, p + out, m + 1, links[m])
        == links[m] + ReplaceAllFrom(before + p, out, m + 1, links[m]);
    assert Linkify(s, b, false, {}) == links[m] + Linkify(rest, b, false, {});
    StepAll(rest, links, m, before + p);
  }

  /** When the text does not start with `[j]`, copying its first character in front of the
      rewritten rest does not make it start with `[j]` either. */
  lemma FirstCharSkipsMark(s: string, anchors: seq<string>, once: bool, done: set<nat>, j: nat)
    requires PlainEdges(anchors)
    requires s != [] && !(Mark(j) <= s)
    ensures !(Mark(j) <= [s[0]] + Linkify(s[1..], anchors, once, done))
  {
    var p := Mark(j);
    MarkChars(j);
    assert MarkRun(p);
    MarkRunTail(p);
    HiddenMarkTail(s[1..], anchors, once, done, p[1..]);
    PrefixOfCons(p, s[0], Linkify(s[1..], anchors, once, done), s[1..]);
    assert [s[0]] + s[1..] == s;
  }

  /** The text starts with no mark of the first m+1 rounds: its first character is copied. */
  lemma {:induction false} StepAllPlain(s: string, links: seq<string>, m: nat, before: string)
    requires m < |links| && SafeLinks(links)
    requires s != [] && MarkAt(s, m) == 0 && !(Mark(m + 1) <= s)
    ensures ReplaceAllFrom(before, Linkify(s, links[..m], false, {}), m + 1, links[m])
         == Linkify(s, links[..m + 1], false, {})
    decreases |s|, 0
  {
    var a, b, p := links[..m], links[..m + 1], Mark(m + 1);
    assert |a| == m && |b| == m + 1;
    assert PlainEdges(a);
    MarkAtExtend(s, m);
    var out := Linkify(s[1..], a, false, {});
    LinkifyCopies(s, a, false, {});
    LinkifyCopies(s, b, false, {});
    FirstCharSkipsMark(s, a, false, {}, m + 1);
    ReplaceAllCopies(before, [s[0]] + out, m + 1, links[m]);
    assert ([s[0]] + out)[0] == s[0] && ([s[0]] + out)[1..] == out;
    StepAll(s[1..], links, m, before + [s[0]]);
  }

  /** Marking a number done and adding its link changes nothing. */
  lemma {:induction false} DoneMarkInert(t: string, links: seq<string>, m: nat, d: set<nat>)
    requires m < |links|
    ensures Linkify(t, links[..m], true, d) == Linkify(t, links[..m + 1], true, d + {m + 1})
    decreases |t|
  {
    var a, b := links[..m], links[..m + 1];
    assert |a| == m && |b| == m + 1;
    if t != [] {
      var k := MarkAt(t, m);
      MarkAtExtend(t, m);
      if Mark(m + 1) <= t {
        assert MarkAt(t, |a|) == 0 && MarkAt(t, |b|) in d + {m + 1};
        LinkifyCopies(t, a, true, d);
        LinkifyCopies(t, b, true, d + {m + 1});
        DoneMarkInert(t[1..], links, m, d);
      } else if k > 0 && k !in d {
        assert MarkAt(t, |a|) == k && MarkAt(t, |b|) == k && k !in d + {m + 1};
        assert a[k - 1] == b[k - 1];
        LinkifyRewrites(t, a, true, d, k);
        LinkifyRewrites(t, b, true, d + {m + 1}, k);
        DoneMarkInert(t[|Mark(k)|..], links, m, d + {k});
        assert d + {k} + {m + 1} == d + {m + 1} + {k};
      } else {
        assert MarkAt(t, |a|) == k && MarkAt(t, |b|) == k;
        LinkifyCopies(t, a, true, d);
        LinkifyCopies(t, b, true, d + {m + 1});
        DoneMarkInert(t[1..], links, m, d);
      }
    }
  }

  /** One round of Search's loop turns the rewriting of the first m marks into the
      rewriting of the first m+1. */
  lemma {:induction false} StepFirst(s: string, links: seq<string>, m: nat, before: string, done: set<nat>)
    requires m < |links| && SafeLinks(links)
    requires m + 1 !in done
    ensures ReplaceFirstFrom(before, Linkify(s, links[..m], true, done), m + 1, links[m])
         == Linkify(s, links[..m + 1], true, done)
    decreases |s|, 1
  {
    if s != [] {
      var k := MarkAt(s, m);
      assert |links[..m]| == m;
      MarkAtExtend(s, m);
      if k > 0 && k !in done {
        StepFirstAnchor(s, links, m, before, done, k);
      } else if Mark(m + 1) <= s {
        StepFirstMark(s, links, m, before, done);
      } else {
        StepFirstPlain(s, links, m, before, done);
      }
    }
  }

  lemma {:induction false} StepFirstAnchor(s: string, links: seq<string>, m: nat, before: string, done: set<nat>, k: nat)
    requires m < |links| && SafeLinks(links)
    requires m + 1 !in done
    requires s != [] && 0 < k && k == MarkAt(s, m) && k !in done
    ensures ReplaceFirstFrom(before, Linkify(s, links[..m], true, done), m + 1, links[m])
         == Linkify(s, links[..m + 1], true, done)
    decreases |s|, 0
  {
    var a, b, p := links[..m], links[..m + 1], Mark(m + 1);
    assert |a| == m && |b| == m + 1;
    MarkAtExtend(s, m);
    MarkPrefixUnique(k, m + 1, s);
    var rest := s[|Mark(k)|..];
    var x := links[k - 1];
    assert a[k - 1] == x && b[k - 1] == x;
    assert !ContainsSub(x, p) && x != [] && !MarkChar(x[|x| - 1]) by {
      assert SafeLink(links[k - 1], k, |links|);
    }
    assert MarkAt(s, |a|) == k && MarkAt(s, |b|) == k;
    assert m + 1 !in done + {k};
    LinkifyRewrites(s, a, true, done, k);
    LinkifyRewrites(s, b, true, done, k);
    ReplaceFirstSkips(before, x, Linkify(rest, a, true, done + {k}), m + 1, links[m]);
    StepFirst(rest, links, m, before + x, done + {k});
  }

  lemma {:induction false} StepFirstMark(s: string, links: seq<string>, m: nat, before: string, done: set<nat>)
    requires m < |links| && SafeLinks(links)
    requires m + 1 !in done
    requires Mark(m + 1) <= s
    ensures ReplaceFirstFrom(before, Linkify(s, links[..m], true, done), m + 1, links[m])
         == Linkify(s, links[..m + 1], true, done)
    decreases |s|, 0
  {
    var a, b, p := links[..m], links[..m + 1], Mark(m + 1);
    assert |a| == m && |b| == m + 1;
    MarkAtExtend(s, m);
    var rest := s[|p|..];
    EmitsMarkLiterally(s, a, true, done, m + 1);
    var out := Linkify(rest, a, true, done);
    assert (p + out)[|p|..] == out;
    SubstituteLiteral(links[m], p, before, out);
    assert ReplaceFirstFrom(before, p + out, m + 1, links[m]) == links[m] + out;
    assert Linkify(s, b, true, done) == links[m] + Linkify(rest, b, true, done + {m + 1});
    DoneMarkInert(rest, links, m, done);
  }

  lemma {:induction false} StepFirstPlain(s: string, links: seq<string>, m: nat, before: string, done: set<nat>)
    requires m < |links| && SafeLinks(links)
    requires m + 1 !in done
    requires s != [] && (MarkAt(s, m) == 0 || MarkAt(s, m) in done) && !(Mark(m + 1) <= s)
    ensures ReplaceFirstFrom(before, Linkify(s, links[..m], true, done), m + 1, links[m])
         == Linkify(s, links[..m + 1], true, done)
    decreases |s|, 0
  {
    var a, b, p := links[..m], links[..m + 1], Mark(m + 1);
    assert |a| == m && |b| == m + 1;
    assert PlainEdges(a);
    MarkAtExtend(s, m);
    var out := Linkify(s[1..], a, true, done);
    LinkifyCopies(s, a, true, done);
    LinkifyCopies(s, b, true, done);
    FirstCharSkipsMark(s, a, true, done, m + 1);
    ReplaceFirstCopies(before, [s[0]] + out, m + 1, links[m]);
    assert ([s[0]] + out)[0] == s[0] && ([s[0]] + out)[1..] == out;
    StepFirst(s[1..], links, m, before + [s[0]], done);
  }

  /** MiniPlex's loop rewrites every mark `[k]`, 1 <= k <= m, of the ORIGINAL text into
      its link in one pass, whatever order the rounds ran in. */
  lemma {:induction false} ReplaceEachAllIsLinkify(s: string, links: seq<string>, m: nat)
    requires m <= |links| && SafeLinks(links)
    ensures ReplaceEachAll(s, links, m) == Linkify(s, links[..m], false, {})
  {
    if m == 0 {
      assert links[..0] == [];
      NoAnchors(s, false, {});
    } else {
      var n := m - 1;
      var prev := ReplaceEachAll(s, links, n);
      assert ReplaceEachAll(s, links, m) == ReplaceAllFrom([], prev, n + 1, links[n]);
      ReplaceEachAllIsLinkify(s, links, n);
      StepAll(s, links, n, []);
    }
  }

  /** Search's loop rewrites the first occurrence in the ORIGINAL text of each mark `[k]`,
      1 <= k <= m, into its link in one pass. */
  lemma {:induction false} ReplaceEachFirstIsLinkify(s: string, links: seq<string>, m: nat)
    requires m <= |links| && SafeLinks(links)
    ensures ReplaceEachFirst(s, links, m) == Linkify(s, links[..m], true, {})
  {
    if m == 0 {
      assert links[..0] == [];
      NoAnchors(s, true, {});
    } else {
      var n := m - 1;
      var prev := ReplaceEachFirst(s, links, n);
      assert ReplaceEachFirst(s, links, m) == ReplaceFirstFrom([], prev, n + 1, links[n]);
      ReplaceEachFirstIsLinkify(s, links, n);
      StepFirst(s, links, n, [], {});
    }
  }

  const AnchorOpen := "<a href=\""
  /** A mark of 1..|anchors| not yet done is replaced by its anchor. */
  lemma LinksMark(s: string, anchors: seq<string>, once: bool, done: set<nat>, k: nat)
    requires 1 <= k <= |anchors| && Mark(k) <= s && k !in done
    ensures Linkify(s, anchors, once, done)
      == anchors[k - 1] + Linkify(s[|Mark(k)|..], anchors, once, if once then done + {k} else done)
  {
    MarkAtComplete(s, |anchors|, k);
  }

  /** A mark written twice, with `once`: only its first occurrence is linked, the second
      stays text. */
  lemma RepeatedMarkOnce(k: nat, anchors: seq<string>)
    requires 1 <= k <= |anchors|
    ensures Linkify(Mark(k) + Mark(k), anchors, true, {}) == anchors[k - 1] + Mark(k)
  {
    var p := Mark(k);
    assert p <= p + p && (p + p)[|p|..] == p;
    LinksMark(p + p, anchors, true, {}, k);
    assert {} + {k} == {k};
    SecondMarkText(k, anchors);
  }

  lemma SecondMarkText(k: nat, anchors: seq<string>)
    requires 1 <= k <= |anchors|
    ensures Linkify(Mark(k), anchors, true, {k}) == Mark(k)
  {
    var p := Mark(k);
    assert p <= p;
    MarkAtComplete(p, |anchors|, k);
    EmitsMarkLiterally(p, anchors, true, {k}, k);
    assert p[|p|..] == [];
    assert Linkify([], anchors, true, {k}) == [];
    assert p + [] == p;
  }

  /** A mark written twice, without `once`: both occurrences are linked. */
  lemma RepeatedMarkAll(k: nat, anchors: seq<string>)
    requires 1 <= k <= |anchors|
    ensures Linkify(Mark(k) + Mark(k), anchors, false, {}) == anchors[k - 1] + anchors[k - 1]
  {
    var p := Mark(k);
    assert p <= p + p && (p + p)[|p|..] == p;
    LinksMark(p + p, anchors, false, {}, k);
    assert p <= p;
    LinksMark(p, anchors, false, {}, k);
    assert p[|p|..] == [];
  }

  // The attribute text is written in short pieces so that facts about its characters stay
  // cheap to prove.
  const TargetAttr := "\" target=\"_blank\""
  const RelAttr := " rel=\"noopener noreferrer\""
  const ClassOpen := " class=\"text-primary"
  const ClassHover := " hover:underline"
  const ClassFlex := " inline-flex"
  const ClassClose := " items-center gap-1\">"
  const AnchorMiddle := TargetAttr + RelAttr + ClassOpen + ClassHover + ClassFlex + ClassClose
  const SpanOpen := "<span class=\"text-xs"
  const SpanClass := " text-muted-foreground\">("
  const LabelOpen := SpanOpen + SpanClass
  const AnchorClose := ")</span></a>"

  /** The link both handlers build for the k-th citation: the mark itself, pointing at the
      citation's url and followed by its title in parentheses */
  function Anchor(k: nat, c: Citation): string {
    AnchorOpen + c.url + AnchorMiddle + Mark(k) + LabelOpen + c.title + AnchorClose
  }

  /** The links of citations 1..|cs|, in order */
  function Anchors(cs: seq<Citation>): (r: seq<string>)
    ensures |r| == |cs|
    ensures forall i :: 0 <= i < |r| ==> r[i] == Anchor(i + 1, cs[i])
  {
    seq(|cs|, i requires 0 <= i < |cs| => Anchor(i + 1, cs[i]))
  }

  /** The k-th of n citations has neither `$` nor another citation's mark in its url or title. */
  predicate PlainCitation(c: Citation, k: nat, n: nat) {
    && '$' !in c.url && '$' !in c.title
    && forall j :: 1 <= j <= n && j != k ==> !ContainsSub(c.url, Mark(j)) && !ContainsSub(c.title, Mark(j))
  }

  /** Text in which no mark can start and no replacement pattern can hide */
  predicate Inert(s: string) {
    '[' !in s && '$' !in s
  }

  lemma AttrsInert()
    ensures Inert(TargetAttr) && Inert(RelAttr)
  {
  }

  lemma ClassesInert()
    ensures Inert(ClassOpen) && Inert(ClassHover)
  {
  }

  lemma ClassTailInert()
    ensures Inert(ClassFlex) && Inert(ClassClose)
  {
  }

  lemma SpanInert()
    ensures Inert(SpanOpen)
  {
  }

  lemma SpanClassInert()
    ensures Inert(SpanClass)
  {
  }

  lemma EdgesInert()
    ensures Inert(AnchorOpen) && Inert(AnchorClose)
  {
  }

  /** The fixed parts of a link contain no `[` and no `$`, and begin and end outside marks. */
  lemma AnchorPartsPlain()
    ensures Inert(AnchorOpen) && Inert(AnchorMiddle) && Inert(LabelOpen) && Inert(AnchorClose)
    ensures AnchorOpen[0] == '<' && AnchorOpen[|AnchorOpen| - 1] == '"'
    ensures AnchorMiddle[0] == '"' && AnchorMiddle[|AnchorMiddle| - 1] == '>'
    ensures LabelOpen[0] == '<' && LabelOpen[|LabelOpen| - 1] == '('
    ensures AnchorClose[0] == ')' && AnchorClose[|AnchorClose| - 1] == '>'
  {
    AttrsInert();
    ClassesInert();
    ClassTailInert();
    SpanInert();
    SpanClassInert();
    EdgesInert();
    assert AnchorMiddle[0] == TargetAttr[0];
    assert AnchorMiddle[|AnchorMiddle| - 1] == ClassClose[|ClassClose| - 1];
    assert LabelOpen[0] == SpanOpen[0];
    assert LabelOpen[|LabelOpen| - 1] == SpanClass[|SpanClass| - 1];
  }

  /** The concatenation step of a link, over arbitrary fixed parts `o`, `m`, `l`, `e` around
      the url `u`, the mark of `k` and the title `t` */
  lemma {:induction false} PartsLackMark(o: string, u: string, m: string, k: nat, l: string, t: string, e: string, j: nat)
    requires j != k
    requires Inert(o) && Inert(m) && Inert(l) && Inert(e)
    requires o != [] && m != [] && l != [] && e != []
    requires !MarkChar(o[|o| - 1]) && !MarkChar(m[0]) && !MarkChar(m[|m| - 1])
    requires !MarkChar(l[0]) && !MarkChar(l[|l| - 1]) && !MarkChar(e[0])
    requires !ContainsSub(u, Mark(j)) && !ContainsSub(t, Mark(j))
    ensures !ContainsSub(o + u + m + Mark(k) + l + t + e, Mark(j))
  {
    var p := Mark(j);
    MarkChars(j);
    assert p[0] == '[';
    MissingCharNoSub(o, p, '[');
    MissingCharNoSub(m, p, '[');
    MissingCharNoSub(l, p, '[');
    MissingCharNoSub(e, p, '[');
    MarkInMark(j, k);
    var s1 := o + u;
    NoSubConcat(o, u, j);
    var s2 := s1 + m;
    NoSubConcat(s1, m, j);
    assert s2[|s2| - 1] == m[|m| - 1];
    var s3 := s2 + Mark(k);
    NoSubConcat(s2, Mark(k), j);
    var s4 := s3 + l;
    NoSubConcat(s3, l, j);
    assert s4[|s4| - 1] == l[|l| - 1];
    var s5 := s4 + t;
    NoSubConcat(s4, t, j);
    NoSubConcat(s5, e, j);
  }

  lemma AnchorLacksMark(k: nat, j: nat, c: Citation)
    requires j != k
    requires !ContainsSub(c.url, Mark(j)) && !ContainsSub(c.title, Mark(j))
    ensures !ContainsSub(Anchor(k, c), Mark(j))
  {
    AnchorPartsPlain();
    PartsLackMark(AnchorOpen, c.url, AnchorMiddle, k, LabelOpen, c.title, AnchorClose, j);
  }

  lemma AnchorSafe(k: nat, n: nat, c: Citation)
    requires 1 <= k <= n && PlainCitation(c, k, n)
    ensures SafeLink(Anchor(k, c), k, n)
  {
    AnchorPartsPlain();
    var a := Anchor(k, c);
    assert a[0] == '<' && a[|a| - 1] == '>';
    forall j | 1 <= j <= n && j != k
      ensures !ContainsSub(a, Mark(j))
    {
      AnchorLacksMark(k, j, c);
    }
  }

  lemma AnchorsSafe(cs: seq<Citation>)
    requires forall i :: 0 <= i < |cs| ==> PlainCitation(cs[i], i + 1, |cs|)
    ensures SafeLinks(Anchors(cs))
  {
    forall i | 0 <= i < |cs|
      ensures SafeLink(Anchors(cs)[i], i + 1, |cs|)
    {
      AnchorSafe(i + 1, |cs|, cs[i]);
    }
  }
}
