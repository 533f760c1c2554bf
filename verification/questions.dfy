/** The related questions MiniPlex reads off the model's answer: the lines that, trimmed,
    are a numbered question (`/^\d+\.\s+.+\?$/`), the first three of them, each with its
    number stripped by `line.replace(/^\d+\.\s+/, '')` from the untrimmed line. */
module RelatedQuestions {
  import opened Text

  /** `^\d+\.\s+.+\?$` against a whole text: digits, a dot, at least one whitespace
      character, at least one character that is not a line terminator, and a final `?` */
  predicate IsNumberedQuestion(t: string) {
    var d := DigitsEnd(t, 0);
    && 0 < d < |t| && t[d] == '.'
    && t[|t| - 1] == '?'
    && exists j :: d + 2 <= j <= |t| - 2 && QuestionSplit(t, d, j)
  }

  /** `\s+` takes t[d+1..j] and `.+` takes t[j..|t|-1] */
  predicate QuestionSplit(t: string, d: nat, j: nat) {
    d + 2 <= j <= |t| - 2 && AllSpace(t[d + 1..j]) && NoLineTerminator(t[j..|t| - 1])
  }

  /** The filter test `line.trim().match(...)` */
  predicate IsQuestionLine(l: string) {
    IsNumberedQuestion(Trim(l))
  }

  /** `lines.filter(...)`, order kept */
  function QuestionLines(lines: seq<string>): (r: seq<string>)
    ensures |r| <= |lines|
  {
    if lines == [] then []
    else (if IsQuestionLine(lines[0]) then [lines[0]] else []) + QuestionLines(lines[1..])
  }

  /** The kept lines are exactly the question lines among the lines. */
  lemma {:induction false} QuestionLinesMembers(lines: seq<string>)
    ensures forall l :: l in QuestionLines(lines) <==> l in lines && IsQuestionLine(l)
  {
    if lines != [] {
      QuestionLinesMembers(lines[1..]);
      assert lines == [lines[0]] + lines[1..];
    }
  }

  /** Filtering a concatenation filters each part: the kept lines stay in their order. */
  lemma {:induction false} QuestionLinesConcat(a: seq<string>, b: seq<string>)
    ensures QuestionLines(a + b) == QuestionLines(a) + QuestionLines(b)
    decreases |a|
  {
    if a == [] {
      assert a + b == b;
    } else {
      assert a == [a[0]] + a[1..];
      assert a + b == [a[0]] + (a[1..] + b);
      var h := if IsQuestionLine(a[0]) then [a[0]] else [];
      var x, y := QuestionLines(a[1..]), QuestionLines(b);
      QuestionLinesCons(a[0], a[1..]);
      QuestionLinesCons(a[0], a[1..] + b);
      QuestionLinesConcat(a[1..], b);
      assert QuestionLines(a + b) == h + (x + y);
      assert QuestionLines(a) == h + x;
      ConcatAssoc(h, x, y);
    }
  }

  lemma ConcatAssoc(h: seq<string>, x: seq<string>, y: seq<string>)
    ensures (h + x) + y == h + (x + y)
  {
  }

  /** The filter decides the first line, then goes on with the rest. */
  lemma QuestionLinesCons(x: string, rest: seq<string>)
    ensures QuestionLines([x] + rest) == (if IsQuestionLine(x) then [x] else []) + QuestionLines(rest)
  {
    var l := [x] + rest;
    assert l[0] == x && l[1..] == rest;
  }

  /** One line is kept exactly when it is a question line. */
  lemma QuestionLinesOne(l: string)
    ensures QuestionLines([l]) == if IsQuestionLine(l) then [l] else []
  {
    assert [l][1..] == [];
  }

  /** `line.replace(/^\d+\.\s+/, '')`: drops a leading number, its dot and the whitespace
      after it, when the line starts with them */
  function StripNumber(l: string): (r: string)
    ensures |r| <= |l| && r == l[|l| - |r|..]
  {
    var d := DigitsEnd(l, 0);
    if 0 < d && d + 1 < |l| && l[d] == '.' && IsSpace(l[d + 1]) then l[SpacesEnd(l, d + 1)..] else l
  }

  /** `slice(0, 3)` */
  function FirstThree(ls: seq<string>): (r: seq<string>)
    ensures |r| == (if |ls| < 3 then |ls| else 3)
    ensures forall i :: 0 <= i < |r| ==> r[i] == ls[i]
  {
    if |ls| < 3 then ls else ls[..3]
  }

  /** `map(line => line.replace(...))` */
  function StripEach(ls: seq<string>): (r: seq<string>)
    ensures |r| == |ls|
    ensures forall i :: 0 <= i < |r| ==> r[i] == StripNumber(ls[i])
  {
    seq(|ls|, i requires 0 <= i < |ls| => StripNumber(ls[i]))
  }

  /** At most three questions, from the qualifying lines in line order */
  function Questions(content: string): (r: seq<string>)
    ensures |r| <= 3
  {
    StripEach(FirstThree(QuestionLines(Split(content, '\n'))))
  }

  /** The i-th question is the i-th qualifying line of the answer with its number
      stripped; three are kept when there are that many. */
  lemma QuestionsFromLines(content: string)
    ensures var ql := QuestionLines(Split(content, '\n'));
      && |Questions(content)| == (if |ql| < 3 then |ql| else 3)
      && forall i :: 0 <= i < |Questions(content)| ==>
        && ql[i] in Split(content, '\n') && IsQuestionLine(ql[i])
        && Questions(content)[i] == StripNumber(ql[i])
  {
    var lines := Split(content, '\n');
    var ql := QuestionLines(lines);
    var r := Questions(content);
    QuestionLinesMembers(lines);
    assert r == StripEach(FirstThree(ql));
    forall i | 0 <= i < |r|
      ensures ql[i] in lines && IsQuestionLine(ql[i]) && r[i] == StripNumber(ql[i])
    {
      assert ql[i] in ql;
      assert FirstThree(ql)[i] == ql[i];
    }
  }

  /** Stripping undoes numbering: a number, a dot and whitespace put in front of a text that
      does not start with whitespace are removed again. */
  lemma StripNumberOf(digits: string, w: string, q: string)
    requires digits != [] && AllDigits(digits)
    requires w != [] && AllSpace(w)
    requires q == [] || !IsSpace(q[0])
    ensures StripNumber(digits + "." + w + q) == q
  {
    var l := digits + "." + w + q;
    var d := |digits|;
    assert forall i :: 0 <= i < d ==> l[i] == digits[i];
    assert l[d] == '.';
    DigitsEndAt(l, 0, d);
    assert forall i :: d + 1 <= i < d + 1 + |w| ==> l[i] == w[i - d - 1];
    assert q != [] ==> l[d + 1 + |w|] == q[0];
    SpacesEndAt(l, d + 1, d + 1 + |w|);
    assert l[d + 1 + |w|..] == q;
  }

  /** A line that only qualifies once trimmed (it starts with whitespace) keeps its number:
      the strip is tried on the untrimmed line. */
  lemma IndentedQuestionKept(l: string)
    requires IsQuestionLine(l) && l != [] && IsSpace(l[0])
    ensures StripNumber(l) == l
    ensures IsDigit(Trim(l)[0])
  {
    var t := Trim(l);
    assert DigitsEnd(t, 0) > 0;
  }

  /** Stripping a numbered question leaves a non-empty question: it starts with a
      non-whitespace character and ends with the `?`. */
  lemma NumberedQuestionStripped(t: string)
    requires IsNumberedQuestion(t)
    ensures var r := StripNumber(t);
      r != [] && !IsSpace(r[0]) && r[|r| - 1] == '?' && |r| < |t|
  {
    var d := DigitsEnd(t, 0);
    var j: nat :| d + 2 <= j <= |t| - 2 && QuestionSplit(t, d, j);
    assert IsSpace(t[d + 1]) by {
      assert t[d + 1] == t[d + 1..j][0];
    }
    var e := SpacesEnd(t, d + 1);
    assert e < |t| by {
      assert t[|t| - 1] == '?';
    }
  }

  /** From a line that needs no trimming the strip leaves the question text. */
  lemma TrimmedQuestionStripped(l: string)
    requires IsQuestionLine(l) && Trimmed(l)
    ensures var r := StripNumber(l);
      r != [] && !IsSpace(r[0]) && r[|r| - 1] == '?' && |r| < |l|
  {
    assert [] + l + [] == l;
    TrimPadded([], l, []);
    NumberedQuestionStripped(l);
  }
}
