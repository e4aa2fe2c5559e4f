/**
  src/TibQA/html_parser.py: every `<p>` of an HTML page contributes the text
  of its first `span0` span, if it has one. A span whose stripped text holds
  `ལན།` is an answer: the mark is removed and the rest stripped. Any other
  span is a question whose first space-separated token (its printed number)
  is dropped. Questions and answers are numbered by two independent counters
  starting at 1, each entry being the bracketed Tibetan index, a space, and
  the text.

  The page itself is not parsed here: the input is, per paragraph, the text
  of its first `span0` span (`None` for a paragraph without one).
 */
module HtmlSpans {
  import opened Wrappers
  import opened Text
  import opened Numeral
  import opened Segments

  /** The literal that marks an answer span. */
  const AnswerMark: string := "ལན།"

  predicate IsAnswer(content: string) {
    Contains(content, AnswerMark)
  }

  /** `content.replace("ལན།", "").strip()` */
  function AnswerText(content: string): string
  {
    Strip(RemoveAll(content, AnswerMark))
  }

  /** `content.split(" ", 1)[-1] if " " in content else content` */
  function QuestionText(content: string): string
  {
    if Contains(content, " ") then AfterFirst(content, " ") else content
  }

  // ---------------------------------------------------------------------
  // The page as the loop sees it, and the reference description of its
  // result.

  /** The stripped texts of the paragraphs that have a span, in order. */
  function Contents(spans: seq<Option<string>>): (r: seq<string>)
    ensures |r| <= |spans|
  {
    if |spans| == 0 then []
    else (match spans[0] case Some(t) => [Strip(t)] case None => [])
         + Contents(spans[1..])
  }

  /** The contents that are answers (`answers`) or questions (`!answers`). */
  function Selected(cs: seq<string>, answers: bool): (r: seq<string>)
    ensures |r| <= |cs|
  {
    if |cs| == 0 then []
    else (if IsAnswer(cs[0]) == answers then [cs[0]] else []) + Selected(cs[1..], answers)
  }

  /** One entry of either list: `f"{get_tibetan_number(n)} {text}"`. */
  function Entry(n: nat, answers: bool, content: string): string
  {
    Bracketed(n) + " " + (if answers then AnswerText(content) else QuestionText(content))
  }

  /** The selected contents numbered from 1. */
  function Numbered(cs: seq<string>, answers: bool): (r: seq<string>)
    ensures |r| == |cs|
    ensures forall k | 0 <= k < |cs| :: r[k] == Entry(k + 1, answers, cs[k])
  {
    seq(|cs|, k requires 0 <= k < |cs| => Entry(k + 1, answers, cs[k]))
  }

  /** The two numbered lists made from the span contents. */
  function Layout(cs: seq<string>): Output
  {
    Output(Numbered(Selected(cs, false), false), Numbered(Selected(cs, true), true))
  }

  /** What the page yields: the questions and the answers, each numbered
      from 1 in page order. */
  function Expected(spans: seq<Option<string>>): Output
  {
    Layout(Contents(spans))
  }

  /** `parse_html` after the page is read: one pass over the paragraphs with
      a counter per list. */
  method ParseHtml(spans: seq<Option<string>>) returns (questions: seq<string>, answers: seq<string>)
    ensures Output(questions, answers) == Expected(spans)
    ensures |questions| + |answers| == |Contents(spans)|
  {
    questions, answers := [], [];
    var questionIndex, answerIndex := 1, 1;
    var i := 0;
    while i < |spans|
      invariant i <= |spans|
      invariant questionIndex == |questions| + 1 && answerIndex == |answers| + 1
      invariant Output(questions, answers) == Expected(spans[..i])
    {
      if spans[i].Some? {
        var content := Strip(spans[i].value);
        if IsAnswer(content) {
          answers := answers + [Bracketed(answerIndex) + " " + AnswerText(content)];
          answerIndex := answerIndex + 1;
        } else {
          questions := questions + [Bracketed(questionIndex) + " " + QuestionText(content)];
          questionIndex := questionIndex + 1;
        }
      }
      ExpectedSnoc(spans[..i], spans[i]);
      assert spans[..i + 1] == spans[..i] + [spans[i]];
      i := i + 1;
    }
    assert spans[..i] == spans;
    SelectedPartition(Contents(spans));
  }

  // ---------------------------------------------------------------------
  // Lemmas about the reference description.

  lemma {:induction false} ContentsAppend(a: seq<Option<string>>, b: seq<Option<string>>)
    ensures Contents(a + b) == Contents(a) + Contents(b)
  {
    if |a| == 0 {
      assert a + b == b;
    } else {
      var x := match a[0] case Some(t) => [Strip(t)] case None => [];
      calc {
        Contents(a + b);
        { assert (a + b)[0] == a[0] && (a + b)[1..] == a[1..] + b; }
        x + Contents(a[1..] + b);
        { ContentsAppend(a[1..], b); }
        x + (Contents(a[1..]) + Contents(b));
        (x + Contents(a[1..])) + Contents(b);
      }
    }
  }

  lemma {:induction false} SelectedAppend(a: seq<string>, b: seq<string>, answers: bool)
    ensures Selected(a + b, answers) == Selected(a, answers) + Selected(b, answers)
  {
    if |a| == 0 {
      assert a + b == b;
    } else {
      var x := if IsAnswer(a[0]) == answers then [a[0]] else [];
      calc {
        Selected(a + b, answers);
        { assert (a + b)[0] == a[0] && (a + b)[1..] == a[1..] + b; }
        x + Selected(a[1..] + b, answers);
        { SelectedAppend(a[1..], b, answers); }
        x + (Selected(a[1..], answers) + Selected(b, answers));
        (x + Selected(a[1..], answers)) + Selected(b, answers);
      }
    }
  }

  lemma ContentsSnoc(spans: seq<Option<string>>, x: Option<string>)
    ensures Contents(spans + [x])
         == Contents(spans) + (match x case Some(t) => [Strip(t)] case None => [])
  {
    ContentsAppend(spans, [x]);
    assert [x][1..] == [];
    var y := match x case Some(t) => [Strip(t)] case None => [];
    assert y + [] == y;
  }

  lemma SelectedSnoc(cs: seq<string>, c: string, answers: bool)
    ensures Selected(cs + [c], answers)
         == Selected(cs, answers) + (if IsAnswer(c) == answers then [c] else [])
  {
    SelectedAppend(cs, [c], answers);
    assert [c][1..] == [];
    var x := if IsAnswer(c) == answers then [c] else [];
    assert x + [] == x;
  }

  /** Every present span lands in exactly one of the two lists. */
  lemma {:induction false} SelectedPartition(cs: seq<string>)
    ensures |Selected(cs, false)| + |Selected(cs, true)| == |cs|
  {
    if |cs| > 0 {
      SelectedPartition(cs[1..]);
    }
  }

  lemma NumberedSnoc(cs: seq<string>, c: string, answers: bool)
    ensures Numbered(cs + [c], answers) == Numbered(cs, answers) + [Entry(|cs| + 1, answers, c)]
  {
    var l, r := Numbered(cs + [c], answers), Numbered(cs, answers) + [Entry(|cs| + 1, answers, c)];
    assert forall k | 0 <= k < |l| :: l[k] == r[k];
  }

  /** One more paragraph changes the result as one turn of the loop does:
      a missing span nothing, an answer span one more answer numbered after
      the others, any other span one more question. */
  lemma ExpectedSnoc(spans: seq<Option<string>>, x: Option<string>)
    ensures var o, o' := Expected(spans), Expected(spans + [x]);
            match x
            case None => o' == o
            case Some(t) =>
              if IsAnswer(Strip(t))
              then o' == Output(o.questions, o.answers + [Entry(|o.answers| + 1, true, Strip(t))])
              else o' == Output(o.questions + [Entry(|o.questions| + 1, false, Strip(t))], o.answers)
  {
    ContentsSnoc(spans, x);
    if x.Some? {
      LayoutSnoc(Contents(spans), Strip(x.value));
    } else {
      assert Contents(spans + [x]) == Contents(spans) + [];
      assert Contents(spans) + [] == Contents(spans);
    }
  }

  lemma LayoutSnoc(cs: seq<string>, c: string)
    ensures var o, o' := Layout(cs), Layout(cs + [c]);
            if IsAnswer(c)
            then o' == Output(o.questions, o.answers + [Entry(|o.answers| + 1, true, c)])
            else o' == Output(o.questions + [Entry(|o.questions| + 1, false, c)], o.answers)
  {
    SelectedSnoc(cs, c, false);
    SelectedSnoc(cs, c, true);
    if IsAnswer(c) {
      NumberedSnoc(Selected(cs, true), c, true);
    } else {
      NumberedSnoc(Selected(cs, false), c, false);
    }
  }

  /** Paragraphs without a `span0` span never influence the result. */
  lemma MissingSpansIgnored(spans: seq<Option<string>>, i: nat)
    requires i <= |spans|
    ensures Expected(spans[..i] + [None] + spans[i..]) == Expected(spans)
  {
    ContentsAppend(spans[..i] + [None], spans[i..]);
    ContentsAppend(spans[..i], [None]);
    ContentsAppend(spans[..i], spans[i..]);
    var none: seq<Option<string>> := [None];
    assert none[1..] == [];
    assert Contents(spans[..i]) + [] == Contents(spans[..i]);
    assert spans[..i] + spans[i..] == spans;
  }

  /** With no answer mark on the page every span is a question, numbered in
      page order, and the answer list is empty. */
  lemma {:induction false} NoMarkNoAnswers(cs: seq<string>)
    requires forall k | 0 <= k < |cs| :: !IsAnswer(cs[k])
    ensures Selected(cs, false) == cs && Selected(cs, true) == []
  {
    if |cs| > 0 {
      assert forall k | 0 <= k < |cs| - 1 :: cs[1..][k] == cs[k + 1];
      NoMarkNoAnswers(cs[1..]);
      assert cs == [cs[0]] + cs[1..];
    }
  }

  // ---------------------------------------------------------------------
  // What one entry holds.

  /** The guard is redundant: splitting at the first space already gives the
      whole text back when there is no space. */
  lemma QuestionTextIsAfterFirst(content: string)
    ensures QuestionText(content) == AfterFirst(content, " ")
  {
    if !Contains(content, " ") {
      forall i | 0 <= i < |content|
        ensures content[i] != ' '
      {
        assert !OccursAt(content, " ", i);
        assert content[i..i + 1] == [content[i]];
      }
      AfterFirstAbsent(content, ' ');
    }
  }

  /** A question span printed as a number token, a space and the question
      gives back exactly the question. */
  lemma QuestionSpanReadsBack(token: string, q: string)
    requires |token| > 0 && !IsWs(token[0]) && forall i | 0 <= i < |token| :: token[i] != ' '
    requires |q| > 0 && IsStripped(q)
    requires !IsAnswer(token + " " + q)
    ensures var content := Strip(token + " " + q);
            !IsAnswer(content) && QuestionText(content) == q
  {
    var s := token + " " + q;
    StrippedJoin(token, q);
    AfterFirstChar(token, ' ', q);
    QuestionTextIsAfterFirst(s);
  }

  /** Two stripped-at-the-edges parts joined by a space need no stripping. */
  lemma StrippedJoin(a: string, b: string)
    requires |a| > 0 && !IsWs(a[0]) && |b| > 0 && IsStripped(b)
    ensures Strip(a + " " + b) == a + " " + b
  {
    var s := a + " " + b;
    assert IsStripped(s) by {
      assert s[0] == a[0] && s[|s| - 1] == b[|b| - 1];
    }
    StripExact("", s, "");
    assert "" + s + "" == s;
  }

  /** Removing a mark from the mark, a space and a text without the mark
      leaves the space and the text. */
  lemma RemoveLeadingMark(p: string, a: string)
    requires |p| > 0 && p[0] != ' ' && !Contains(a, p)
    ensures RemoveAll(p + " " + a, p) == " " + a
  {
    var s := p + " " + a;
    assert s[..|p|] == p && s[|p|..] == " " + a;
    var r := " " + a;
    if |r| >= |p| {
      assert r[..|p|] != p by {
        assert r[..|p|][0] == ' ';
      }
      assert r[1..] == a;
    }
    RemoveAllAbsent(a, p);
  }

  /** An answer span written as the mark, a space and the answer gives back
      exactly the answer, when the answer does not itself hold the mark. */
  lemma AnswerSpanReadsBack(a: string)
    requires |a| > 0 && IsStripped(a) && !IsAnswer(a)
    ensures var content := Strip(AnswerMark + " " + a);
            IsAnswer(content) && AnswerText(content) == a
  {
    var s := AnswerMark + " " + a;
    StrippedJoin(AnswerMark, a);
    assert OccursAt(s, AnswerMark, 0) by {
      assert s[..|AnswerMark|] == AnswerMark;
    }
    RemoveLeadingMark(AnswerMark, a);
    StripExact(" ", a, "");
    assert " " + a + "" == " " + a;
  }

  /** Every entry splits at its first space into the index token, which
      decodes to the entry's 1-based position, and the text. */
  lemma EntryReadsBack(n: nat, text: string)
    ensures var e, b := Bracketed(n) + " " + text, Bracketed(n);
            && |b| < |e|
            && DecodeTibetan(e[..|b| - 1]) == Some(n)
            && AfterFirst(e, " ") == text
  {
    var b := Bracketed(n);
    var e := b + " " + text;
    BracketedReadsBack(n);
    IndexTokensHaveNoSpace(n);
    AfterFirstChar(b, ' ', text);
    assert e[..|b| - 1] == b[..|b| - 1];
  }

  /** Answers never start or end with whitespace. */
  lemma AnswersStripped(content: string)
    ensures IsStripped(AnswerText(content))
  {
    StripStripped(RemoveAll(content, AnswerMark));
  }
}
