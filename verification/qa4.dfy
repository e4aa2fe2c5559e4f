/**
  src/TibQA/qa_4.py: a line starting with `༈` opens a question, whose text is
  what follows the first `།`; every other line is an answer line, and one
  that starts with `དེའི་ལན་ནི།` or `དེའི་དོན་ནི།` loses that phrase. A question
  whose text comes out empty is never written. Pairs are numbered with
  Arabic digits.
 */
module GlyphPhrase {
  import opened Text
  import opened Numeral
  import opened Segments

  /** `question_start_pattern`, `^༈`. */
  const QuestionMark: string := "༈"
  /** The two alternatives of `answer_start_pattern`. */
  const AnswerPhrase: string := "དེའི་ལན་ནི།"
  const MeaningPhrase: string := "དེའི་དོན་ནི།"
  /** `shey_character` */
  const Shey: string := "།"

  predicate IsQuestionLine(line: string)
  {
    StartsWith(line, QuestionMark)
  }

  /** `answer_start_pattern.match(line)` */
  predicate IsAnswerStart(line: string)
  {
    StartsWith(line, AnswerPhrase) || StartsWith(line, MeaningPhrase)
  }

  /** `clean_question_text`: the text after the first `།`, stripped; the
      whole line, stripped, when there is none (`AfterSepFound`: `AfterSep`
      finds something exactly when `shey_character in text`). */
  function CleanQuestion(text: string): string
  {
    match AfterSep(text, Shey)
    case Some(after) => Strip(after)
    case None => Strip(text)
  }

  /** `clean_answer_text`: the anchored pattern removes at most one phrase,
      at the front, and the rest is stripped. */
  function CleanAnswer(text: string): string
  {
    var rest :=
      if StartsWith(text, AnswerPhrase) then text[|AnswerPhrase|..]
      else if StartsWith(text, MeaningPhrase) then text[|MeaningPhrase|..]
      else text;
    Strip(rest)
  }

  /** What a line adds to the open answer. */
  function AnswerLine(line: string): string
  {
    if IsAnswerStart(line) then CleanAnswer(line) else line
  }

  function AnswerLines(lines: seq<string>): (r: seq<string>)
    ensures |r| == |lines|
    ensures forall i | 0 <= i < |lines| :: r[i] == AnswerLine(lines[i])
  {
    seq(|lines|, i requires 0 <= i < |lines| => AnswerLine(lines[i]))
  }

  lemma AnswerLinesAppend(a: seq<string>, b: seq<string>)
    ensures AnswerLines(a + b) == AnswerLines(a) + AnswerLines(b)
  {
  }

  /** Whatever comes before the first `།` is dropped, and only that. */
  lemma CleanQuestionAfterShey(pre: string, rest: string)
    requires forall i | 0 <= i < |pre| :: pre[i] != '།'
    ensures CleanQuestion(pre + Shey + rest) == Strip(rest)
  {
    AfterFirstChar(pre, '།', rest);
  }

  /** A question line without `།` keeps all its text. */
  lemma CleanQuestionWithoutShey(text: string)
    requires forall i | 0 <= i < |text| :: text[i] != '།'
    ensures CleanQuestion(text) == Strip(text)
  {
    AfterFirstAbsent(text, '།');
  }

  /** An answer phrase, a gap and stripped text clean down to the text. */
  lemma CleanAnswerDropsPhrase(phrase: string, gap: string, t: string)
    requires phrase == AnswerPhrase || phrase == MeaningPhrase
    requires AllWs(gap) && IsStripped(t)
    ensures IsAnswerStart(phrase + gap + t)
    ensures CleanAnswer(phrase + gap + t) == t
  {
    var s := phrase + gap + t;
    assert s[..|phrase|] == phrase;
    assert s[|phrase|..] == gap + t + "";
    if phrase == MeaningPhrase {
      assert !StartsWith(s, AnswerPhrase) by {
        assert s[5] != AnswerPhrase[5];
      }
    }
    StripExact(gap, t, "");
  }

  // ---------------------------------------------------------------------
  // Reference: cut the lines at the question lines; every group whose
  // cleaned question is non-empty is a pair.

  /** The pairs the groups give, numbered from `c`. */
  function Keep(c: nat, gs: seq<Group>): (es: seq<Entry>)
    ensures |es| <= |gs|
    ensures forall k | 0 <= k < |es| :: es[k].number == c + k && |es[k].head| > 0
    decreases |gs|
  {
    if |gs| == 0 then []
    else
      var q := CleanQuestion(gs[0].head);
      if |q| > 0 then [Entry(c, q, AnswerLines(gs[0].body))] + Keep(c + 1, gs[1..])
      else Keep(c, gs[1..])
  }

  /** A question line that is written. */
  predicate IsWrittenQuestion(line: string)
  {
    IsQuestionLine(line) && |CleanQuestion(line)| > 0
  }

  /** One pair per written question line. */
  lemma {:induction false} KeepCounts(c: nat, gs: seq<Group>)
    requires forall k | 0 <= k < |gs| :: IsQuestionLine(gs[k].head)
    ensures |Keep(c, gs)| == CountGroups(gs, IsWrittenQuestion)
    decreases |gs|
  {
    if |gs| > 0 {
      assert forall k | 0 <= k < |gs[1..]| :: gs[1..][k] == gs[k + 1];
      KeepCounts(if |CleanQuestion(gs[0].head)| > 0 then c + 1 else c, gs[1..]);
    }
  }

  function Expected(lines: seq<string>): seq<Entry>
  {
    Keep(1, Split(lines, IsQuestionLine).groups)
  }

  // ---------------------------------------------------------------------
  // The loop.

  /** `current_question` ("" for the initial None, which is equally falsy),
      `current_answer`, `question_counter` and the pairs written so far. */
  datatype State = State(question: string, answer: seq<string>, counter: nat, closed: seq<Entry>)

  const Init: State := State("", [], 1, [])

  /** `_process_current_qa` and the counter step, done only when the open
      question is non-empty. */
  function Flush(st: State): State
  {
    if |st.question| == 0 then st
    else st.(closed := st.closed + [Entry(st.counter, st.question, st.answer)],
             counter := st.counter + 1)
  }

  function Feed(st: State, line: string): State
  {
    if IsQuestionLine(line) then Flush(st).(question := CleanQuestion(line), answer := [])
    else if IsAnswerStart(line) then st.(answer := st.answer + [CleanAnswer(line)])
    else st.(answer := st.answer + [line])
  }

  /** `numbered_question` and `numbered_answer` */
  function QuestionText(e: Entry): string
  {
    ArabicHeader(e.number) + e.head
  }

  function AnswerText(e: Entry): string
  {
    ArabicHeader(e.number) + Join("\n", e.body)
  }

  function Format(es: seq<Entry>): (out: Output)
    ensures |out.questions| == |es| == |out.answers|
  {
    Output(seq(|es|, k requires 0 <= k < |es| => QuestionText(es[k])),
           seq(|es|, k requires 0 <= k < |es| => AnswerText(es[k])))
  }

  /** `parse_docx` on the paragraph texts of a document. */
  function Parse(ps: seq<string>): Output
  {
    Format(Flush(Fold(Feed, Init, ps)).closed)
  }

  // ---------------------------------------------------------------------
  // The loop computes the reference.

  predicate LoopAgrees(st: State, lines: seq<string>)
  {
    var seg := Split(lines, IsQuestionLine);
    var f := Flush(st.(answer := st.answer + AnswerLines(seg.preamble)));
    Flush(FoldLines(Feed, st, lines)).closed == f.closed + Keep(f.counter, seg.groups)
  }

  lemma {:induction false} FeedMatchesKeep(st: State, lines: seq<string>)
    ensures LoopAgrees(st, lines)
    decreases |lines|
  {
    if |lines| == 0 {
      assert st.(answer := st.answer + AnswerLines([])) == st;
      assert Flush(st).closed + [] == Flush(st).closed;
    } else {
      var line, tail := lines[0], lines[1..];
      assert lines == [line] + tail;
      FeedMatchesKeep(Feed(st, line), tail);
      if IsQuestionLine(line) {
        FeedQuestionLine(st, line, tail);
      } else {
        FeedOtherLine(st, line, tail);
      }
    }
  }

  lemma FeedQuestionLine(st: State, line: string, tail: seq<string>)
    requires IsQuestionLine(line)
    requires LoopAgrees(Feed(st, line), tail)
    ensures LoopAgrees(st, [line] + tail)
  {
    var rest := Split(tail, IsQuestionLine);
    assert Split([line] + tail, IsQuestionLine) == Segmentation([], [Group(line, rest.preamble)] + rest.groups) by {
      SplitCons(line, tail, IsQuestionLine);
    }
    assert FoldLines(Feed, st, [line] + tail) == FoldLines(Feed, Feed(st, line), tail) by {
      assert ([line] + tail)[1..] == tail;
    }
    assert st.(answer := st.answer + AnswerLines([])) == st;
    var s0 := Flush(st);
    assert Feed(st, line) == s0.(question := CleanQuestion(line), answer := []);
    QuestionCloses(s0, line, CleanQuestion(line), rest.preamble, rest.groups);
  }

  /** A question line opens a record with its cleaned text `q`; the record
      is written when the next question line or the end comes, if `q` is
      non-empty. */
  lemma QuestionCloses(s0: State, line: string, q: string, pre: seq<string>, gs: seq<Group>)
    requires q == CleanQuestion(line)
    ensures var f1 := Flush(s0.(question := q, answer := [] + AnswerLines(pre)));
            f1.closed + Keep(f1.counter, gs) == s0.closed + Keep(s0.counter, [Group(line, pre)] + gs)
  {
    var a := AnswerLines(pre);
    assert [] + a == a;
    assert ([Group(line, pre)] + gs)[0] == Group(line, pre) && ([Group(line, pre)] + gs)[1..] == gs;
    if |q| > 0 {
      var e := Entry(s0.counter, q, a);
      AppendAssoc(s0.closed, [e], Keep(s0.counter + 1, gs));
    } else {
      assert s0.closed + Keep(s0.counter, gs) == s0.closed + Keep(s0.counter, gs);
    }
  }

  lemma FeedOtherLine(st: State, line: string, tail: seq<string>)
    requires !IsQuestionLine(line)
    requires LoopAgrees(Feed(st, line), tail)
    ensures LoopAgrees(st, [line] + tail)
  {
    var rest := Split(tail, IsQuestionLine);
    assert Split([line] + tail, IsQuestionLine) == Segmentation([line] + rest.preamble, rest.groups) by {
      SplitCons(line, tail, IsQuestionLine);
    }
    assert FoldLines(Feed, st, [line] + tail) == FoldLines(Feed, Feed(st, line), tail) by {
      assert ([line] + tail)[1..] == tail;
    }
    OtherLineJoins(st, line, rest.preamble);
  }

  /** Any other line joins the open answer, cleaned as an answer line. */
  lemma OtherLineJoins(st: State, line: string, pre: seq<string>)
    requires !IsQuestionLine(line)
    ensures var st1 := Feed(st, line);
            st1.(answer := st1.answer + AnswerLines(pre)) == st.(answer := st.answer + AnswerLines([line] + pre))
  {
    AnswerLinesAppend([line], pre);
    assert AnswerLines([line]) == [AnswerLine(line)];
    AppendAssoc(st.answer, [AnswerLine(line)], AnswerLines(pre));
  }

  /** The loop writes exactly the reference's pairs: lines before the first
      question line are dropped, and so is every group whose question
      cleans to nothing. */
  lemma ClosedAreKept(ps: seq<string>)
    ensures Flush(Fold(Feed, Init, ps)).closed == Expected(Lines(ps))
  {
    var lines := Lines(ps);
    FoldIsFoldLines(Feed, Init, ps);
    FeedMatchesKeep(Init, lines);
    var seg := Split(lines, IsQuestionLine);
    var f := Flush(Init.(answer := Init.answer + AnswerLines(seg.preamble)));
    assert f.closed == [] && f.counter == 1;
    assert [] + Keep(1, seg.groups) == Keep(1, seg.groups);
  }

  /** One pair per question line whose cleaned text is non-empty, the k-th
      numbered `k + 1` in Arabic digits and holding that question's text and
      its answer lines joined by newlines. */
  lemma ParseContents(ps: seq<string>)
    ensures var out := Parse(ps);
            var es := Expected(Lines(ps));
            && |out.questions| == |es| == |out.answers|
            && |es| == Count(Lines(ps), IsWrittenQuestion)
            && (forall k | 0 <= k < |es| :: out.questions[k] == ArabicHeader(k + 1) + es[k].head && |es[k].head| > 0)
            && (forall k | 0 <= k < |es| :: out.answers[k] == ArabicHeader(k + 1) + Join("\n", es[k].body))
  {
    var lines := Lines(ps);
    ClosedAreKept(ps);
    var es := Expected(lines);
    assert Parse(ps) == Format(es);
    KeepCounts(1, Split(lines, IsQuestionLine).groups);
    CountGroupHeads(lines, IsQuestionLine, IsWrittenQuestion);
    forall k | 0 <= k < |es|
      ensures Format(es).questions[k] == ArabicHeader(k + 1) + es[k].head
      ensures Format(es).answers[k] == ArabicHeader(k + 1) + Join("\n", es[k].body)
    {
      FormatAt(es, k);
    }
  }

  lemma FormatAt(es: seq<Entry>, k: nat)
    requires k < |es|
    ensures Format(es).questions[k] == ArabicHeader(es[k].number) + es[k].head
    ensures Format(es).answers[k] == ArabicHeader(es[k].number) + Join("\n", es[k].body)
  {
  }

  /** Lines before the first question line are thrown away. */
  lemma PreambleDiscarded(pre: seq<string>, ps: seq<string>)
    requires forall j | 0 <= j < |pre| :: !IsQuestionLine(Strip(pre[j]))
    ensures Parse(pre + ps) == Parse(ps)
  {
    LinesKeep(pre, l => !IsQuestionLine(l));
    LinesAppend(pre, ps);
    SplitAfterHeadless(Lines(pre), Lines(ps), IsQuestionLine);
    ClosedAreKept(pre + ps);
    ClosedAreKept(ps);
  }

  /** Whitespace-only paragraphs never influence the result. */
  lemma BlankParagraphsIgnored(ps: seq<string>, i: nat, blank: string)
    requires i <= |ps| && AllWs(blank)
    ensures Parse(ps[..i] + [blank] + ps[i..]) == Parse(ps)
  {
    BlankParagraphIgnored(ps, i, blank);
    ClosedAreKept(ps[..i] + [blank] + ps[i..]);
    ClosedAreKept(ps);
  }
}
