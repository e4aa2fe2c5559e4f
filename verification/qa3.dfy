/**
  src/TibQA/qa_3.py: a line starting with Tibetan digits opens a question, a
  line starting with `ལན།` opens its answer, and every other line is added to
  whichever of the two is open. A pair is written, and the counter moves on,
  only when both the question and the answer are non-empty.
 */
module NumeralKeyword {
  import opened Text
  import opened Numeral
  import opened Segments

  /** `answer_prefix` */
  const AnswerKeyword: string := "ལན།"

  /** `question_number_pattern.match(line)`, the pattern being `^[༠-༩]+\s*`. */
  predicate IsQuestionLine(line: string)
  {
    StartsWithTibetanDigit(line)
  }

  /** `line.startswith(answer_prefix)` */
  predicate IsAnswerLine(line: string)
  {
    StartsWith(line, AnswerKeyword)
  }

  /** What a line adds to an answer: an answer line its text after `ལན།`,
      stripped, any other line itself. */
  function AnswerContent(line: string): string
  {
    if IsAnswerLine(line) then Strip(line[|AnswerKeyword|..]) else line
  }

  function AnswerContents(lines: seq<string>): (r: seq<string>)
    ensures |r| == |lines|
    ensures forall i | 0 <= i < |lines| :: r[i] == AnswerContent(lines[i])
  {
    seq(|lines|, i requires 0 <= i < |lines| => AnswerContent(lines[i]))
  }

  /** `ལན།`, a gap and stripped text give exactly that text; a line that does
      not start with `ལན།` is added as it is. */
  lemma AnswerContentOfLine(gap: string, t: string, other: string)
    requires AllWs(gap) && IsStripped(t) && !IsAnswerLine(other)
    ensures IsAnswerLine(AnswerKeyword + gap + t)
    ensures AnswerContent(AnswerKeyword + gap + t) == t
    ensures AnswerContent(other) == other
  {
    var line := AnswerKeyword + gap + t;
    assert line[..|AnswerKeyword|] == AnswerKeyword;
    assert line[|AnswerKeyword|..] == gap + t + "";
    StripExact(gap, t, "");
  }

  lemma AnswerContentsCons(line: string, lines: seq<string>)
    ensures AnswerContents([line] + lines) == [AnswerContent(line)] + AnswerContents(lines)
  {
  }

  /** `question_number_pattern.sub("", text)`: the pattern is anchored, so at
      most one match, at the very front, is removed. */
  function DropNumber(text: string): string
  {
    if StartsWithTibetanDigit(text) then LStrip(DropLeadingDigits(text)) else text
  }

  /** `clean_question_text` */
  function CleanQuestion(text: string): string
  {
    Strip(DropNumber(text))
  }

  /** A question made of a number (possibly none), a gap and text that does
      not start with a digit is cleaned down to exactly that text. */
  lemma CleanQuestionDropsNumber(digits: string, gap: string, t: string)
    requires forall i | 0 <= i < |digits| :: IsTibetanDigit(digits[i])
    requires AllWs(gap) && IsStripped(t) && !StartsWithTibetanDigit(t)
    ensures CleanQuestion(digits + gap + t) == t
  {
    var text := digits + gap + t;
    assert |gap| > 0 ==> !IsTibetanDigit(gap[0]);
    if |digits| == 0 {
      assert text == gap + t;
      assert gap + t + "" == gap + t;
      StripExact(gap, t, "");
    } else {
      assert text == digits + (gap + t);
      DropDigitRun(digits, gap + t);
      LStripWsPrefix(gap, t);
      StripOfStripped(t);
    }
  }

  /** `current_question += f" {line}"` for each line in turn. */
  function Extend(question: string, lines: seq<string>): (r: string)
    ensures |r| >= |question| + |lines|
    decreases |lines|
  {
    if |lines| == 0 then question else Extend(question + " " + lines[0], lines[1..])
  }

  /** The running question is the lines joined by single spaces. */
  lemma {:induction false} ExtendIsJoin(question: string, lines: seq<string>)
    ensures Extend(question, lines) == Join(" ", [question] + lines)
    decreases |lines|
  {
    if |lines| == 0 {
      JoinSingle(" ", question);
    } else {
      ExtendIsJoin(question + " " + lines[0], lines[1..]);
      JoinMergeFirst(" ", question, lines[0], lines[1..]);
      assert [question, lines[0]] + lines[1..] == [question] + lines;
    }
  }

  /** How the lines between two question lines are filed. */
  datatype Division = Division(question: seq<string>, answer: seq<string>)

  /** The loop files the lines of a stretch it enters with `inAnswer`: up to
      the first answer line they extend the question, from there on every
      line goes to the answer. */
  function Divide(inAnswer: bool, lines: seq<string>): (d: Division)
    ensures |d.question| + |d.answer| == |lines|
    ensures inAnswer ==> d.question == []
    decreases |lines|
  {
    if |lines| == 0 then Division([], [])
    else if inAnswer || IsAnswerLine(lines[0]) then Division([], AnswerContents(lines))
    else
      var d := Divide(false, lines[1..]);
      Division([lines[0]] + d.question, d.answer)
  }

  /** `Divide` cuts before the first answer line: the question part is the
      longest prefix free of answer lines (nothing when the stretch is entered
      inside an answer), and the answer part is the rest, each answer line
      reduced to its content. */
  lemma {:induction false} DivideCutsAtFirstAnswer(inAnswer: bool, lines: seq<string>)
    ensures var d := Divide(inAnswer, lines);
            && d.question == lines[..|d.question|]
            && (forall i | 0 <= i < |d.question| :: !IsAnswerLine(lines[i]))
            && (!inAnswer && |d.question| < |lines| ==> IsAnswerLine(lines[|d.question|]))
            && d.answer == AnswerContents(lines[|d.question|..])
    decreases |lines|
  {
    if |lines| > 0 && !inAnswer && !IsAnswerLine(lines[0]) {
      var tail := lines[1..];
      DivideCutsAtFirstAnswer(false, tail);
      var d := Divide(false, tail);
      var n := |d.question|;
      assert lines[..n + 1] == [lines[0]] + tail[..n];
      assert lines[n + 1..] == tail[n..];
      forall i | 1 <= i < n + 1
        ensures !IsAnswerLine(lines[i])
      {
        assert lines[i] == tail[i - 1];
      }
    } else if |lines| > 0 {
      assert lines[0..] == lines;
    }
  }

  /** The pairs the groups give, numbered from `c`; `carry` holds answer lines
      met before the first group's question line. A group whose answer comes
      out empty gives no pair, and its number is not used up. */
  function Pairs(c: nat, carry: seq<string>, gs: seq<Group>): (es: seq<Entry>)
    ensures |es| <= |gs|
    ensures forall k | 0 <= k < |es| :: es[k].number == c + k && |es[k].body| > 0
    decreases |gs|
  {
    if |gs| == 0 then []
    else
      var d := Divide(false, gs[0].body);
      var answer := carry + d.answer;
      if |answer| > 0 then [Entry(c, Extend(gs[0].head, d.question), answer)] + Pairs(c + 1, [], gs[1..])
      else Pairs(c, [], gs[1..])
  }

  /** Reference: cut the line stream at the question lines. The lines before
      the first cut form a pair of their own when they hold both question
      text and answer lines; otherwise their answer lines are carried into
      the first group. */
  function Expected(lines: seq<string>): seq<Entry>
  {
    var seg := Split(lines, IsQuestionLine);
    var d := Divide(false, seg.preamble);
    if |d.question| > 0 && |d.answer| > 0 then
      [Entry(1, Extend("", d.question), d.answer)] + Pairs(2, [], seg.groups)
    else Pairs(1, d.answer, seg.groups)
  }

  /** The reference numbers its pairs 1, 2, ..., never has an empty answer,
      and has at most one pair per question line plus one. */
  lemma ExpectedNumbered(lines: seq<string>)
    ensures var es := Expected(lines);
            && |es| <= Count(lines, IsQuestionLine) + 1
            && forall k | 0 <= k < |es| :: es[k].number == k + 1 && |es[k].body| > 0
  {
    var seg := Split(lines, IsQuestionLine);
    SplitCount(lines, IsQuestionLine);
    var d := Divide(false, seg.preamble);
    if |d.question| > 0 && |d.answer| > 0 {
      ConsNumbered(Entry(1, Extend("", d.question), d.answer), Pairs(2, [], seg.groups));
    }
  }

  lemma ConsNumbered(e: Entry, es: seq<Entry>)
    requires e.number == 1 && |e.body| > 0
    requires forall k | 0 <= k < |es| :: es[k].number == 2 + k && |es[k].body| > 0
    ensures forall k | 0 <= k < |[e] + es| :: ([e] + es)[k].number == k + 1 && |([e] + es)[k].body| > 0
  {
    forall k | 1 <= k < |[e] + es|
      ensures ([e] + es)[k].number == k + 1
    {
      assert ([e] + es)[k] == es[k - 1];
    }
  }

  // ---------------------------------------------------------------------
  // The loop.

  /** `current_question`, `current_answer`, `is_answer`, `question_counter`
      and the pairs written so far, kept as records. */
  datatype State = State(question: string, answer: seq<string>, inAnswer: bool, counter: nat, closed: seq<Entry>)

  const Init: State := State("", [], false, 1, [])

  /** The write guarded by `if current_question and current_answer`. */
  function Emit(st: State): State
  {
    if st.question != "" && |st.answer| > 0 then
      st.(closed := st.closed + [Entry(st.counter, st.question, st.answer)],
          question := "", answer := [], counter := st.counter + 1)
    else st
  }

  /** The loop body for one non-blank line. */
  function Feed(st: State, line: string): State
  {
    if IsQuestionLine(line) then Emit(st).(question := line, inAnswer := false)
    else if IsAnswerLine(line) then st.(inAnswer := true, answer := st.answer + [AnswerContent(line)])
    else if st.inAnswer then st.(answer := st.answer + [line])
    else st.(question := st.question + " " + line)
  }

  /** The pair written for one record. */
  function QuestionText(e: Entry): string
  {
    Header(e.number) + CleanQuestion(e.head)
  }

  function AnswerText(e: Entry): string
  {
    Header(e.number) + Join("\n", e.body)
  }

  function Format(es: seq<Entry>): (out: Output)
    ensures |out.questions| == |es| == |out.answers|
  {
    Output(seq(|es|, k requires 0 <= k < |es| => QuestionText(es[k])),
           seq(|es|, k requires 0 <= k < |es| => AnswerText(es[k])))
  }

  /** `parse_docx` on the paragraph texts of a document. */
  function Parse(ps: seq<string>): Output
  {
    Format(Emit(Fold(Feed, Init, ps)).closed)
  }

  // ---------------------------------------------------------------------
  // The loop computes the reference.

  /** The state after the open stretch has been filed. */
  function Absorb(st: State, d: Division): State
  {
    st.(question := Extend(st.question, d.question), answer := st.answer + d.answer, inAnswer := false)
  }

  /** What the loop writes from `st` on: the open stretch is filed, written
      if it is complete, and every group follows, numbered on. */
  predicate LoopAgrees(st: State, lines: seq<string>)
  {
    var seg := Split(lines, IsQuestionLine);
    var f := Emit(Absorb(st, Divide(st.inAnswer, seg.preamble)));
    Emit(FoldLines(Feed, st, lines)).closed == f.closed + Pairs(f.counter, f.answer, seg.groups)
  }

  lemma {:induction false} FeedMatchesPairs(st: State, lines: seq<string>)
    ensures LoopAgrees(st, lines)
    decreases |lines|
  {
    if |lines| == 0 {
      assert Absorb(st, Division([], [])) == st.(inAnswer := false);
      assert Emit(st).closed + [] == Emit(st).closed;
    } else {
      var line, tail := lines[0], lines[1..];
      assert lines == [line] + tail;
      FeedMatchesPairs(Feed(st, line), tail);
      if IsQuestionLine(line) {
        FeedQuestionLine(st, line, tail);
      } else {
        FeedOtherLine(st, line, tail);
      }
    }
  }

  lemma FeedQuestionLine(st: State, line: string, tail: seq<string>)
    requires IsQuestionLine(line)
    requires LoopAgrees(Feed(st, line), tail)
    ensures LoopAgrees(st, [line] + tail)
  {
    var rest := Split(tail, IsQuestionLine);
    assert Split([line] + tail, IsQuestionLine) == Segmentation([], [Group(line, rest.preamble)] + rest.groups) by {
      SplitCons(line, tail, IsQuestionLine);
    }
    assert FoldLines(Feed, st, [line] + tail) == FoldLines(Feed, Feed(st, line), tail) by {
      assert ([line] + tail)[1..] == tail;
    }
    assert Divide(st.inAnswer, []) == Division([], []);
    QuestionCloses(st, line, rest.preamble, rest.groups);
  }

  /** A question line writes the open pair if it is complete and starts the
      next stretch, whose lines are `pre`. */
  lemma QuestionCloses(st: State, line: string, pre: seq<string>, gs: seq<Group>)
    requires IsQuestionLine(line)
    ensures var st1 := Feed(st, line);
            var f1 := Emit(Absorb(st1, Divide(st1.inAnswer, pre)));
            var f := Emit(Absorb(st, Division([], [])));
            f1.closed + Pairs(f1.counter, f1.answer, gs) == f.closed + Pairs(f.counter, f.answer, [Group(line, pre)] + gs)
  {
    var f := Emit(st);
    assert Absorb(st, Division([], [])) == st.(inAnswer := false);
    assert Emit(st.(inAnswer := false)) == f.(inAnswer := false);
    assert Feed(st, line) == f.(question := line, inAnswer := false);
    GroupCloses(f, line, pre, gs);
  }

  /** The stretch opened by question line `line` is written as the group's
      pair exactly when its answer, carried lines included, is non-empty. */
  lemma GroupCloses(f: State, line: string, pre: seq<string>, gs: seq<Group>)
    requires line != ""
    ensures var f1 := Emit(Absorb(f.(question := line, inAnswer := false), Divide(false, pre)));
            f1.closed + Pairs(f1.counter, f1.answer, gs) == f.closed + Pairs(f.counter, f.answer, [Group(line, pre)] + gs)
  {
    var d := Divide(false, pre);
    var answer := f.answer + d.answer;
    var question := Extend(line, d.question);
    var a := Absorb(f.(question := line, inAnswer := false), d);
    assert a.question == question && a.answer == answer && a.counter == f.counter && a.closed == f.closed;
    assert |question| > 0;
    PairsCons(f.counter, f.answer, Group(line, pre), gs);
    var f1 := Emit(a);
    if |answer| > 0 {
      var e := Entry(f.counter, question, answer);
      assert f1.closed == f.closed + [e] && f1.counter == f.counter + 1 && f1.answer == [];
      AppendAssoc(f.closed, [e], Pairs(f.counter + 1, [], gs));
    } else {
      assert f1 == a;
    }
  }

  lemma PairsCons(c: nat, carry: seq<string>, g: Group, gs: seq<Group>)
    ensures var d := Divide(false, g.body);
            var answer := carry + d.answer;
            Pairs(c, carry, [g] + gs) ==
              if |answer| > 0 then [Entry(c, Extend(g.head, d.question), answer)] + Pairs(c + 1, [], gs)
              else Pairs(c, [], gs)
  {
    assert ([g] + gs)[0] == g && ([g] + gs)[1..] == gs;
  }

  lemma FeedOtherLine(st: State, line: string, tail: seq<string>)
    requires !IsQuestionLine(line)
    requires LoopAgrees(Feed(st, line), tail)
    ensures LoopAgrees(st, [line] + tail)
  {
    var rest := Split(tail, IsQuestionLine);
    assert Split([line] + tail, IsQuestionLine) == Segmentation([line] + rest.preamble, rest.groups) by {
      SplitCons(line, tail, IsQuestionLine);
    }
    assert FoldLines(Feed, st, [line] + tail) == FoldLines(Feed, Feed(st, line), tail) by {
      assert ([line] + tail)[1..] == tail;
    }
    OtherLineFiled(st, line, rest.preamble);
  }

  /** Any other line is filed where `Divide` files it. */
  lemma OtherLineFiled(st: State, line: string, pre: seq<string>)
    requires !IsQuestionLine(line)
    ensures var st1 := Feed(st, line);
            Absorb(st1, Divide(st1.inAnswer, pre)) == Absorb(st, Divide(st.inAnswer, [line] + pre))
  {
    assert ([line] + pre)[0] == line && ([line] + pre)[1..] == pre;
    if st.inAnswer || IsAnswerLine(line) {
      AnswerContentsCons(line, pre);
      AppendAssoc(st.answer, [AnswerContent(line)], AnswerContents(pre));
    } else {
      var d := Divide(false, pre);
      assert Divide(false, [line] + pre) == Division([line] + d.question, d.answer);
      assert ([line] + d.question)[1..] == d.question;
    }
  }

  /** The loop writes exactly the reference's pairs. */
  lemma ClosedArePairs(ps: seq<string>)
    ensures Emit(Fold(Feed, Init, ps)).closed == Expected(Lines(ps))
  {
    var lines := Lines(ps);
    FoldIsFoldLines(Feed, Init, ps);
    FeedMatchesPairs(Init, lines);
    var seg := Split(lines, IsQuestionLine);
    var d := Divide(false, seg.preamble);
    var a := Absorb(Init, d);
    assert a == State(Extend("", d.question), d.answer, false, 1, []);
    assert Extend("", d.question) != "" <==> |d.question| > 0;
    var f := Emit(a);
    assert Emit(FoldLines(Feed, Init, lines)).closed == f.closed + Pairs(f.counter, f.answer, seg.groups);
    if |d.question| > 0 && |d.answer| > 0 {
      assert f.closed == [Entry(1, Extend("", d.question), d.answer)] && f.counter == 2 && f.answer == [];
    } else {
      assert f.closed == [] && f.counter == 1 && f.answer == d.answer;
      assert [] + Pairs(1, d.answer, seg.groups) == Pairs(1, d.answer, seg.groups);
    }
  }

  /** The k-th pair is numbered k + 1, its question is the cleaned question
      text of the k-th reference record and its answer that record's lines,
      never empty, joined by newlines; there is at most one pair per question
      line, plus one for the lines before the first. */
  lemma ParseContents(ps: seq<string>)
    ensures var out := Parse(ps);
            var es := Expected(Lines(ps));
            && |out.questions| == |es| == |out.answers|
            && |es| <= Count(Lines(ps), IsQuestionLine) + 1
            && (forall k | 0 <= k < |es| :: out.questions[k] == Header(k + 1) + CleanQuestion(es[k].head))
            && (forall k | 0 <= k < |es| :: out.answers[k] == Header(k + 1) + Join("\n", es[k].body) && |es[k].body| > 0)
  {
    ClosedArePairs(ps);
    var es := Expected(Lines(ps));
    ExpectedNumbered(Lines(ps));
    assert Parse(ps) == Format(es);
    FormatNumbered(es);
  }

  lemma FormatNumbered(es: seq<Entry>)
    requires forall k | 0 <= k < |es| :: es[k].number == k + 1
    ensures forall k | 0 <= k < |es| :: Format(es).questions[k] == Header(k + 1) + CleanQuestion(es[k].head)
    ensures forall k | 0 <= k < |es| :: Format(es).answers[k] == Header(k + 1) + Join("\n", es[k].body)
  {
    forall k | 0 <= k < |es|
      ensures Format(es).questions[k] == Header(k + 1) + CleanQuestion(es[k].head)
      ensures Format(es).answers[k] == Header(k + 1) + Join("\n", es[k].body)
    {
      FormatAt(es, k);
    }
  }

  lemma FormatAt(es: seq<Entry>, k: nat)
    requires k < |es|
    ensures Format(es).questions[k] == Header(es[k].number) + CleanQuestion(es[k].head)
    ensures Format(es).answers[k] == Header(es[k].number) + Join("\n", es[k].body)
  {
  }

  /** Whitespace-only paragraphs never influence the result. */
  lemma BlankParagraphsIgnored(ps: seq<string>, i: nat, blank: string)
    requires i <= |ps| && AllWs(blank)
    ensures Parse(ps[..i] + [blank] + ps[i..]) == Parse(ps)
  {
    BlankParagraphIgnored(ps, i, blank);
    ClosedArePairs(ps[..i] + [blank] + ps[i..]);
    ClosedArePairs(ps);
  }
}
