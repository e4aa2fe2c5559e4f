/**
  src/TibQA/qa_7.py: a question starts at a line `12. …` (decimal digits and
  a dot), an answer at a line starting with `ལན།`; other lines continue
  whichever of the two was started last, and are dropped before the first.
  Questions and answers are collected as two independent lists, each
  entry's fragments joined by spaces, and each list is written with its
  own Tibetan index from 1.
 */
module DottedIndex {
  import opened Wrappers
  import opened Text
  import opened Numeral
  import opened Segments

  // ---------------------------------------------------------------------
  // The two line kinds.

  /** `x` is one of the ten code points from `zero` on. */
  predicate Run10(x: int, zero: int)
  {
    zero <= x < zero + 10
  }

  /** The regex class `\d` on `str`: Unicode category Nd (Unicode 15.0),
      which comes in 68 runs of ten, listed here by their zeros. */
  predicate IsDecimal(c: char)
  {
    var x := c as int;
    || Run10(x, 0x0030) || Run10(x, 0x0660) || Run10(x, 0x06F0) || Run10(x, 0x07C0) || Run10(x, 0x0966)
    || Run10(x, 0x09E6) || Run10(x, 0x0A66) || Run10(x, 0x0AE6) || Run10(x, 0x0B66) || Run10(x, 0x0BE6)
    || Run10(x, 0x0C66) || Run10(x, 0x0CE6) || Run10(x, 0x0D66) || Run10(x, 0x0DE6) || Run10(x, 0x0E50)
    || Run10(x, 0x0ED0) || Run10(x, 0x0F20) || Run10(x, 0x1040) || Run10(x, 0x1090) || Run10(x, 0x17E0)
    || Run10(x, 0x1810) || Run10(x, 0x1946) || Run10(x, 0x19D0) || Run10(x, 0x1A80) || Run10(x, 0x1A90)
    || Run10(x, 0x1B50) || Run10(x, 0x1BB0) || Run10(x, 0x1C40) || Run10(x, 0x1C50) || Run10(x, 0xA620)
    || Run10(x, 0xA8D0) || Run10(x, 0xA900) || Run10(x, 0xA9D0) || Run10(x, 0xA9F0) || Run10(x, 0xAA50)
    || Run10(x, 0xABF0) || Run10(x, 0xFF10) || Run10(x, 0x104A0) || Run10(x, 0x10D30) || Run10(x, 0x11066)
    || Run10(x, 0x110F0) || Run10(x, 0x11136) || Run10(x, 0x111D0) || Run10(x, 0x112F0) || Run10(x, 0x11450)
    || Run10(x, 0x114D0) || Run10(x, 0x11650) || Run10(x, 0x116C0) || Run10(x, 0x11730) || Run10(x, 0x118E0)
    || Run10(x, 0x11950) || Run10(x, 0x11C50) || Run10(x, 0x11D50) || Run10(x, 0x11DA0) || Run10(x, 0x11F50)
    || Run10(x, 0x16A60) || Run10(x, 0x16AC0) || Run10(x, 0x16B50) || Run10(x, 0x1D7CE) || Run10(x, 0x1D7D8)
    || Run10(x, 0x1D7E2) || Run10(x, 0x1D7EC) || Run10(x, 0x1D7F6) || Run10(x, 0x1E140) || Run10(x, 0x1E2F0)
    || Run10(x, 0x1E4F0) || Run10(x, 0x1E950) || Run10(x, 0x1FBF0)
  }

  /** Both digit alphabets of the documents are decimal digits, the dot is
      not. */
  lemma DecimalDigits(c: char)
    ensures '0' <= c <= '9' ==> IsDecimal(c)
    ensures IsTibetanDigit(c) ==> IsDecimal(c)
    ensures !IsDecimal('.')
  {
  }

  /** Where the run of `\d` characters starting at index `i` ends. */
  function DecimalEnd(s: string, i: nat): (j: nat)
    requires i <= |s|
    ensures i <= j <= |s|
    decreases |s| - i
  {
    if i < |s| && IsDecimal(s[i]) then DecimalEnd(s, i + 1) else i
  }

  /** `re.match(r"^\d+\.", line)`: the greedy digit run is followed by a
      dot (a dot is no digit, so giving digits back cannot help). */
  predicate IsQuestionStart(line: string)
  {
    var n := DecimalEnd(line, 0);
    0 < n < |line| && line[n] == '.'
  }

  const AnswerMark: string := "ལན།"

  /** The `elif line.startswith("ལན།")` branch: only lines that do not start
      a question can start an answer. */
  predicate IsAnswerStart(line: string)
  {
    !IsQuestionStart(line) && StartsWith(line, AnswerMark)
  }

  /** `text.split(".", 1)[1].strip()` */
  function QuestionHead(line: string): string
  {
    Strip(AfterFirst(line, "."))
  }

  /** `text.replace("ལན།", "").strip()` */
  function AnswerHead(line: string): string
  {
    Strip(RemoveAll(line, AnswerMark))
  }

  /** Digits, a dot and text make a question start, which keeps the text. */
  lemma DottedLine(digits: string, t: string)
    requires |digits| > 0 && forall k | 0 <= k < |digits| :: IsDecimal(digits[k])
    ensures IsQuestionStart(digits + "." + t)
    ensures QuestionHead(digits + "." + t) == Strip(t)
  {
    var line := digits + "." + t;
    DecimalDigits('.');
    forall k | 0 <= k < |digits|
      ensures IsDecimal(line[k])
    {
      assert line[k] == digits[k];
    }
    DecimalEndAt(line, 0, |digits|);
    assert line[|digits|] == '.';
    assert forall k | 0 <= k < |digits| :: digits[k] != '.';
    AfterFirstChar(digits, '.', t);
  }

  /** ...and every question start is of that form. */
  lemma QuestionStartShape(line: string) returns (n: nat)
    requires IsQuestionStart(line)
    ensures 0 < n < |line| && line[n] == '.'
    ensures forall k | 0 <= k < n :: IsDecimal(line[k])
  {
    n := DecimalEnd(line, 0);
    DecimalEndRun(line, 0);
  }

  lemma {:induction false} DecimalEndRun(s: string, i: nat)
    requires i <= |s|
    ensures forall k | i <= k < DecimalEnd(s, i) :: IsDecimal(s[k])
    decreases |s| - i
  {
    if i < |s| && IsDecimal(s[i]) {
      DecimalEndRun(s, i + 1);
    }
  }

  lemma {:induction false} DecimalEndAt(s: string, i: nat, j: nat)
    requires i <= j < |s| && !IsDecimal(s[j])
    requires forall k | i <= k < j :: IsDecimal(s[k])
    ensures DecimalEnd(s, i) == j
    decreases j - i
  {
    if i < j {
      DecimalEndAt(s, i + 1, j);
    }
  }

  /** An answer line that carries the keyword once, in front, keeps the text
      behind it. */
  lemma AnswerLine(gap: string, t: string)
    requires AllWs(gap) && IsStripped(t) && !Contains(t, AnswerMark)
    requires !IsQuestionStart(AnswerMark + gap + t)
    ensures IsAnswerStart(AnswerMark + gap + t)
    ensures AnswerHead(AnswerMark + gap + t) == t
  {
    var line := AnswerMark + gap + t;
    assert line[..|AnswerMark|] == AnswerMark;
    assert line[|AnswerMark|..] == gap + t;
    assert !Contains(gap + t, AnswerMark) by {
      forall j | 0 <= j <= |gap + t|
        ensures !OccursAt(gap + t, AnswerMark, j)
      {
        if j < |gap| && j + 3 <= |gap + t| {
          assert (gap + t)[j..j + 3][0] == gap[j];
        } else if |gap| <= j && OccursAt(gap + t, AnswerMark, j) {
          assert (gap + t)[j..j + 3] == t[j - |gap|..j - |gap| + 3];
          assert OccursAt(t, AnswerMark, j - |gap|);
        }
      }
    }
    RemoveAllAbsent(gap + t, AnswerMark);
    assert RemoveAll(line, AnswerMark) == gap + t;
    assert gap + t + "" == gap + t;
    StripExact(gap, t, "");
  }

  // ---------------------------------------------------------------------
  // One list at a time. Each list follows the same rule, with the roles of
  // the two line kinds swapped: its own start lines open an entry, the
  // other kind's start lines switch it off, and plain lines continue the
  // open entry while it is switched on.

  /** Which lines open an entry of the list, which stop it, and what an
      opening line contributes. */
  datatype Side = Side(isHead: string -> bool, isStop: string -> bool, headText: string -> string)

  const QuestionSide: Side := Side(IsQuestionStart, IsAnswerStart, QuestionHead)
  const AnswerSide: Side := Side(IsAnswerStart, IsQuestionStart, AnswerHead)

  /** The open entry's fragments, the mode flag and the finished entries. */
  datatype Track = Track(current: seq<string>, on: bool, done: seq<string>)

  const Idle: Track := Track([], false, [])

  /** `if current: done.append(" ".join(current).strip()); current = []` */
  function Close(t: Track): Track
  {
    if |t.current| > 0 then Track([], t.on, t.done + [Strip(Join(" ", t.current))]) else t
  }

  function Step(side: Side, t: Track, line: string): Track
  {
    if side.isHead(line) then Close(t).(current := [side.headText(line)], on := true)
    else if side.isStop(line) then t.(on := false)
    else if t.on then t.(current := t.current + [line])
    else t
  }

  function Run(side: Side, t: Track, lines: seq<string>): Track
    decreases |lines|
  {
    if |lines| == 0 then t else Run(side, Step(side, t, lines[0]), lines[1..])
  }

  // The reference for one list.

  /** The lines before the first stop line. */
  function Before(lines: seq<string>, stop: string -> bool): (r: seq<string>)
    ensures |r| <= |lines|
  {
    if |lines| == 0 || stop(lines[0]) then [] else [lines[0]] + Before(lines[1..], stop)
  }

  predicate Stops(lines: seq<string>, stop: string -> bool)
  {
    |lines| > 0 && (stop(lines[0]) || Stops(lines[1..], stop))
  }

  /** An entry: the opening line's text and the plain lines after it, up to
      the first line of the other kind. */
  function TextOf(side: Side, g: Group): string
  {
    Strip(Join(" ", [side.headText(g.head)] + Before(g.body, side.isStop)))
  }

  function Texts(side: Side, gs: seq<Group>): (r: seq<string>)
    ensures |r| == |gs|
    decreases |gs|
  {
    if |gs| == 0 then [] else [TextOf(side, gs[0])] + Texts(side, gs[1..])
  }

  /** Cut the lines at the list's own start lines; every group is an entry. */
  function Collected(side: Side, lines: seq<string>): seq<string>
  {
    Texts(side, Split(lines, side.isHead).groups)
  }

  lemma {:induction false} TextsAt(side: Side, gs: seq<Group>, k: nat)
    requires k < |gs|
    ensures Texts(side, gs)[k] == TextOf(side, gs[k])
    decreases k
  {
    if k > 0 {
      TextsAt(side, gs[1..], k - 1);
      assert gs[1..][k - 1] == gs[k];
    }
  }

  /** Where a track puts lines that come before its next start line. */
  function Absorb(side: Side, t: Track, pre: seq<string>): Track
  {
    t.(current := t.current + (if t.on then Before(pre, side.isStop) else []),
       on := t.on && !Stops(pre, side.isStop))
  }

  predicate TrackAgrees(side: Side, t: Track, lines: seq<string>)
  {
    var seg := Split(lines, side.isHead);
    var f := Close(Absorb(side, t, seg.preamble));
    Close(Run(side, t, lines)).done == f.done + Texts(side, seg.groups)
  }

  lemma {:induction false} RunMatchesTexts(side: Side, t: Track, lines: seq<string>)
    ensures TrackAgrees(side, t, lines)
    decreases |lines|
  {
    if |lines| == 0 {
      assert t.current + [] == t.current;
      assert Absorb(side, t, []) == t;
      assert Close(t).done + [] == Close(t).done;
    } else {
      var line, tail := lines[0], lines[1..];
      assert lines == [line] + tail;
      RunMatchesTexts(side, Step(side, t, line), tail);
      var rest := Split(tail, side.isHead);
      assert Run(side, t, [line] + tail) == Run(side, Step(side, t, line), tail) by {
        assert ([line] + tail)[1..] == tail;
      }
      SplitCons(line, tail, side.isHead);
      if side.isHead(line) {
        assert Split(lines, side.isHead) == Segmentation([], [Group(line, rest.preamble)] + rest.groups);
        assert t.current + [] == t.current;
        assert Absorb(side, t, []) == t;
        HeadCloses(side, Close(t), line, rest.preamble, rest.groups);
      } else {
        assert Split(lines, side.isHead) == Segmentation([line] + rest.preamble, rest.groups);
        OtherLineFiled(side, t, line, rest.preamble);
      }
    }
  }

  /** A start line closes the open entry and opens the group's entry. */
  lemma HeadCloses(side: Side, t0: Track, line: string, pre: seq<string>, gs: seq<Group>)
    requires |t0.current| == 0
    ensures var f1 := Close(Absorb(side, t0.(current := [side.headText(line)], on := true), pre));
            f1.done + Texts(side, gs) == t0.done + Texts(side, [Group(line, pre)] + gs)
  {
    var x := TextOf(side, Group(line, pre));
    var f1 := Close(Absorb(side, t0.(current := [side.headText(line)], on := true), pre));
    assert f1.done == t0.done + [x];
    assert ([Group(line, pre)] + gs)[0] == Group(line, pre) && ([Group(line, pre)] + gs)[1..] == gs;
    AppendAssoc(t0.done, [x], Texts(side, gs));
  }

  /** Any other line is filed where `Absorb` files it. */
  lemma OtherLineFiled(side: Side, t: Track, line: string, pre: seq<string>)
    requires !side.isHead(line)
    ensures Absorb(side, Step(side, t, line), pre) == Absorb(side, t, [line] + pre)
  {
    assert ([line] + pre)[0] == line && ([line] + pre)[1..] == pre;
    if !side.isStop(line) && t.on {
      AppendAssoc(t.current, [line], Before(pre, side.isStop));
    } else {
      assert t.current + [] == t.current;
    }
  }

  /** A track run from idle collects exactly the reference entries. */
  lemma TrackCollects(side: Side, lines: seq<string>)
    ensures Close(Run(side, Idle, lines)).done == Collected(side, lines)
  {
    RunMatchesTexts(side, Idle, lines);
    var seg := Split(lines, side.isHead);
    assert Absorb(side, Idle, seg.preamble) == Idle;
    assert [] + Texts(side, seg.groups) == Texts(side, seg.groups);
  }

  // ---------------------------------------------------------------------
  // The loop as written.

  /** `current_question`, `current_answer`, `is_question`, `is_answer` and
      the two lists built so far. */
  datatype State = State(question: seq<string>, answer: seq<string>, isQuestion: bool, isAnswer: bool,
                         questions: seq<string>, answers: seq<string>)

  const Init: State := State([], [], false, false, [], [])

  function Feed(st: State, text: string): State
  {
    if IsQuestionStart(text) then
      var qs := if |st.question| > 0 then st.questions + [Strip(Join(" ", st.question))] else st.questions;
      st.(questions := qs, question := [QuestionHead(text)], isQuestion := true, isAnswer := false)
    else if StartsWith(text, AnswerMark) then
      var ans := if |st.answer| > 0 then st.answers + [Strip(Join(" ", st.answer))] else st.answers;
      st.(answers := ans, answer := [AnswerHead(text)], isQuestion := false, isAnswer := true)
    else if st.isQuestion then st.(question := st.question + [text])
    else if st.isAnswer then st.(answer := st.answer + [text])
    else st
  }

  /** "Save the last question and answer". */
  function Finish(st: State): State
  {
    st.(questions := if |st.question| > 0 then st.questions + [Strip(Join(" ", st.question))] else st.questions,
        answers := if |st.answer| > 0 then st.answers + [Strip(Join(" ", st.answer))] else st.answers)
  }

  /** The `f"{tibetan_num}༽ {text}\n\n"` entries `save_to_files` writes, the
      index counting from 1 in each list. */
  function Render(texts: seq<string>): (r: seq<string>)
    ensures |r| == |texts|
  {
    seq(|texts|, k requires 0 <= k < |texts| => Header(k + 1) + texts[k] + "\n\n")
  }

  /** `process` followed by the rendering of both files. */
  function Parse(ps: seq<string>): Output
  {
    var st := Finish(Fold(Feed, Init, ps));
    Output(Render(st.questions), Render(st.answers))
  }

  // ---------------------------------------------------------------------
  // The loop is the two tracks side by side.

  function QuestionTrack(st: State): Track
  {
    Track(st.question, st.isQuestion, st.questions)
  }

  function AnswerTrack(st: State): Track
  {
    Track(st.answer, st.isAnswer, st.answers)
  }

  /** One loop step moves each list as its own track would. The flags are
      never both set. */
  lemma FeedIsTwoSteps(st: State, text: string)
    requires !(st.isQuestion && st.isAnswer)
    ensures QuestionTrack(Feed(st, text)) == Step(QuestionSide, QuestionTrack(st), text)
    ensures AnswerTrack(Feed(st, text)) == Step(AnswerSide, AnswerTrack(st), text)
    ensures !(Feed(st, text).isQuestion && Feed(st, text).isAnswer)
  {
  }

  lemma {:induction false} LoopIsTwoRuns(st: State, lines: seq<string>)
    requires !(st.isQuestion && st.isAnswer)
    ensures QuestionTrack(FoldLines(Feed, st, lines)) == Run(QuestionSide, QuestionTrack(st), lines)
    ensures AnswerTrack(FoldLines(Feed, st, lines)) == Run(AnswerSide, AnswerTrack(st), lines)
    decreases |lines|
  {
    if |lines| > 0 {
      FeedIsTwoSteps(st, lines[0]);
      LoopIsTwoRuns(Feed(st, lines[0]), lines[1..]);
    }
  }

  /** The two lists are the two references: each question is a dotted line's
      text with the plain lines after it up to the next `ལན།` line, each
      answer likewise with the roles swapped. */
  lemma ListsAreCollected(ps: seq<string>)
    ensures Finish(Fold(Feed, Init, ps)).questions == Collected(QuestionSide, Lines(ps))
    ensures Finish(Fold(Feed, Init, ps)).answers == Collected(AnswerSide, Lines(ps))
  {
    FoldIsFoldLines(Feed, Init, ps);
    LoopIsTwoRuns(Init, Lines(ps));
    var st := FoldLines(Feed, Init, Lines(ps));
    assert QuestionTrack(Init) == Idle && AnswerTrack(Init) == Idle;
    TrackCollects(QuestionSide, Lines(ps));
    TrackCollects(AnswerSide, Lines(ps));
    assert Finish(st).questions == Close(QuestionTrack(st)).done;
    assert Finish(st).answers == Close(AnswerTrack(st)).done;
  }

  /** As many questions as dotted lines and as many answers as `ལན།` lines,
      whether or not the two numbers agree; the k-th entry of each file is
      the k-th entry of its list behind the index `k + 1`. */
  lemma ParseContents(ps: seq<string>)
    ensures var out := Parse(ps);
            var qs := Collected(QuestionSide, Lines(ps));
            var ans := Collected(AnswerSide, Lines(ps));
            && |out.questions| == |qs| == Count(Lines(ps), IsQuestionStart)
            && |out.answers| == |ans| == Count(Lines(ps), IsAnswerStart)
            && (forall k | 0 <= k < |qs| :: out.questions[k] == Header(k + 1) + qs[k] + "\n\n")
            && (forall k | 0 <= k < |ans| :: out.answers[k] == Header(k + 1) + ans[k] + "\n\n")
  {
    var lines := Lines(ps);
    ParseLists(ps);
    CollectedCount(QuestionSide, lines);
    CollectedCount(AnswerSide, lines);
    RenderAt(Collected(QuestionSide, lines));
    RenderAt(Collected(AnswerSide, lines));
  }

  /** The entries one by one. */
  lemma RenderAt(texts: seq<string>)
    ensures forall k | 0 <= k < |texts| :: Render(texts)[k] == Header(k + 1) + texts[k] + "\n\n"
  {
  }

  /** The two files render the two collected lists. */
  lemma ParseLists(ps: seq<string>)
    ensures Parse(ps) == Output(Render(Collected(QuestionSide, Lines(ps))),
                                Render(Collected(AnswerSide, Lines(ps))))
  {
    ListsAreCollected(ps);
  }

  /** One text per head line. */
  lemma CollectedCount(side: Side, lines: seq<string>)
    ensures |Collected(side, lines)| == Count(lines, side.isHead)
  {
    SplitCount(lines, side.isHead);
  }

  /** The k-th entry of each list, group by group. */
  lemma CollectedAt(side: Side, lines: seq<string>, k: nat)
    requires k < |Split(lines, side.isHead).groups|
    ensures Collected(side, lines)[k] == TextOf(side, Split(lines, side.isHead).groups[k])
  {
    TextsAt(side, Split(lines, side.isHead).groups, k);
  }

  /** Reading an entry back: the token before its first space decodes to the
      entry's index, and what follows the space is the entry's text. */
  lemma EntryReadsBack(texts: seq<string>, k: nat)
    requires k < |texts|
    ensures var e := Render(texts)[k];
            && e == Bracketed(k + 1) + " " + (texts[k] + "\n\n")
            && AfterFirst(e, " ") == texts[k] + "\n\n"
            && DecodeTibetan(e[..|Bracketed(k + 1)| - 1]) == Some(k + 1)
  {
    var b := Bracketed(k + 1);
    IndexTokensHaveNoSpace(k + 1);
    var e := Render(texts)[k];
    assert e == b + " " + (texts[k] + "\n\n");
    AfterFirstChar(b, ' ', texts[k] + "\n\n");
    assert e[..|b| - 1] == Tibetan(k + 1);
    TibetanRoundTrip(k + 1);
  }

  /** Whitespace-only paragraphs never influence the result. */
  lemma BlankParagraphsIgnored(ps: seq<string>, i: nat, blank: string)
    requires i <= |ps| && AllWs(blank)
    ensures Parse(ps[..i] + [blank] + ps[i..]) == Parse(ps)
  {
    BlankParagraphIgnored(ps, i, blank);
    ListsAreCollected(ps[..i] + [blank] + ps[i..]);
    ListsAreCollected(ps);
  }
}
