/**
  src/TibQA/qa_5.py: a line holding a single letter of the Tibetan alphabet
  (`ཀ` to `ཨ`) opens a question; the first line after it completes the
  question and every later line up to the next letter is the answer. Lines
  before the first letter are dropped. Pairs are numbered with Arabic digits.
 */
module AlphabetMarker {
  import opened Text
  import opened Numeral
  import opened Segments

  /** The class `[ཀ-ཨ]`: U+0F40 to U+0F68. */
  predicate IsLetter(c: char)
  {
    '\U{0F40}' <= c <= '\U{0F68}'
  }

  /** `alphabet_pattern.match(line)` for `^[ཀ-ཨ]\s*$`: a letter followed by
      whitespace only (`\s*` takes a final newline too, so `$` has nothing
      more to allow). */
  predicate IsMarker(line: string)
  {
    |line| > 0 && IsLetter(line[0]) && AllWs(line[1..])
  }

  /** On the stripped lines the loop sees, a marker is one letter alone. */
  lemma MarkerIsOneLetter(line: string)
    requires IsStripped(line)
    ensures IsMarker(line) <==> |line| == 1 && IsLetter(line[0])
  {
    if |line| > 1 {
      assert line[|line| - 1] == line[1..][|line| - 2];
    }
  }

  /** `re.sub(r"^[ཀ-ཨ]\s*", "", s)`: at most one letter and the whitespace
      after it are removed, from the front. */
  function DropMarker(s: string): string
  {
    if |s| > 0 && IsLetter(s[0]) then LStrip(s[1..]) else s
  }

  /** The question text of `_process_current_qa`: the question lines joined
      by spaces, stripped, the marker removed, stripped again. */
  function CleanQuestion(question: seq<string>): string
  {
    Strip(DropMarker(Strip(Join(" ", question))))
  }

  /** The answer text: the answer lines joined by spaces, stripped. */
  function CleanAnswer(answer: seq<string>): string
  {
    Strip(Join(" ", answer))
  }

  /** A marker followed by the question line leaves exactly that line. */
  lemma CleanQuestionDropsMarker(marker: char, text: string)
    requires IsLetter(marker) && IsStripped(text)
    ensures CleanQuestion([[marker], text]) == text
  {
    var joined := Join(" ", [[marker], text]);
    assert [[marker], text][1..] == [text];
    JoinSingle(" ", text);
    assert joined == [marker] + " " + text;
    assert !IsWs(marker);
    if |text| == 0 {
      assert joined == "" + [marker] + " ";
      StripExact("", [marker], " ");
      assert DropMarker([marker]) == LStrip("");
      assert "" + "" + "" == "";
      StripExact("", "", "");
    } else {
      assert IsStripped(joined);
      StripOfStripped(joined);
      assert joined[1..] == " " + text;
      LStripWsPrefix(" ", text);
      StripOfStripped(text);
    }
  }

  /** A marker alone, with no question line after it, gives an empty question. */
  lemma CleanQuestionMarkerOnly(marker: char)
    requires IsLetter(marker)
    ensures CleanQuestion([[marker]]) == ""
  {
    assert Join(" ", [[marker]]) == [marker];
    assert "" + [marker] + "" == [marker];
    StripExact("", [marker], "");
    assert DropMarker([marker]) == LStrip("");
    assert "" + "" + "" == "";
    StripExact("", "", "");
  }

  /** A written pair: its number and its question and answer lines. */
  datatype Pair = Pair(number: nat, question: seq<string>, answer: seq<string>)

  function Min(a: nat, b: nat): nat
  {
    if a < b then a else b
  }

  /** The pair a marker group gives: the marker and the line after it are
      the question, the rest the answer. */
  function PairOf(c: nat, g: Group): (p: Pair)
    ensures p.question + p.answer == [g.head] + g.body
    ensures |p.question| == 1 + Min(1, |g.body|) && p.question[0] == g.head
  {
    var n := Min(1, |g.body|);
    assert [g.head] + g.body[..n] + g.body[n..] == [g.head] + g.body;
    Pair(c, [g.head] + g.body[..n], g.body[n..])
  }

  /** The groups' pairs, numbered consecutively from `c`. */
  function PairsFrom(c: nat, gs: seq<Group>): (ps: seq<Pair>)
    ensures |ps| == |gs|
    decreases |gs|
  {
    if |gs| == 0 then [] else [PairOf(c, gs[0])] + PairsFrom(c + 1, gs[1..])
  }

  lemma {:induction false} PairsFromAt(c: nat, gs: seq<Group>, k: nat)
    requires k < |gs|
    ensures PairsFrom(c, gs)[k] == PairOf(c + k, gs[k])
    decreases k
  {
    if k > 0 {
      PairsFromAt(c + 1, gs[1..], k - 1);
      assert gs[1..][k - 1] == gs[k];
    }
  }

  /** Reference: cut the lines at the markers, drop what comes before the
      first, and turn every group into a pair. */
  function Expected(lines: seq<string>): seq<Pair>
  {
    PairsFrom(1, Split(lines, IsMarker).groups)
  }

  // ---------------------------------------------------------------------
  // The loop.

  /** `current_question`, `current_answer`, `question_counter` and the pairs
      written so far. */
  datatype State = State(question: seq<string>, answer: seq<string>, counter: nat, closed: seq<Pair>)

  const Init: State := State([], [], 1, [])

  /** `_process_current_qa`, the counter step and the reset, done when the
      question or the answer is non-empty. */
  function Flush(st: State): State
  {
    if |st.question| > 0 || |st.answer| > 0 then
      State([], [], st.counter + 1, st.closed + [Pair(st.counter, st.question, st.answer)])
    else st
  }

  function Feed(st: State, line: string): State
  {
    if IsMarker(line) then
      var s := Flush(st);
      s.(question := s.question + [line])
    else if |st.question| == 0 then st
    else if |st.question| == 1 then st.(question := st.question + [line])
    else st.(answer := st.answer + [line])
  }

  function QuestionText(p: Pair): string
  {
    ArabicHeader(p.number) + CleanQuestion(p.question)
  }

  function AnswerText(p: Pair): string
  {
    ArabicHeader(p.number) + CleanAnswer(p.answer)
  }

  function Format(ps: seq<Pair>): (out: Output)
    ensures |out.questions| == |ps| == |out.answers|
  {
    Output(seq(|ps|, k requires 0 <= k < |ps| => QuestionText(ps[k])),
           seq(|ps|, k requires 0 <= k < |ps| => AnswerText(ps[k])))
  }

  /** `parse_docx` on the paragraph texts of a document. */
  function Parse(ps: seq<string>): Output
  {
    Format(Flush(Fold(Feed, Init, ps)).closed)
  }

  // ---------------------------------------------------------------------
  // The loop computes the reference.

  /** Where the loop puts lines that come before the next marker: nowhere
      while no question is open, the first into a one-line question, the
      rest into the answer. */
  function Absorb(st: State, pre: seq<string>): State
  {
    if |st.question| == 0 then st
    else if |st.question| == 1 && |pre| > 0 then
      st.(question := st.question + [pre[0]], answer := st.answer + pre[1..])
    else st.(answer := st.answer + pre)
  }

  predicate LoopAgrees(st: State, lines: seq<string>)
  {
    var seg := Split(lines, IsMarker);
    var f := Flush(Absorb(st, seg.preamble));
    Flush(FoldLines(Feed, st, lines)).closed == f.closed + PairsFrom(f.counter, seg.groups)
  }

  lemma {:induction false} FeedMatchesPairs(st: State, lines: seq<string>)
    ensures LoopAgrees(st, lines)
    decreases |lines|
  {
    if |lines| == 0 {
      assert Absorb(st, []) == st;
      assert Flush(st).closed + [] == Flush(st).closed;
    } else {
      var line, tail := lines[0], lines[1..];
      assert lines == [line] + tail;
      FeedMatchesPairs(Feed(st, line), tail);
      if IsMarker(line) {
        FeedMarker(st, line, tail);
      } else {
        FeedOtherLine(st, line, tail);
      }
    }
  }

  lemma FeedMarker(st: State, line: string, tail: seq<string>)
    requires IsMarker(line)
    requires LoopAgrees(Feed(st, line), tail)
    ensures LoopAgrees(st, [line] + tail)
  {
    var rest := Split(tail, IsMarker);
    assert Split([line] + tail, IsMarker) == Segmentation([], [Group(line, rest.preamble)] + rest.groups) by {
      SplitCons(line, tail, IsMarker);
    }
    assert FoldLines(Feed, st, [line] + tail) == FoldLines(Feed, Feed(st, line), tail) by {
      assert ([line] + tail)[1..] == tail;
    }
    assert Absorb(st, []) == st;
    var s0 := Flush(st);
    assert s0.question == [] && s0.answer == [];
    assert Feed(st, line) == s0.(question := [line]);
    MarkerCloses(s0, line, rest.preamble, rest.groups);
  }

  /** After a marker the open question is the marker alone; the group it
      heads becomes the next pair. */
  lemma MarkerCloses(s0: State, line: string, pre: seq<string>, gs: seq<Group>)
    requires s0.question == [] && s0.answer == []
    ensures var f1 := Flush(Absorb(s0.(question := [line]), pre));
            f1.closed + PairsFrom(f1.counter, gs) == Flush(s0).closed + PairsFrom(Flush(s0).counter, [Group(line, pre)] + gs)
  {
    var p := PairOf(s0.counter, Group(line, pre));
    var a := Absorb(s0.(question := [line]), pre);
    assert a.question == p.question && a.answer == p.answer by {
      if |pre| > 0 {
        assert pre[..1] == [pre[0]];
      } else {
        assert pre[..0] == [] && pre[0..] == pre;
      }
    }
    assert Flush(s0) == s0;
    var f1 := Flush(a);
    assert f1.closed == s0.closed + [p] && f1.counter == s0.counter + 1;
    assert ([Group(line, pre)] + gs)[0] == Group(line, pre) && ([Group(line, pre)] + gs)[1..] == gs;
    AppendAssoc(s0.closed, [p], PairsFrom(s0.counter + 1, gs));
  }

  lemma FeedOtherLine(st: State, line: string, tail: seq<string>)
    requires !IsMarker(line)
    requires LoopAgrees(Feed(st, line), tail)
    ensures LoopAgrees(st, [line] + tail)
  {
    var rest := Split(tail, IsMarker);
    assert Split([line] + tail, IsMarker) == Segmentation([line] + rest.preamble, rest.groups) by {
      SplitCons(line, tail, IsMarker);
    }
    assert FoldLines(Feed, st, [line] + tail) == FoldLines(Feed, Feed(st, line), tail) by {
      assert ([line] + tail)[1..] == tail;
    }
    OtherLineFiled(st, line, rest.preamble);
  }

  /** Any other line is filed where `Absorb` files it. */
  lemma OtherLineFiled(st: State, line: string, pre: seq<string>)
    requires !IsMarker(line)
    ensures Absorb(Feed(st, line), pre) == Absorb(st, [line] + pre)
  {
    assert ([line] + pre)[0] == line && ([line] + pre)[1..] == pre;
    if |st.question| >= 2 {
      AppendAssoc(st.answer, [line], pre);
    }
  }

  /** The loop writes exactly the reference's pairs. */
  lemma ClosedArePairs(ps: seq<string>)
    ensures Flush(Fold(Feed, Init, ps)).closed == Expected(Lines(ps))
  {
    var lines := Lines(ps);
    FoldIsFoldLines(Feed, Init, ps);
    FeedMatchesPairs(Init, lines);
    var seg := Split(lines, IsMarker);
    assert Absorb(Init, seg.preamble) == Init;
    assert Flush(Init) == Init;
    assert [] + PairsFrom(1, seg.groups) == PairsFrom(1, seg.groups);
  }

  /** One pair per marker line, the k-th numbered `k + 1`: its question is
      the k-th marker with the line after it, its answer the lines after
      that up to the next marker, and no line of the group is lost. */
  lemma ParseContents(ps: seq<string>)
    ensures var out := Parse(ps);
            var gs := Split(Lines(ps), IsMarker).groups;
            var es := Expected(Lines(ps));
            && |out.questions| == |gs| == |out.answers| == |es|
            && |gs| == Count(Lines(ps), IsMarker)
            && (forall k | 0 <= k < |gs| :: es[k] == PairOf(k + 1, gs[k]))
            && (forall k | 0 <= k < |gs| :: out.questions[k] == ArabicHeader(k + 1) + CleanQuestion(es[k].question))
            && (forall k | 0 <= k < |gs| :: out.answers[k] == ArabicHeader(k + 1) + CleanAnswer(es[k].answer))
  {
    var lines := Lines(ps);
    var gs := Split(lines, IsMarker).groups;
    ClosedArePairs(ps);
    SplitCount(lines, IsMarker);
    var es := Expected(lines);
    assert Parse(ps) == Format(es);
    forall k | 0 <= k < |gs|
      ensures es[k] == PairOf(k + 1, gs[k])
      ensures Format(es).questions[k] == ArabicHeader(k + 1) + CleanQuestion(es[k].question)
      ensures Format(es).answers[k] == ArabicHeader(k + 1) + CleanAnswer(es[k].answer)
    {
      PairsFromAt(1, gs, k);
      FormatAt(es, k);
    }
  }

  lemma FormatAt(ps: seq<Pair>, k: nat)
    requires k < |ps|
    ensures Format(ps).questions[k] == ArabicHeader(ps[k].number) + CleanQuestion(ps[k].question)
    ensures Format(ps).answers[k] == ArabicHeader(ps[k].number) + CleanAnswer(ps[k].answer)
  {
  }

  /** Lines before the first marker are thrown away. */
  lemma PreambleDiscarded(pre: seq<string>, ps: seq<string>)
    requires forall j | 0 <= j < |pre| :: !IsMarker(Strip(pre[j]))
    ensures Parse(pre + ps) == Parse(ps)
  {
    LinesKeep(pre, l => !IsMarker(l));
    LinesAppend(pre, ps);
    SplitAfterHeadless(Lines(pre), Lines(ps), IsMarker);
    ClosedArePairs(pre + ps);
    ClosedArePairs(ps);
  }

  /** Whitespace-only paragraphs never influence the result. */
  lemma BlankParagraphsIgnored(ps: seq<string>, i: nat, blank: string)
    requires i <= |ps| && AllWs(blank)
    ensures Parse(ps[..i] + [blank] + ps[i..]) == Parse(ps)
  {
    BlankParagraphIgnored(ps, i, blank);
    ClosedArePairs(ps[..i] + [blank] + ps[i..]);
    ClosedArePairs(ps);
  }
}
