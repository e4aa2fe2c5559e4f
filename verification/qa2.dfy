/**
  src/TibQA/qa_2.py: questions are the lines that start with Tibetan digits;
  every other line belongs to the answer of the question above it. Questions
  and answers are re-numbered `༡༽ `, `༢༽ `, ... in emission order.
 */
module LeadingNumeral {
  import opened Wrappers
  import opened Text
  import opened Numeral
  import opened Segments

  /** `answer_prefix`: removed once from the front of each answer line. */
  const AnswerPrefix: string := "ལན། "

  /** `initial_number_pattern.match(line)`, the pattern being `^[༠-༩]+`. */
  predicate IsQuestionLine(line: string)
  {
    StartsWithTibetanDigit(line)
  }

  /** The length of a match of `༽\s*[༠-༩]+\s*` at the front of `s`, if any.
      The three classes are disjoint, so the greedy match is the only one. */
  function DuplicateNumberAt(s: string): (r: Option<nat>)
    ensures r.Some? ==> 2 <= r.value <= |s| && s[0] == '༽'
  {
    if |s| == 0 || s[0] != '༽' then None
    else
      var a := WsEnd(s, 1);
      var b := DigitEnd(s, a);
      if b == a then None else Some(WsEnd(s, b))
  }

  /** A match starts exactly where `༽` is followed by whitespace and then a
      digit; it covers only whitespace and digits and stops before the next
      non-whitespace character. */
  lemma DuplicateNumberMatches(s: string)
    ensures DuplicateNumberAt(s).Some? <==>
      |s| > 0 && s[0] == '༽' && exists a | 1 <= a < |s| :: AllWs(s[1..a]) && IsTibetanDigit(s[a])
    ensures DuplicateNumberAt(s).Some? ==>
      var k := DuplicateNumberAt(s).value;
      && (k == |s| || !IsWs(s[k]))
      && forall i | 1 <= i < k :: IsWs(s[i]) || IsTibetanDigit(s[i])
  {
    if |s| > 0 && s[0] == '༽' {
      var a := WsEnd(s, 1);
      var b := DigitEnd(s, a);
      WsEndIff(s, 1, a);
      DigitEndIff(s, a, b);
      if b != a {
        WsEndIff(s, b, WsEnd(s, b));
        assert AllWs(s[1..a]) && IsTibetanDigit(s[a]);
      }
    }
  }

  /** `duplicate_number_pattern.sub("༽ ", text)`: scanning left to right,
      every match is replaced by `༽ `. */
  function CollapseDuplicateNumbers(s: string): (r: string)
    ensures |r| <= |s|
    ensures (forall i | 0 <= i < |s| :: s[i] != '༽') ==> r == s
    decreases |s|
  {
    if |s| == 0 then s
    else match DuplicateNumberAt(s)
      case Some(k) => "༽ " + CollapseDuplicateNumbers(s[k..])
      case None => [s[0]] + CollapseDuplicateNumbers(s[1..])
  }

  /** `clean_question_text` */
  function CleanQuestion(text: string): string
  {
    Strip(CollapseDuplicateNumbers(Strip(DropLeadingDigits(text))))
  }

  /** The typical question line, a number, a gap and bracket-free text, is
      cleaned down to exactly that text. */
  lemma CleanQuestionDropsNumber(digits: string, gap: string, t: string)
    requires forall i | 0 <= i < |digits| :: IsTibetanDigit(digits[i])
    requires AllWs(gap) && IsStripped(t) && (|t| == 0 || !IsTibetanDigit(t[0]))
    requires forall i | 0 <= i < |t| :: t[i] != '༽'
    ensures CleanQuestion(digits + gap + t) == t
  {
    DropNumberThenGap(digits, gap, t);
    GapStripped(gap, t);
    NoBracketUnchanged(t);
    CleanQuestionStages(digits + gap + t, gap + t, t, t, t);
  }

  lemma NoBracketUnchanged(t: string)
    requires IsStripped(t) && forall i | 0 <= i < |t| :: t[i] != '༽'
    ensures CollapseDuplicateNumbers(t) == t && Strip(t) == t
  {
    StripOfStripped(t);
  }

  lemma DropNumberThenGap(digits: string, gap: string, t: string)
    requires forall i | 0 <= i < |digits| :: IsTibetanDigit(digits[i])
    requires AllWs(gap) && (|t| == 0 || !IsTibetanDigit(t[0]))
    ensures DropLeadingDigits(digits + gap + t) == gap + t
  {
    assert digits + gap + t == digits + (gap + t);
    assert |gap| > 0 ==> !IsTibetanDigit(gap[0]);
    DropDigitRun(digits, gap + t);
  }

  lemma GapStripped(gap: string, t: string)
    requires AllWs(gap) && IsStripped(t)
    ensures Strip(gap + t) == t
  {
    assert gap + t + "" == gap + t;
    StripExact(gap, t, "");
  }

  /** The second substitution of `clean_question_text` at a match: `༽`,
      its whole whitespace run, a non-empty digit run and the whitespace
      after it become `༽ `, and the scan resumes after the match. */
  lemma CollapseRewrites(w1: string, d: string, w2: string, t: string)
    requires AllWs(w1) && AllWs(w2)
    requires |d| > 0 && forall i | 0 <= i < |d| :: IsTibetanDigit(d[i])
    requires |t| == 0 || (!IsWs(t[0]) && !IsTibetanDigit(t[0]))
    ensures CollapseDuplicateNumbers(['༽'] + w1 + d + w2 + t) == "༽ " + CollapseDuplicateNumbers(t)
  {
    var s := ['༽'] + w1 + d + w2 + t;
    var k := MatchOfShape(w1, d, w2, t);
    CollapseAtMatch(s, k);
  }

  lemma MatchOfShape(w1: string, d: string, w2: string, t: string) returns (k: nat)
    requires AllWs(w1) && AllWs(w2)
    requires |d| > 0 && forall i | 0 <= i < |d| :: IsTibetanDigit(d[i])
    requires |t| == 0 || (!IsWs(t[0]) && !IsTibetanDigit(t[0]))
    ensures k <= |['༽'] + w1 + d + w2 + t|
    ensures DuplicateNumberAt(['༽'] + w1 + d + w2 + t) == Some(k)
    ensures (['༽'] + w1 + d + w2 + t)[k..] == t
  {
    var s := ['༽'] + w1 + d + w2 + t;
    k := 1 + |w1| + |d| + |w2|;
    ShapeSlices(w1, d, w2, t);
    MatchEndsAt(s, w1, d, w2, t);
  }

  lemma ShapeSlices(w1: string, d: string, w2: string, t: string)
    ensures var s := ['༽'] + w1 + d + w2 + t;
      var a := 1 + |w1|;
      var b := a + |d|;
      var k := b + |w2|;
      s[0] == '༽' && s[1..a] == w1 && s[a..b] == d && s[b..k] == w2 && s[k..] == t
  {
    var s := ['༽'] + w1 + d + w2 + t;
    Middle(['༽'], w1, d + w2 + t);
    Middle(['༽'] + w1, d, w2 + t);
    Middle(['༽'] + w1 + d, w2, t);
    assert s == ['༽'] + w1 + (d + w2 + t) == ['༽'] + w1 + d + (w2 + t);
  }

  /** `DuplicateNumberAt` at the three run boundaries of a match. */
  lemma MatchEndsAt(s: string, w1: string, d: string, w2: string, t: string)
    requires AllWs(w1) && AllWs(w2)
    requires |d| > 0 && forall i | 0 <= i < |d| :: IsTibetanDigit(d[i])
    requires |t| == 0 || (!IsWs(t[0]) && !IsTibetanDigit(t[0]))
    requires |s| == 1 + |w1| + |d| + |w2| + |t| && s[0] == '༽'
    requires s[1..1 + |w1|] == w1 && s[1 + |w1|..1 + |w1| + |d|] == d
    requires s[1 + |w1| + |d|..1 + |w1| + |d| + |w2|] == w2 && s[1 + |w1| + |d| + |w2|..] == t
    ensures DuplicateNumberAt(s) == Some(1 + |w1| + |d| + |w2|)
  {
    var a := 1 + |w1|;
    var b := a + |d|;
    var k := b + |w2|;
    assert s[a] == d[0];
    assert forall i | 1 <= i < a :: s[i] == w1[i - 1];
    WsEndIff(s, 1, a);
    assert forall i | a <= i < b :: s[i] == d[i - a];
    assert b < |s| ==> s[b] == if |w2| > 0 then w2[0] else t[0];
    DigitEndIff(s, a, b);
    assert forall i | b <= i < k :: s[i] == w2[i - b];
    assert k < |s| ==> s[k] == t[0];
    WsEndIff(s, b, k);
  }

  lemma CollapseAtMatch(s: string, k: nat)
    requires DuplicateNumberAt(s) == Some(k)
    ensures CollapseDuplicateNumbers(s) == "༽ " + CollapseDuplicateNumbers(s[k..])
  {
  }

  /** The part of `p + m + q` that `m` occupies. */
  lemma Middle(p: string, m: string, q: string)
    ensures (p + m + q)[|p|..|p| + |m|] == m
  {
  }

  /** The other half: a `༽` whose whitespace run is not followed by a
      digit is no match, so it is kept and the scan moves on by one. */
  lemma CollapseKeepsBracket(w: string, t: string)
    requires AllWs(w)
    requires |t| == 0 || (!IsWs(t[0]) && !IsTibetanDigit(t[0]))
    ensures CollapseDuplicateNumbers(['༽'] + w + t) == ['༽'] + CollapseDuplicateNumbers(w + t)
  {
    var s := ['༽'] + w + t;
    var a := 1 + |w|;
    assert s[1..a] == w && s[a..] == t && s[1..] == w + t;
    assert a < |s| ==> !IsWs(s[a]) && !IsTibetanDigit(s[a]);
    WsEndIff(s, 1, a);
    DigitEndIff(s, a, a);
    assert DuplicateNumberAt(s) == None;
  }

  /** `clean_question_text` ends with `.strip()`. */
  lemma CleanQuestionStripped(text: string)
    ensures IsStripped(CleanQuestion(text))
  {
    StripStripped(CollapseDuplicateNumbers(Strip(DropLeadingDigits(text))));
  }

  /** The `༡༽ ༡` shape the pattern was written for: the leading number is
      dropped and the repeated number after `༽` collapses into one space. */
  lemma CleanQuestionDropsDuplicate(digits: string, w1: string, d: string, w2: string, t: string)
    requires forall i | 0 <= i < |digits| :: IsTibetanDigit(digits[i])
    requires AllWs(w1) && AllWs(w2)
    requires |d| > 0 && forall i | 0 <= i < |d| :: IsTibetanDigit(d[i])
    requires IsStripped(t) && forall i | 0 <= i < |t| :: t[i] != '༽'
    requires |t| == 0 || !IsTibetanDigit(t[0])
    ensures CleanQuestion(digits + ['༽'] + w1 + d + w2 + t) == if |t| == 0 then "༽" else "༽ " + t
  {
    var rest := ['༽'] + w1 + d + w2 + t;
    assert digits + ['༽'] + w1 + d + w2 + t == digits + rest;
    DropDigitRun(digits, rest);
    var w2' := if |t| == 0 then "" else w2;
    var core := ['༽'] + w1 + d + w2' + t;
    StripBracketShape(w1, d, w2, t);
    CollapseRewrites(w1, d, w2', t);
    NoBracketUnchanged(t);
    var c := "༽ " + t;
    BracketSpaceStrip(t);
    CleanQuestionStages(digits + rest, rest, core, c, if |t| == 0 then "༽" else "༽ " + t);
  }

  lemma CleanQuestionStages(text: string, a: string, b: string, c: string, r: string)
    requires DropLeadingDigits(text) == a && Strip(a) == b
    requires CollapseDuplicateNumbers(b) == c && Strip(c) == r
    ensures CleanQuestion(text) == r
  {
  }

  /** Stripping the bracket shape removes only a whitespace tail left when
      no text follows the digits. */
  lemma StripBracketShape(w1: string, d: string, w2: string, t: string)
    requires AllWs(w2) && |d| > 0 && forall i | 0 <= i < |d| :: IsTibetanDigit(d[i])
    requires IsStripped(t) && (|t| == 0 || !IsTibetanDigit(t[0]))
    ensures Strip(['༽'] + w1 + d + w2 + t) == ['༽'] + w1 + d + (if |t| == 0 then "" else w2) + t
  {
    var rest := ['༽'] + w1 + d + w2 + t;
    if |t| == 0 {
      BracketShapeStripped(w1, d, "", t);
      assert rest == "" + (['༽'] + w1 + d) + w2;
      assert ['༽'] + w1 + d + "" + t == ['༽'] + w1 + d;
      StripExact("", ['༽'] + w1 + d, w2);
    } else {
      BracketShapeStripped(w1, d, w2, t);
      StripOfStripped(rest);
    }
  }

  lemma BracketShapeStripped(w1: string, d: string, w2: string, t: string)
    requires |d| > 0 && AllWs(w2) && IsStripped(t) && (|t| == 0 || !IsWs(t[0]))
    requires forall i | 0 <= i < |d| :: IsTibetanDigit(d[i])
    requires |t| == 0 ==> |w2| == 0
    ensures IsStripped(['༽'] + w1 + d + w2 + t)
  {
    var rest := ['༽'] + w1 + d + w2 + t;
    if |t| == 0 {
      assert rest[|rest| - 1] == d[|d| - 1];
    } else {
      assert rest[|rest| - 1] == t[|t| - 1];
    }
  }

  lemma BracketSpaceStrip(t: string)
    requires IsStripped(t)
    ensures Strip("༽ " + t) == if |t| == 0 then "༽" else "༽ " + t
  {
    if |t| == 0 {
      assert "༽ " + t == "" + "༽" + " ";
      StripExact("", "༽", " ");
    } else {
      assert ("༽ " + t)[|"༽ " + t| - 1] == t[|t| - 1];
      StripOfStripped("༽ " + t);
    }
  }

  /** One answer line with one leading `ལན། ` removed. */
  function CleanAnswerLine(line: string): string
  {
    if StartsWith(line, AnswerPrefix) then line[|AnswerPrefix|..] else line
  }

  /** A line that starts with `ལན། ` loses exactly that prefix; any other
      line is kept. */
  lemma CleanAnswerLineDropsPrefix(line: string)
    ensures StartsWith(line, AnswerPrefix) ==> AnswerPrefix + CleanAnswerLine(line) == line
    ensures !StartsWith(line, AnswerPrefix) ==> CleanAnswerLine(line) == line
  {
    if StartsWith(line, AnswerPrefix) {
      assert line == line[..|AnswerPrefix|] + line[|AnswerPrefix|..];
    }
  }

  function CleanAnswerLines(lines: seq<string>): (r: seq<string>)
    ensures |r| == |lines|
    ensures forall i | 0 <= i < |lines| :: r[i] == CleanAnswerLine(lines[i])
  {
    seq(|lines|, i requires 0 <= i < |lines| => CleanAnswerLine(lines[i]))
  }

  /** The loop's variables: `current_question` ("" for None, which is
      equally falsy), `current_answer`, `question_counter`, and the pairs
      closed so far. A closed pair is kept as the record it is formatted
      from; `Out` formats it exactly as `_process_current_qa` does. */
  datatype State = State(question: string, answer: seq<string>, counter: nat, closed: seq<Entry>)

  const Init: State := State("", [], 1, [])

  /** `_process_current_qa` followed by `question_counter += 1`, done only
      when a question is open. */
  function Flush(st: State): State
  {
    if st.question == "" then st
    else st.(closed := st.closed + [Entry(st.counter, st.question, st.answer)],
             counter := st.counter + 1)
  }

  /** The loop body for one non-blank line. */
  function Feed(st: State, line: string): State
  {
    if IsQuestionLine(line) then Flush(st).(question := line, answer := [])
    else st.(answer := st.answer + [line])
  }

  /** `numbered_question` */
  function QuestionText(e: Entry): string
  {
    Header(e.number) + CleanQuestion(e.head)
  }

  /** `numbered_answer` */
  function AnswerText(e: Entry): string
  {
    Header(e.number) + Join("\n", CleanAnswerLines(e.body))
  }

  function Format(es: seq<Entry>): (out: Output)
    ensures |out.questions| == |es| == |out.answers|
  {
    Output(seq(|es|, k requires 0 <= k < |es| => QuestionText(es[k])),
           seq(|es|, k requires 0 <= k < |es| => AnswerText(es[k])))
  }

  /** `parse_docx` on the paragraph texts of a document. */
  function Parse(ps: seq<string>): Output
  {
    Format(Flush(Fold(Feed, Init, ps)).closed)
  }

  // ---------------------------------------------------------------------
  // Reference: cut the lines at the question lines; the groups, numbered
  // from 1, are the pairs.

  /** What the loop keeps from `st` on `lines`: the open record absorbs the
      lines before the next question line, then every group is closed in
      turn, numbered on from the counter. */
  predicate LoopAgrees(st: State, lines: seq<string>)
  {
    var seg := Split(lines, IsQuestionLine);
    var f := Flush(st.(answer := st.answer + seg.preamble));
    Flush(FoldLines(Feed, st, lines)).closed == f.closed + NumberFrom(f.counter, seg.groups)
  }

  lemma {:induction false} FeedMatchesGroups(st: State, lines: seq<string>)
    ensures LoopAgrees(st, lines)
    decreases |lines|
  {
    if |lines| == 0 {
      assert st.(answer := st.answer + []) == st;
      assert Flush(st).closed + [] == Flush(st).closed;
    } else {
      var line, tail := lines[0], lines[1..];
      assert lines == [line] + tail;
      FeedMatchesGroups(Feed(st, line), tail);
      if IsQuestionLine(line) {
        FeedQuestionLine(st, line, tail);
      } else {
        FeedOtherLine(st, line, tail);
      }
    }
  }

  lemma FeedQuestionLine(st: State, line: string, tail: seq<string>)
    requires IsQuestionLine(line)
    requires LoopAgrees(Feed(st, line), tail)
    ensures LoopAgrees(st, [line] + tail)
  {
    var rest := Split(tail, IsQuestionLine);
    assert Split([line] + tail, IsQuestionLine) == Segmentation([], [Group(line, rest.preamble)] + rest.groups) by {
      SplitCons(line, tail, IsQuestionLine);
    }
    assert FoldLines(Feed, st, [line] + tail) == FoldLines(Feed, Feed(st, line), tail) by {
      assert ([line] + tail)[1..] == tail;
    }
    QuestionCloses(st, line, rest.preamble, rest.groups);
  }

  /** A question line closes the open record and opens the next one, whose
      lines are `pre`. */
  lemma QuestionCloses(st: State, line: string, pre: seq<string>, gs: seq<Group>)
    requires IsQuestionLine(line)
    ensures var st1 := Feed(st, line);
            var f1 := Flush(st1.(answer := st1.answer + pre));
            var s0 := Flush(st.(answer := st.answer + []));
            f1.closed + NumberFrom(f1.counter, gs) == s0.closed + NumberFrom(s0.counter, [Group(line, pre)] + gs)
  {
    var s0 := Flush(st);
    assert st.(answer := st.answer + []) == st;
    var st1 := Feed(st, line);
    assert st1.(answer := st1.answer + pre) == s0.(question := line, answer := pre);
    var e := Entry(s0.counter, line, pre);
    var f1 := Flush(s0.(question := line, answer := pre));
    assert f1.closed == s0.closed + [e] && f1.counter == s0.counter + 1;
    NumberFromCons(s0.counter, Group(line, pre), gs);
    AppendAssoc(s0.closed, [e], NumberFrom(s0.counter + 1, gs));
  }

  lemma FeedOtherLine(st: State, line: string, tail: seq<string>)
    requires !IsQuestionLine(line)
    requires LoopAgrees(Feed(st, line), tail)
    ensures LoopAgrees(st, [line] + tail)
  {
    var rest := Split(tail, IsQuestionLine);
    assert Split([line] + tail, IsQuestionLine) == Segmentation([line] + rest.preamble, rest.groups) by {
      SplitCons(line, tail, IsQuestionLine);
    }
    assert FoldLines(Feed, st, [line] + tail) == FoldLines(Feed, Feed(st, line), tail) by {
      assert ([line] + tail)[1..] == tail;
    }
    OtherLineJoins(st, line, rest.preamble);
  }

  /** Any other line joins the open record's answer. */
  lemma OtherLineJoins(st: State, line: string, pre: seq<string>)
    requires !IsQuestionLine(line)
    ensures var st1 := Feed(st, line);
            st1.(answer := st1.answer + pre) == st.(answer := st.answer + ([line] + pre))
  {
    assert st.answer + [line] + pre == st.answer + ([line] + pre);
  }

  /** The loop closes exactly the groups of the question-line segmentation,
      numbered from 1: the lines before the first question line are dropped. */
  lemma ClosedAreGroups(ps: seq<string>)
    ensures Flush(Fold(Feed, Init, ps)).closed == NumberFrom(1, Split(Lines(ps), IsQuestionLine).groups)
  {
    var lines := Lines(ps);
    FoldIsFoldLines(Feed, Init, ps);
    FeedMatchesGroups(Init, lines);
    var seg := Split(lines, IsQuestionLine);
    var f := Flush(Init.(answer := Init.answer + seg.preamble));
    assert f.closed == [] && f.counter == 1;
    assert Flush(FoldLines(Feed, Init, lines)).closed == f.closed + NumberFrom(f.counter, seg.groups);
    assert [] + NumberFrom(1, seg.groups) == NumberFrom(1, seg.groups);
  }

  /** `out` holds one pair per group of `gs`, the k-th numbered `k + 1`, its
      question the cleaned head line and its answer the body lines, each
      with one `ལན། ` removed, joined by newlines. */
  predicate PairsOf(out: Output, gs: seq<Group>)
  {
    && |out.questions| == |gs| == |out.answers|
    && (forall k | 0 <= k < |gs| :: out.questions[k] == Header(k + 1) + CleanQuestion(gs[k].head))
    && (forall k | 0 <= k < |gs| :: out.answers[k] == Header(k + 1) + Join("\n", CleanAnswerLines(gs[k].body)))
  }

  /** As many pairs as question lines, the k-th pair made from the k-th
      question line and the lines after it up to the next question line. */
  lemma ParseContents(ps: seq<string>)
    ensures PairsOf(Parse(ps), Split(Lines(ps), IsQuestionLine).groups)
    ensures |Parse(ps).questions| == Count(Lines(ps), IsQuestionLine)
  {
    var gs := Split(Lines(ps), IsQuestionLine).groups;
    var es := NumberFrom(1, gs);
    ClosedAreGroups(ps);
    assert Parse(ps) == Format(es);
    SplitCount(Lines(ps), IsQuestionLine);
    FormatNumbered(gs);
  }

  lemma FormatNumbered(gs: seq<Group>)
    ensures PairsOf(Format(NumberFrom(1, gs)), gs)
  {
    NumberFromShape(1, gs);
    forall k | 0 <= k < |gs|
      ensures Format(NumberFrom(1, gs)).questions[k] == Header(k + 1) + CleanQuestion(gs[k].head)
      ensures Format(NumberFrom(1, gs)).answers[k] == Header(k + 1) + Join("\n", CleanAnswerLines(gs[k].body))
    {
      FormatNumberedAt(gs, k);
    }
  }

  lemma FormatNumberedAt(gs: seq<Group>, k: nat)
    requires k < |gs|
    ensures k < |Format(NumberFrom(1, gs)).questions| && k < |Format(NumberFrom(1, gs)).answers|
    ensures Format(NumberFrom(1, gs)).questions[k] == Header(k + 1) + CleanQuestion(gs[k].head)
    ensures Format(NumberFrom(1, gs)).answers[k] == Header(k + 1) + Join("\n", CleanAnswerLines(gs[k].body))
  {
    var es := NumberFrom(1, gs);
    NumberFromShape(1, gs);
    assert es[k] == Entry(1 + k, gs[k].head, gs[k].body);
    FormatAt(es, k);
  }

  lemma FormatAt(es: seq<Entry>, k: nat)
    requires k < |es|
    ensures Format(es).questions[k] == Header(es[k].number) + CleanQuestion(es[k].head)
    ensures Format(es).answers[k] == Header(es[k].number) + Join("\n", CleanAnswerLines(es[k].body))
  {
  }

  /** Lines before the first question line are thrown away: a preamble with
      no question line in it changes nothing. */
  lemma PreambleDiscarded(pre: seq<string>, ps: seq<string>)
    requires forall j | 0 <= j < |pre| :: !IsQuestionLine(Strip(pre[j]))
    ensures Parse(pre + ps) == Parse(ps)
  {
    LinesKeep(pre, l => !IsQuestionLine(l));
    LinesAppend(pre, ps);
    SplitAfterHeadless(Lines(pre), Lines(ps), IsQuestionLine);
    ClosedAreGroups(pre + ps);
    ClosedAreGroups(ps);
  }

  /** Whitespace-only paragraphs never influence the result. */
  lemma BlankParagraphsIgnored(ps: seq<string>, i: nat, blank: string)
    requires i <= |ps| && AllWs(blank)
    ensures Parse(ps[..i] + [blank] + ps[i..]) == Parse(ps)
  {
    BlankParagraphIgnored(ps, i, blank);
    ClosedAreGroups(ps[..i] + [blank] + ps[i..]);
    ClosedAreGroups(ps);
  }
}
