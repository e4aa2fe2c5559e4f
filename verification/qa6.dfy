/**
  src/TibQA/qa_6.py: a question is any line holding a bracketed Tibetan
  number `༼ ༡ ༽`. The bracket is cut out of the line and the rest, behind a
  running Tibetan index, is the question; while the question ends with a
  tsheg `་` the next lines continue it, and every other line up to the next
  bracket belongs to the answer. Lines before the first bracket are not
  dropped: they are carried into the first answer.
 */
module BracketNumeral {
  import opened Wrappers
  import opened Text
  import opened Numeral
  import opened Segments

  const OpenMark: char := '༼'
  const CloseMark: char := '༽'
  const Tsheg: char := '་'

  // ---------------------------------------------------------------------
  // The question pattern `༼\s*([༠-༩]+)\s*༽`.

  /** The end of the match of the question pattern that starts at `i`, if
      one does. Whitespace, digits and the two brackets share no character,
      so the regex never has a choice to make: each `\s*` and the digit run
      take all they can, and at most one match starts at each index. */
  function MarkerAt(s: string, i: nat): (r: Option<nat>)
    requires i <= |s|
    ensures r.Some? ==> i < r.value <= |s|
  {
    if i == |s| || s[i] != OpenMark then None
    else
      var a := WsEnd(s, i + 1);
      var b := DigitEnd(s, a);
      var c := WsEnd(s, b);
      if a < b && c < |s| && s[c] == CloseMark then Some(c + 1) else None
  }

  /** What `MarkerAt` accepts is the pattern: the open bracket, whitespace,
      at least one digit, whitespace, the close bracket. */
  lemma MarkerAtShape(s: string, i: nat) returns (a: nat, b: nat, c: nat)
    requires i <= |s| && MarkerAt(s, i).Some?
    ensures s[i] == OpenMark && i < a < b <= c && MarkerAt(s, i) == Some(c + 1)
    ensures s[c] == CloseMark
    ensures forall k | i < k < a :: IsWs(s[k])
    ensures forall k | a <= k < b :: IsTibetanDigit(s[k])
    ensures forall k | b <= k < c :: IsWs(s[k])
  {
    a := WsEnd(s, i + 1);
    b := DigitEnd(s, a);
    c := WsEnd(s, b);
    WsEndIff(s, i + 1, a);
    DigitEndIff(s, a, b);
    WsEndIff(s, b, c);
  }

  /** ...and everything of that form is accepted, up to its close bracket. */
  lemma MarkerAtMatches(pre: string, w1: string, d: string, w2: string, post: string)
    requires AllWs(w1) && AllWs(w2) && |d| > 0
    requires forall k | 0 <= k < |d| :: IsTibetanDigit(d[k])
    ensures var s := pre + [OpenMark] + w1 + d + w2 + [CloseMark] + post;
            MarkerAt(s, |pre|) == Some(|pre| + |w1| + |d| + |w2| + 2)
  {
    var s := pre + [OpenMark] + w1 + d + w2 + [CloseMark] + post;
    var i := |pre|;
    var a := i + 1 + |w1|;
    var b := a + |d|;
    var c := b + |w2|;
    assert s[i] == OpenMark;
    assert s[c] == CloseMark;
    forall k | i + 1 <= k < a
      ensures IsWs(s[k])
    {
      assert s[k] == w1[k - i - 1];
    }
    assert s[a] == d[0];
    WsEndIff(s, i + 1, a);
    forall k | a <= k < b
      ensures IsTibetanDigit(s[k])
    {
      assert s[k] == d[k - a];
    }
    assert b == c || s[b] == w2[0];
    DigitEndIff(s, a, b);
    forall k | b <= k < c
      ensures IsWs(s[k])
    {
      assert s[k] == w2[k - b];
    }
    WsEndIff(s, b, c);
  }

  /** `question_pattern.search(s[from..])`: the leftmost match, as its start
      and end. */
  function FindMarker(s: string, from: nat): (r: Option<(nat, nat)>)
    requires from <= |s|
    ensures r.Some? ==> from <= r.value.0 < r.value.1 <= |s|
    decreases |s| - from
  {
    if from == |s| then None
    else match MarkerAt(s, from)
      case Some(e) => Some((from, e))
      case None => FindMarker(s, from + 1)
  }

  /** The search reports a match, and no match starts earlier. */
  lemma {:induction false} FindMarkerFound(s: string, from: nat)
    requires from <= |s| && FindMarker(s, from).Some?
    ensures var (i, e) := FindMarker(s, from).value;
            && MarkerAt(s, i) == Some(e)
            && forall j | from <= j < i :: MarkerAt(s, j).None?
    decreases |s| - from
  {
    if MarkerAt(s, from).None? {
      FindMarkerFound(s, from + 1);
    }
  }

  /** When the search reports nothing, no match starts anywhere. */
  lemma {:induction false} FindMarkerNone(s: string, from: nat)
    requires from <= |s| && FindMarker(s, from).None?
    ensures forall j | from <= j <= |s| :: MarkerAt(s, j).None?
    decreases |s| - from
  {
    if from < |s| {
      FindMarkerNone(s, from + 1);
    }
  }

  /** `question_pattern.search(line)` succeeds. */
  predicate HasMarker(line: string)
  {
    FindMarker(line, 0).Some?
  }

  lemma HasMarkerIff(line: string)
    ensures HasMarker(line) <==> exists j | 0 <= j <= |line| :: MarkerAt(line, j).Some?
  {
    if HasMarker(line) {
      FindMarkerFound(line, 0);
    } else {
      FindMarkerNone(line, 0);
    }
  }

  /** `line.replace(match.group(0), "").strip()`: every copy of the matched
      text is removed, not only the match itself. Used on lines with a
      match only. */
  function OpenText(line: string): string
  {
    match FindMarker(line, 0)
    case Some((i, e)) => Strip(RemoveAll(line, line[i..e]))
    case None => line
  }

  /** A line that begins with its number leaves the text after it. */
  lemma OpenTextOfNumberedLine(d: string, t: string)
    requires |d| > 0 && forall k | 0 <= k < |d| :: IsTibetanDigit(d[k])
    requires IsStripped(t) && forall k | 0 <= k < |t| :: t[k] != OpenMark
    ensures var line := [OpenMark] + d + [CloseMark] + " " + t;
            HasMarker(line) && OpenText(line) == t
  {
    var line := [OpenMark] + d + [CloseMark] + " " + t;
    var m := [OpenMark] + d + [CloseMark];
    MarkerAtMatches("", "", d, "", " " + t);
    assert "" + [OpenMark] + "" + d + "" + [CloseMark] + (" " + t) == line;
    assert FindMarker(line, 0) == Some((0, |m|));
    assert line[0..|m|] == m;
    var rest := " " + t;
    assert line[|m|..] == rest;
    assert !Contains(rest, m) by {
      forall j | 0 <= j <= |rest|
        ensures !OccursAt(rest, m, j)
      {
        if j + |m| <= |rest| {
          assert rest[j..j + |m|][0] == rest[j] != OpenMark;
        }
      }
    }
    RemoveAllAbsent(rest, m);
    assert RemoveAll(line, m) == rest;
    StripExact(" ", t, "");
    assert " " + t + "" == rest;
  }

  // ---------------------------------------------------------------------
  // Continuation lines.

  /** `tseg_pattern.search(s)` for `་$`: the tsheg ends the text, or stands
      just before a final newline. */
  predicate EndsWithTsheg(s: string)
  {
    (|s| >= 1 && s[|s| - 1] == Tsheg) || (|s| >= 2 && s[|s| - 2] == Tsheg && s[|s| - 1] == '\n')
  }

  /** The index written in front of the question never makes it continue:
      only the question text decides. */
  lemma TshegSeesText(n: nat, t: string)
    ensures EndsWithTsheg(Header(n) + t) <==> EndsWithTsheg(t)
  {
    var h := Header(n);
    assert h[|h| - 1] == ' ';
    var s := h + t;
    if |t| == 0 {
      assert s == h;
    } else if |t| == 1 {
      assert s[|s| - 1] == t[0] && s[|s| - 2] == ' ';
    } else {
      assert s[|s| - 1] == t[|t| - 1] && s[|s| - 2] == t[|t| - 2];
    }
  }

  /** A question with the lines it absorbed, and the lines left for the
      answer. */
  datatype Opened = Opened(question: string, rest: seq<string>)

  /** The `elif` branch run to its end: lines are appended, after a space,
      while the question ends with a tsheg. */
  function Continue(question: string, lines: seq<string>): (o: Opened)
    ensures |o.question| >= |question|
    decreases |lines|
  {
    if |lines| > 0 && EndsWithTsheg(question) then Continue(question + " " + lines[0], lines[1..])
    else Opened(question, lines)
  }

  /** `Continue` takes a prefix of the lines into the question, joined by
      spaces; every prefix it took left a question ending with a tsheg,
      and the first line it refused met one that did not. */
  lemma {:induction false} ContinueShape(q: string, lines: seq<string>) returns (n: nat)
    ensures var o := Continue(q, lines);
            && n <= |lines| && o.rest == lines[n..]
            && o.question == Join(" ", [q] + lines[..n])
            && (n < |lines| ==> !EndsWithTsheg(o.question))
            && (forall j | 0 <= j < n :: EndsWithTsheg(Join(" ", [q] + lines[..j])))
    decreases |lines|
  {
    if |lines| > 0 && EndsWithTsheg(q) {
      var tail := lines[1..];
      var m := ContinueShape(q + " " + lines[0], tail);
      n := m + 1;
      forall j | 0 <= j <= m
        ensures Join(" ", [q + " " + lines[0]] + tail[..j]) == Join(" ", [q] + lines[..j + 1])
      {
        JoinMergeFirst(" ", q, lines[0], tail[..j]);
        assert [q, lines[0]] + tail[..j] == [q] + lines[..j + 1];
      }
      assert tail[m..] == lines[n..];
      forall j | 0 <= j < n
        ensures EndsWithTsheg(Join(" ", [q] + lines[..j]))
      {
        if j == 0 {
          assert [q] + lines[..0] == [q];
        } else {
          assert EndsWithTsheg(Join(" ", [q + " " + lines[0]] + tail[..j - 1]));
        }
      }
    } else {
      n := 0;
      assert [q] + lines[..0] == [q];
    }
  }

  // ---------------------------------------------------------------------
  // The reference.

  /** The groups' records, numbered from `c`. The question is the header and
      the opening text with its continuation lines; the answer is the rest
      of the group, after the lines `carry` brings from before the first
      bracket. */
  function Pairs(open: (nat, Group) -> Opened, c: nat, carry: seq<string>, gs: seq<Group>): (es: seq<Entry>)
    ensures |es| == |gs|
    decreases |gs|
  {
    if |gs| == 0 then []
    else
      var o := open(c, gs[0]);
      [Entry(c, o.question, carry + o.rest)] + Pairs(open, c + 1, [], gs[1..])
  }

  /** The question a group opens with index `c`, and its answer lines. */
  function Opening(c: nat, g: Group): Opened
  {
    Continue(Header(c) + OpenText(g.head), g.body)
  }

  /** The k-th record is the k-th group's, indexed `c + k`; only the first
      answer carries lines from before the groups. */
  lemma {:induction false} PairsContents(open: (nat, Group) -> Opened, c: nat, carry: seq<string>, gs: seq<Group>)
    ensures forall k | 0 <= k < |gs| ::
              Pairs(open, c, carry, gs)[k]
              == Entry(c + k, open(c + k, gs[k]).question, (if k == 0 then carry else []) + open(c + k, gs[k]).rest)
    decreases |gs|
  {
    if |gs| > 0 {
      var es := Pairs(open, c, carry, gs);
      PairsContents(open, c + 1, [], gs[1..]);
      forall k | 1 <= k < |gs|
        ensures es[k] == Entry(c + k, open(c + k, gs[k]).question, open(c + k, gs[k]).rest)
      {
        assert es[k] == Pairs(open, c + 1, [], gs[1..])[k - 1];
        assert gs[1..][k - 1] == gs[k];
      }
    }
  }

  /** The records are indexed consecutively from `c`. */
  lemma PairsNumbered(open: (nat, Group) -> Opened, c: nat, carry: seq<string>, gs: seq<Group>)
    ensures forall k | 0 <= k < |gs| :: Pairs(open, c, carry, gs)[k].number == c + k
  {
    PairsContents(open, c, carry, gs);
  }

  /** Cut the lines at the brackets; the lines before the first one open the
      first answer. */
  function Expected(lines: seq<string>): seq<Entry>
  {
    var seg := Split(lines, HasMarker);
    Pairs(Opening, 1, seg.preamble, seg.groups)
  }

  // ---------------------------------------------------------------------
  // The loop.

  /** `current_question` (with its index), `current_answer`,
      `question_counter` and the records written so far. */
  datatype State = State(question: string, answer: seq<string>, counter: nat, closed: seq<Entry>)

  const Init: State := State("", [], 1, [])

  /** Saving a pair: done only when a question is open. */
  function Flush(st: State): State
  {
    if |st.question| > 0 then State("", [], st.counter + 1, st.closed + [Entry(st.counter, st.question, st.answer)])
    else st
  }

  /** One pass of the loop body on a stripped, non-empty line. A bracket
      with no question open leaves `current_answer` as it is. */
  function Feed(st: State, line: string): State
  {
    if HasMarker(line) then
      var s := Flush(st);
      s.(question := Header(s.counter) + OpenText(line))
    else if |st.question| > 0 && EndsWithTsheg(st.question) then
      st.(question := st.question + " " + line)
    else
      st.(answer := st.answer + [line])
  }

  function QuestionText(e: Entry): string
  {
    Strip(e.head)
  }

  function AnswerText(e: Entry): string
  {
    Header(e.number) + Strip(Join("\n", e.body))
  }

  function Format(es: seq<Entry>): (out: Output)
    ensures |out.questions| == |es| == |out.answers|
  {
    Output(seq(|es|, k requires 0 <= k < |es| => QuestionText(es[k])),
           seq(|es|, k requires 0 <= k < |es| => AnswerText(es[k])))
  }

  /** `process_docx` on the paragraph texts of a document. */
  function Parse(ps: seq<string>): Output
  {
    Format(Flush(Fold(Feed, Init, ps)).closed)
  }

  // ---------------------------------------------------------------------
  // The loop computes the reference.

  /** Where the loop puts the lines before the next bracket: into the open
      question while it ends with a tsheg, then into the answer. */
  function Absorb(st: State, pre: seq<string>): State
  {
    if |st.question| > 0 then
      var o := Continue(st.question, pre);
      st.(question := o.question, answer := st.answer + o.rest)
    else st.(answer := st.answer + pre)
  }

  predicate LoopAgrees(st: State, lines: seq<string>)
  {
    var seg := Split(lines, HasMarker);
    var f := Flush(Absorb(st, seg.preamble));
    Flush(FoldLines(Feed, st, lines)).closed == f.closed + Pairs(Opening, f.counter, f.answer, seg.groups)
  }

  lemma {:induction false} FeedMatchesPairs(st: State, lines: seq<string>)
    ensures LoopAgrees(st, lines)
    decreases |lines|
  {
    if |lines| == 0 {
      assert st.answer + [] == st.answer;
      assert Absorb(st, []) == st;
      assert Flush(st).closed + [] == Flush(st).closed;
    } else {
      var line, tail := lines[0], lines[1..];
      assert lines == [line] + tail;
      FeedMatchesPairs(Feed(st, line), tail);
      if HasMarker(line) {
        FeedMarker(st, line, tail);
      } else {
        FeedOtherLine(st, line, tail);
      }
    }
  }

  lemma FeedMarker(st: State, line: string, tail: seq<string>)
    requires HasMarker(line)
    requires LoopAgrees(Feed(st, line), tail)
    ensures LoopAgrees(st, [line] + tail)
  {
    var rest := Split(tail, HasMarker);
    assert Split([line] + tail, HasMarker) == Segmentation([], [Group(line, rest.preamble)] + rest.groups) by {
      SplitCons(line, tail, HasMarker);
    }
    assert FoldLines(Feed, st, [line] + tail) == FoldLines(Feed, Feed(st, line), tail) by {
      assert ([line] + tail)[1..] == tail;
    }
    assert st.answer + [] == st.answer;
    assert Absorb(st, []) == st;
    MarkerCloses(Flush(st), line, rest.preamble, rest.groups);
  }

  /** After a bracket the question is the new one; the group it heads becomes
      the next record, taking over the answer lines already collected. */
  lemma MarkerCloses(s0: State, line: string, pre: seq<string>, gs: seq<Group>)
    requires |s0.question| == 0
    ensures var f1 := Flush(Absorb(s0.(question := Header(s0.counter) + OpenText(line)), pre));
            f1.closed + Pairs(Opening, f1.counter, f1.answer, gs) == s0.closed + Pairs(Opening, s0.counter, s0.answer, [Group(line, pre)] + gs)
  {
    var o := Opening(s0.counter, Group(line, pre));
    var e := Entry(s0.counter, o.question, s0.answer + o.rest);
    var f1 := Flush(Absorb(s0.(question := Header(s0.counter) + OpenText(line)), pre));
    assert f1.closed == s0.closed + [e] && f1.counter == s0.counter + 1 && f1.answer == [];
    assert ([Group(line, pre)] + gs)[0] == Group(line, pre) && ([Group(line, pre)] + gs)[1..] == gs;
    AppendAssoc(s0.closed, [e], Pairs(Opening, s0.counter + 1, [], gs));
  }

  lemma FeedOtherLine(st: State, line: string, tail: seq<string>)
    requires !HasMarker(line)
    requires LoopAgrees(Feed(st, line), tail)
    ensures LoopAgrees(st, [line] + tail)
  {
    var rest := Split(tail, HasMarker);
    assert Split([line] + tail, HasMarker) == Segmentation([line] + rest.preamble, rest.groups) by {
      SplitCons(line, tail, HasMarker);
    }
    assert FoldLines(Feed, st, [line] + tail) == FoldLines(Feed, Feed(st, line), tail) by {
      assert ([line] + tail)[1..] == tail;
    }
    OtherLineFiled(st, line, rest.preamble);
  }

  /** Any other line is filed where `Absorb` files it. */
  lemma OtherLineFiled(st: State, line: string, pre: seq<string>)
    requires !HasMarker(line)
    ensures Absorb(Feed(st, line), pre) == Absorb(st, [line] + pre)
  {
    assert ([line] + pre)[0] == line && ([line] + pre)[1..] == pre;
    if |st.question| > 0 && EndsWithTsheg(st.question) {
    } else {
      AppendAssoc(st.answer, [line], pre);
    }
  }

  /** The loop writes exactly the reference's records. */
  lemma ClosedArePairs(ps: seq<string>)
    ensures Flush(Fold(Feed, Init, ps)).closed == Expected(Lines(ps))
  {
    var lines := Lines(ps);
    FoldIsFoldLines(Feed, Init, ps);
    FeedMatchesPairs(Init, lines);
    var seg := Split(lines, HasMarker);
    var es := Pairs(Opening, 1, seg.preamble, seg.groups);
    assert Flush(Absorb(Init, seg.preamble)) == State("", seg.preamble, 1, []) by {
      assert [] + seg.preamble == seg.preamble;
    }
    assert [] + es == es;
  }

  /** One pair per line with a bracket: the k-th comes from the k-th record
      of the reference, behind the index `k + 1`. */
  lemma ParseContents(ps: seq<string>)
    ensures var out := Parse(ps);
            var es := Expected(Lines(ps));
            && |out.questions| == |es| == |out.answers|
            && |es| == Count(Lines(ps), HasMarker)
            && (forall k | 0 <= k < |es| :: es[k].number == k + 1)
            && (forall k | 0 <= k < |es| :: out.questions[k] == Strip(es[k].head))
            && (forall k | 0 <= k < |es| :: out.answers[k] == Header(k + 1) + Strip(Join("\n", es[k].body)))
  {
    var lines := Lines(ps);
    var seg := Split(lines, HasMarker);
    ClosedArePairs(ps);
    SplitCount(lines, HasMarker);
    var es := Expected(lines);
    PairsNumbered(Opening, 1, seg.preamble, seg.groups);
    assert Parse(ps) == Format(es);
    forall k | 0 <= k < |es|
      ensures Format(es).questions[k] == Strip(es[k].head)
      ensures Format(es).answers[k] == Header(k + 1) + Strip(Join("\n", es[k].body))
    {
      FormatAt(es, k);
    }
  }

  lemma FormatAt(es: seq<Entry>, k: nat)
    requires k < |es|
    ensures Format(es).questions[k] == Strip(es[k].head)
    ensures Format(es).answers[k] == Header(es[k].number) + Strip(Join("\n", es[k].body))
  {
  }

  /** A bracket alone on its line never absorbs the next line: the index
      ends with a space, not a tsheg. */
  lemma BareMarkerStaysAlone(n: nat, lines: seq<string>)
    ensures Continue(Header(n) + "", lines) == Opened(Header(n), lines)
  {
    assert Header(n) + "" == Header(n);
    TshegSeesText(n, "");
  }

  /** ...and its question is the index alone, its trailing space stripped. */
  lemma BareMarkerQuestion(n: nat)
    ensures Strip(Header(n)) == Bracketed(n)
  {
    var b := Bracketed(n);
    assert IsStripped(b) by {
      TibetanShape(n);
      assert b[|b| - 1] == CloseMark;
      if |Tibetan(n)| > 0 {
        assert b[0] == Tibetan(n)[0];
      }
    }
    assert "" + b + " " == Header(n);
    StripExact("", b, " ");
  }

  /** Whitespace-only paragraphs never influence the result. */
  lemma BlankParagraphsIgnored(ps: seq<string>, i: nat, blank: string)
    requires i <= |ps| && AllWs(blank)
    ensures Parse(ps[..i] + [blank] + ps[i..]) == Parse(ps)
  {
    BlankParagraphIgnored(ps, i, blank);
    ClosedArePairs(ps[..i] + [blank] + ps[i..]);
    ClosedArePairs(ps);
  }
}
