/**
  `qa.py`: the non-blank paragraphs are joined into one text, and the regular
  expression

      དྲི་བ།\s*(.*?)\s*ལན།\s*(.*?)(?=དྲི་བ།|$)        (with re.DOTALL)

  is applied with `re.findall`; every match gives a question (group 1) and an
  answer (group 2), which are cleaned and renumbered from 1.

  The regex is modelled by hand, following Python's backtracking order:
  - a match can only start at an occurrence of `དྲི་བ།`, and `findall` takes
    the leftmost one from where the previous match ended;
  - the greedy `\s*` after it takes the whole whitespace run; the lazy group 1
    then grows one character at a time until `\s*ལན།` can follow. `ལན།`
    starts with a letter, so this first succeeds at the first `ལན།` after the
    marker, and group 1 is the text in between without its surrounding
    whitespace; when no `ལན།` follows, shorter whitespace runs fail the same
    way and so does every later marker: the search is over;
  - the greedy `\s*` after `ལན།` again takes the whole run, and the lazy group
    2 stops at the first place where `དྲི་བ།` follows or `$` holds (`$`
    without MULTILINE: at the very end, or just before a final newline).
    Since it can always reach the end, this never fails.
  The matcher is written for any two marks of that shape and used with the two
  marks of the script.
 */
module RegexPairs {
  import opened Wrappers
  import opened Text
  import opened Numeral
  import opened Segments

  /** "question": opens every question. */
  const QuestionMark: string := "དྲི་བ།"
  /** "answer": opens every answer. */
  const AnswerMark: string := "ལན།"

  /** The two literal parts of the pattern: the mark that opens a match and
      the mark between its two groups. */
  datatype Marks = Marks(open: string, mid: string)

  const QaMarks: Marks := Marks(QuestionMark, AnswerMark)

  /** Marks of the shape the matcher is written for: non-empty, each starting
      with a letter, no newline in either and no space in the middle mark. */
  predicate GoodMarks(m: Marks) {
    && |m.open| > 0 && |m.mid| > 0
    && !IsWs(m.open[0]) && !IsWs(m.mid[0])
    && (forall i | 0 <= i < |m.open| :: m.open[i] != '\n')
    && (forall i | 0 <= i < |m.mid| :: m.mid[i] != '\n' && m.mid[i] != ' ')
  }

  lemma QaMarksGood()
    ensures GoodMarks(QaMarks)
  {
  }

  // ---------------------------------------------------------------------
  // Searching.

  /** The first index at or after `i` where `p` occurs. */
  function Find(s: string, p: string, i: nat): (r: Option<nat>)
    requires |p| > 0
    ensures r.Some? ==> i <= r.value && r.value + |p| <= |s|
    decreases |s| - i
  {
    if i + |p| > |s| then None
    else if SameFrom(s, p, i, 0) then Some(i)
    else Find(s, p, i + 1)
  }

  /** `p` agrees with `s` at `i` from its index `k` on, compared character by
      character. */
  predicate SameFrom(s: string, p: string, i: nat, k: nat)
    requires i + |p| <= |s| && k <= |p|
    decreases |p| - k
  {
    k == |p| || (s[i + k] == p[k] && SameFrom(s, p, i, k + 1))
  }

  lemma {:induction false} SameFromIff(s: string, p: string, i: nat, k: nat)
    requires i + |p| <= |s| && k <= |p|
    ensures SameFrom(s, p, i, k) <==> forall j | k <= j < |p| :: s[i + j] == p[j]
    decreases |p| - k
  {
    if k < |p| {
      SameFromIff(s, p, i, k + 1);
    }
  }

  /** The character test `Find` makes is `OccursAt`. */
  lemma SameFromOccurs(s: string, p: string, i: nat)
    requires i + |p| <= |s|
    ensures SameFrom(s, p, i, 0) <==> OccursAt(s, p, i)
  {
    SameFromIff(s, p, i, 0);
    if forall j | 0 <= j < |p| :: s[i + j] == p[j] {
      assert s[i..i + |p|] == p;
    }
  }

  /** `Find` answers `j` exactly when `p` occurs at `j` and nowhere between
      `i` and `j`. */
  lemma {:induction false} FindIff(s: string, p: string, i: nat, j: nat)
    requires |p| > 0 && i <= j
    ensures Find(s, p, i) == Some(j) <==> OccursAt(s, p, j) && forall k | i <= k < j :: !OccursAt(s, p, k)
    decreases |s| - i
  {
    if i + |p| <= |s| {
      SameFromOccurs(s, p, i);
      if !OccursAt(s, p, i) && i < j {
        FindIff(s, p, i + 1, j);
      }
    }
  }

  /** `Find` answers None exactly when `p` does not occur from `i` on. */
  lemma {:induction false} FindNone(s: string, p: string, i: nat)
    requires |p| > 0
    ensures Find(s, p, i) == None <==> forall k | i <= k :: !OccursAt(s, p, k)
    decreases |s| - i
  {
    if i + |p| <= |s| {
      SameFromOccurs(s, p, i);
      if !OccursAt(s, p, i) {
        FindNone(s, p, i + 1);
      }
    }
  }

  /** `s.count(p)` from index `i` on: the non-overlapping occurrences, found
      left to right. */
  function Occurrences(s: string, p: string, i: nat): nat
    requires |p| > 0
    decreases |s| - i
  {
    match Find(s, p, i)
    case None => 0
    case Some(j) => 1 + Occurrences(s, p, j + |p|)
  }

  /** Each occurrence found counts once, and none are found past the last. */
  lemma OccurrencesStep(s: string, p: string, i: nat, j: nat)
    requires |p| > 0
    ensures Find(s, p, i) == Some(j) ==> Occurrences(s, p, i) == 1 + Occurrences(s, p, j + |p|)
    ensures Find(s, p, i) == None ==> Occurrences(s, p, i) == 0
  {
  }

  /** Starting later, but not past the next occurrence, finds the same
      one; starting later where there is none finds none. */
  lemma {:induction false} FindLater(s: string, p: string, i: nat, j: nat)
    requires |p| > 0 && i <= j
    requires Find(s, p, i).None? || j <= Find(s, p, i).value
    ensures Find(s, p, j) == Find(s, p, i)
    decreases j - i
  {
    if i < j {
      FindLater(s, p, i + 1, j);
    }
  }

  /** Starting later never finds more. */
  lemma {:induction false} OccurrencesAntitone(s: string, p: string, i: nat, j: nat)
    requires |p| > 0 && i <= j
    ensures Occurrences(s, p, j) <= Occurrences(s, p, i)
    decreases |s| - i, 1
  {
    var r := Find(s, p, i);
    if r.None? || j <= r.value {
      FindLater(s, p, i, j);
      OccurrencesStep(s, p, i, if r.None? then 0 else r.value);
      OccurrencesStep(s, p, j, if r.None? then 0 else r.value);
    } else {
      OccurrencesPast(s, p, i, j, r.value);
    }
  }

  /** ...also when it starts past the first occurrence: what it finds from
      there on is found again after that occurrence. */
  lemma {:induction false} OccurrencesPast(s: string, p: string, i: nat, j: nat, m: nat)
    requires |p| > 0 && Find(s, p, i) == Some(m) && m < j
    ensures Occurrences(s, p, j) <= Occurrences(s, p, i)
    decreases |s| - i, 0
  {
    OccurrencesStep(s, p, i, m);
    var r := Find(s, p, j);
    OccurrencesStep(s, p, j, if r.None? then 0 else r.value);
    if r.Some? {
      OccurrencesAntitone(s, p, m + |p|, r.value + |p|);
    }
  }

  /** Moving past an occurrence found from `i` leaves at least one fewer. */
  lemma OccurrencesPassed(s: string, p: string, i: nat, j: nat, e: nat)
    requires |p| > 0 && Find(s, p, i) == Some(j) && j + |p| <= e
    ensures Occurrences(s, p, e) < Occurrences(s, p, i)
  {
    OccurrencesStep(s, p, i, j);
    OccurrencesAntitone(s, p, j + |p|, e);
  }

  /** Text free of `p` has no occurrence of `p` lying inside it. */
  lemma NotOccursInside(s: string, u: string, lo: nat, p: string, k: nat)
    requires lo + |u| <= |s| && s[lo..lo + |u|] == u && !Contains(u, p)
    requires lo <= k && k + |p| <= lo + |u|
    ensures !OccursAt(s, p, k)
  {
    forall i | k <= i < k + |p|
      ensures u[i - lo] == s[i]
    {
      assert s[lo..lo + |u|][i - lo] == s[i];
    }
    var x, y := u[k - lo..k - lo + |p|], s[k..k + |p|];
    assert forall j | 0 <= j < |p| :: x[j] == y[j];
    assert x == y;
    assert !OccursAt(u, p, k - lo);
  }

  /** A letter `p` lacks keeps every occurrence of `p` off its index. */
  lemma NotOccursCovering(s: string, p: string, k: nat, e: nat)
    requires k <= e < k + |p| && e < |s| && forall i | 0 <= i < |p| :: p[i] != s[e]
    ensures !OccursAt(s, p, k)
  {
    if k + |p| <= |s| {
      assert s[k..k + |p|][e - k] == s[e];
    }
  }

  // ---------------------------------------------------------------------
  // One match.

  /** `(?=<open>|$)` holds at index `h`. */
  predicate LookaheadAt(s: string, h: nat, open: string) {
    h == |s| || (h + 1 == |s| && s[h] == '\n') || OccursAt(s, open, h)
  }

  /** Where the lazy answer group stops: the first index from `i` on at which
      the lookahead holds. */
  function TailEnd(s: string, i: nat, open: string): (h: nat)
    requires i <= |s|
    ensures i <= h <= |s|
    decreases |s| - i
  {
    if Stops(s, i, open) then i else TailEnd(s, i + 1, open)
  }

  /** `LookaheadAt` with the mark compared character by character. */
  predicate Stops(s: string, h: nat, open: string) {
    h == |s| || (h + 1 == |s| && s[h] == '\n') || (h + |open| <= |s| && SameFrom(s, open, h, 0))
  }

  lemma StopsIff(s: string, h: nat, open: string)
    ensures Stops(s, h, open) <==> LookaheadAt(s, h, open)
  {
    if h + |open| <= |s| {
      SameFromOccurs(s, open, h);
    }
  }

  lemma {:induction false} TailEndIff(s: string, i: nat, h: nat, open: string)
    requires i <= h <= |s|
    ensures TailEnd(s, i, open) == h <==> LookaheadAt(s, h, open) && forall k | i <= k < h :: !LookaheadAt(s, k, open)
    decreases |s| - i
  {
    StopsIff(s, i, open);
    if !LookaheadAt(s, i, open) && i < h {
      TailEndIff(s, i + 1, h, open);
    }
  }

  /** One match: its two groups. */
  datatype Pair = Pair(question: string, answer: string)

  /** Where the two marks of a match lie: the opening mark at `start`, the
      middle mark at `midAt`. */
  datatype Spot = Spot(start: nat, midAt: nat)

  /** The rest of a match: its groups, and where group 2 starts and the
      match ends. */
  datatype Hit = Hit(pair: Pair, answerStart: nat, end: nat)

  /** The marks of the leftmost match from `pos` on, if any: the first opening
      mark, and the first middle mark after it. */
  function FirstSpot(s: string, pos: nat, m: Marks): (r: Option<Spot>)
    requires |m.open| > 0 && |m.mid| > 0
    ensures r.Some? ==> pos <= r.value.start && r.value.start + |m.open| <= r.value.midAt
    ensures r.Some? ==> r.value.midAt + |m.mid| <= |s|
  {
    match Find(s, m.open, pos)
    case None => None
    case Some(p) =>
      match Find(s, m.mid, p + |m.open|)
      case None => None
      case Some(a) => Some(Spot(p, a))
  }

  /** The match whose marks lie at `sp`: the whitespace run after the middle
      mark, then group 2 up to the lookahead; group 1 is what lies between the
      marks, stripped. */
  function HitAt(s: string, sp: Spot, m: Marks): (h: Hit)
    requires sp.start + |m.open| <= sp.midAt && sp.midAt + |m.mid| <= |s|
    ensures sp.midAt + |m.mid| <= h.answerStart <= h.end <= |s|
  {
    var g := WsEnd(s, sp.midAt + |m.mid|);
    var e := TailEnd(s, g, m.open);
    Hit(Pair(Strip(s[sp.start + |m.open|..sp.midAt]), s[g..e]), g, e)
  }

  /** `HitAt` spelled out. */
  lemma HitAtParts(s: string, sp: Spot, m: Marks)
    requires sp.start + |m.open| <= sp.midAt && sp.midAt + |m.mid| <= |s|
    ensures var h := HitAt(s, sp, m);
            && h.answerStart == WsEnd(s, sp.midAt + |m.mid|) && h.end == TailEnd(s, h.answerStart, m.open)
            && h.pair == Pair(Strip(s[sp.start + |m.open|..sp.midAt]), s[h.answerStart..h.end])
  {
  }

  /** There are marks for a match exactly when both searches succeed, and
      then they are what the searches found. */
  lemma FirstSpotFinds(s: string, pos: nat, m: Marks)
    requires |m.open| > 0 && |m.mid| > 0
    ensures FirstSpot(s, pos, m).Some? <==>
              Find(s, m.open, pos).Some? && Find(s, m.mid, Find(s, m.open, pos).value + |m.open|).Some?
    ensures FirstSpot(s, pos, m).Some? ==>
              && Find(s, m.open, pos) == Some(FirstSpot(s, pos, m).value.start)
              && Find(s, m.mid, FirstSpot(s, pos, m).value.start + |m.open|) == Some(FirstSpot(s, pos, m).value.midAt)
  {
  }

  /** `re.findall(pattern, s[pos:], re.DOTALL)`: match after match, each search
      resuming where the previous match ended. */
  function Matches(s: string, pos: nat, m: Marks): seq<Pair>
    requires pos <= |s| && |m.open| > 0 && |m.mid| > 0
    decreases |s| - pos
  {
    match FirstSpot(s, pos, m)
    case None => []
    case Some(sp) => [HitAt(s, sp, m).pair] + Matches(s, HitAt(s, sp, m).end, m)
  }

  /** `findall` goes on after the first match where it ended. */
  lemma MatchesCons(s: string, pos: nat, m: Marks)
    requires pos <= |s| && |m.open| > 0 && |m.mid| > 0
    ensures FirstSpot(s, pos, m).None? ==> Matches(s, pos, m) == []
    ensures FirstSpot(s, pos, m).Some? ==>
              var h := HitAt(s, FirstSpot(s, pos, m).value, m);
              Matches(s, pos, m) == [h.pair] + Matches(s, h.end, m)
  {
  }

  /** The match, read off the regex: it starts at the leftmost opening mark
      and its middle mark is the first one after that... */
  lemma FirstSpotLeftmost(s: string, pos: nat, m: Marks)
    requires |m.open| > 0 && |m.mid| > 0 && FirstSpot(s, pos, m).Some?
    ensures var sp := FirstSpot(s, pos, m).value;
            && pos <= sp.start && OccursAt(s, m.open, sp.start)
            && (forall k | pos <= k < sp.start :: !OccursAt(s, m.open, k))
            && sp.start + |m.open| <= sp.midAt && OccursAt(s, m.mid, sp.midAt)
            && (forall k | sp.start + |m.open| <= k < sp.midAt :: !OccursAt(s, m.mid, k))
  {
    var sp := FirstSpot(s, pos, m).value;
    FirstSpotFinds(s, pos, m);
    FindIff(s, m.open, pos, sp.start);
    FindIff(s, m.mid, sp.start + |m.open|, sp.midAt);
  }

  /** ...then comes the whole whitespace run, and the answer up to the first
      place the lookahead holds; the question is what lies between the two
      marks, without surrounding whitespace. */
  lemma HitGroups(s: string, sp: Spot, m: Marks)
    requires sp.start + |m.open| <= sp.midAt && sp.midAt + |m.mid| <= |s|
    ensures var h := HitAt(s, sp, m);
            && sp.midAt + |m.mid| <= h.answerStart <= h.end <= |s|
            && AllWs(s[sp.midAt + |m.mid|..h.answerStart])
            && (h.answerStart == |s| || !IsWs(s[h.answerStart]))
            && LookaheadAt(s, h.end, m.open) && (forall k | h.answerStart <= k < h.end :: !LookaheadAt(s, k, m.open))
            && h.pair == Pair(Strip(s[sp.start + |m.open|..sp.midAt]), s[h.answerStart..h.end])
  {
    var h := HitAt(s, sp, m);
    HitAtParts(s, sp, m);
    WsEndIff(s, sp.midAt + |m.mid|, h.answerStart);
    TailEndIff(s, h.answerStart, h.end, m.open);
  }

  /** `findall` finds nothing exactly when one of the two searches fails. */
  lemma MatchesNone(s: string, pos: nat, m: Marks)
    requires pos <= |s| && |m.open| > 0 && |m.mid| > 0
    ensures Matches(s, pos, m) == [] <==>
              Find(s, m.open, pos).None? || Find(s, m.mid, Find(s, m.open, pos).value + |m.open|).None?
  {
    MatchesCons(s, pos, m);
    FirstSpotFinds(s, pos, m);
  }

  /** There is no match at all exactly when no opening mark is followed by a
      middle mark: a trailing question without answer yields nothing. */
  lemma MatchesEmpty(s: string, pos: nat, m: Marks)
    requires pos <= |s| && |m.open| > 0 && |m.mid| > 0
    ensures Matches(s, pos, m) == [] <==>
            forall p, a | pos <= p && p + |m.open| <= a :: !(OccursAt(s, m.open, p) && OccursAt(s, m.mid, a))
  {
    MatchesNone(s, pos, m);
    SearchesFail(s, pos, m);
  }

  /** One of the two searches fails exactly when no opening mark is followed
      by a middle mark. */
  lemma SearchesFail(s: string, pos: nat, m: Marks)
    requires pos <= |s| && |m.open| > 0 && |m.mid| > 0
    ensures Find(s, m.open, pos).None? || Find(s, m.mid, Find(s, m.open, pos).value + |m.open|).None? <==>
            forall p, a | pos <= p && p + |m.open| <= a :: !(OccursAt(s, m.open, p) && OccursAt(s, m.mid, a))
  {
    var r := Find(s, m.open, pos);
    if r.None? {
      FindNone(s, m.open, pos);
    } else {
      var p := r.value;
      FindIff(s, m.open, pos, p);
      var r' := Find(s, m.mid, p + |m.open|);
      if r'.None? {
        FindNone(s, m.mid, p + |m.open|);
        forall p', a | pos <= p' && p' + |m.open| <= a
          ensures !(OccursAt(s, m.open, p') && OccursAt(s, m.mid, a))
        {
          if OccursAt(s, m.open, p') {
            assert p <= p';
          }
        }
      } else {
        FindIff(s, m.mid, p + |m.open|, r'.value);
      }
    }
  }

  /** Every match uses up an opening mark of its own, so there are never more
      pairs than `s.count(open)`. */
  lemma {:induction false} MatchesBound(s: string, pos: nat, m: Marks)
    requires pos <= |s| && |m.open| > 0 && |m.mid| > 0
    ensures |Matches(s, pos, m)| <= Occurrences(s, m.open, pos)
    decreases |s| - pos
  {
    if |Matches(s, pos, m)| > 0 {
      var start, end := MatchesStep(s, pos, m);
      MatchesBound(s, end, m);
      OccurrencesPassed(s, m.open, pos, start, end);
    }
  }

  /** A non-empty result begins with a match that starts at the first opening
      mark and ends after it. */
  lemma MatchesStep(s: string, pos: nat, m: Marks) returns (start: nat, end: nat)
    requires pos <= |s| && |m.open| > 0 && |m.mid| > 0 && |Matches(s, pos, m)| > 0
    ensures Find(s, m.open, pos) == Some(start) && start + |m.open| <= end <= |s| && pos < end
    ensures |Matches(s, pos, m)| == 1 + |Matches(s, end, m)|
  {
    MatchesCons(s, pos, m);
    FirstSpotFinds(s, pos, m);
    var sp := FirstSpot(s, pos, m).value;
    start, end := sp.start, HitAt(s, sp, m).end;
  }

  // ---------------------------------------------------------------------
  // clean_tibetan_text

  /** `re.sub(r"\s+", " ", s)`: every whitespace run becomes one space. A
      whitespace character followed by another is dropped; the last of a run
      becomes the space. */
  function Squeeze(s: string): (r: string)
    ensures |r| <= |s|
    decreases |s|
  {
    if |s| == 0 then ""
    else if IsWs(s[0]) && |s| > 1 && IsWs(s[1]) then Squeeze(s[1..])
    else [if IsWs(s[0]) then ' ' else s[0]] + Squeeze(s[1..])
  }

  /** `clean_tibetan_text`: strip, then squeeze. */
  function Clean(t: string): string
  {
    Squeeze(Strip(t))
  }

  /** What cleaning produces: no whitespace at either end, every whitespace
      character a plain space, never two in a row. */
  predicate Tidy(s: string) {
    IsStripped(s) && SingleSpaced(s)
  }

  /** Every whitespace character is a space, and no two are adjacent. */
  predicate SingleSpaced(s: string) {
    && (forall i | 0 <= i < |s| :: IsWs(s[i]) ==> s[i] == ' ')
    && (forall i | 0 <= i < |s| - 1 :: IsWs(s[i]) ==> !IsWs(s[i + 1]))
  }

  /** The first character survives squeezing, as a space if it was
      whitespace. */
  lemma {:induction false} SqueezeFirst(s: string)
    requires |s| > 0
    ensures |Squeeze(s)| > 0 && (IsWs(Squeeze(s)[0]) <==> IsWs(s[0]))
    decreases |s|
  {
    if IsWs(s[0]) && |s| > 1 && IsWs(s[1]) {
      SqueezeFirst(s[1..]);
    }
  }

  /** ...and so does the last. */
  lemma {:induction false} SqueezeLast(s: string)
    requires |s| > 0
    ensures |Squeeze(s)| > 0 && (IsWs(Squeeze(s)[|Squeeze(s)| - 1]) <==> IsWs(s[|s| - 1]))
    decreases |s|
  {
    if |s| > 1 {
      SqueezeLast(s[1..]);
      assert s[1..][|s| - 2] == s[|s| - 1];
    }
  }

  /** Squeezing leaves single spaces only. */
  lemma {:induction false} SqueezeSpaces(s: string)
    ensures SingleSpaced(Squeeze(s))
    decreases |s|
  {
    if |s| > 0 {
      var r' := Squeeze(s[1..]);
      SqueezeSpaces(s[1..]);
      assert SingleSpaced(r');
      if !(IsWs(s[0]) && |s| > 1 && IsWs(s[1])) {
        var r := [if IsWs(s[0]) then ' ' else s[0]] + r';
        assert Squeeze(s) == r;
        if |s| > 1 {
          SqueezeFirst(s[1..]);
        }
        forall i | 0 <= i < |r|
          ensures IsWs(r[i]) ==> r[i] == ' '
        {
          if i > 0 {
            assert r[i] == r'[i - 1];
          } else {
            assert r[0] == if IsWs(s[0]) then ' ' else s[0];
          }
        }
        forall i | 0 <= i < |r| - 1
          ensures IsWs(r[i]) ==> !IsWs(r[i + 1])
        {
          assert r[i + 1] == r'[i];
          if i > 0 {
            assert r[i] == r'[i - 1];
          }
        }
      } else {
        assert Squeeze(s) == r';
      }
    }
  }

  /** Text that is already single-spaced is left alone. */
  lemma {:induction false} SqueezeFixed(s: string)
    requires SingleSpaced(s)
    ensures Squeeze(s) == s
    decreases |s|
  {
    if |s| > 0 {
      SqueezeFixed(s[1..]);
      assert s == [s[0]] + s[1..];
    }
  }

  /** The cleaner's output is tidy. */
  lemma CleanTidy(t: string)
    ensures Tidy(Clean(t))
  {
    var m := Strip(t);
    StripStripped(t);
    SqueezeSpaces(m);
    if |m| > 0 {
      SqueezeFirst(m);
      SqueezeLast(m);
    }
  }

  /** The tidy texts are exactly the ones the cleaner leaves unchanged. */
  lemma CleanFixedIff(t: string)
    ensures Clean(t) == t <==> Tidy(t)
  {
    CleanTidy(t);
    if Tidy(t) {
      StripOfStripped(t);
      SqueezeFixed(t);
    }
  }

  /** Cleaning twice is cleaning once. */
  lemma CleanIdempotent(t: string)
    ensures Clean(Clean(t)) == Clean(t)
  {
    CleanTidy(t);
    CleanFixedIff(Clean(t));
  }

  /** The text without its whitespace. */
  function Visible(s: string): (r: string)
    ensures |r| <= |s|
    decreases |s|
  {
    if |s| == 0 then "" else (if IsWs(s[0]) then "" else [s[0]]) + Visible(s[1..])
  }

  lemma {:induction false} VisibleAppend(a: string, b: string)
    ensures Visible(a + b) == Visible(a) + Visible(b)
    decreases |a|
  {
    if |a| == 0 {
      assert a + b == b;
    } else {
      VisibleAppend(a[1..], b);
      assert (a + b)[0] == a[0] && (a + b)[1..] == a[1..] + b;
      var x := if IsWs(a[0]) then "" else [a[0]];
      assert x + (Visible(a[1..]) + Visible(b)) == (x + Visible(a[1..])) + Visible(b);
    }
  }

  lemma {:induction false} VisibleOfBlank(a: string)
    requires AllWs(a)
    ensures Visible(a) == ""
    decreases |a|
  {
    if |a| > 0 {
      VisibleOfBlank(a[1..]);
    }
  }

  lemma {:induction false} SqueezeVisible(s: string)
    ensures Visible(Squeeze(s)) == Visible(s)
    decreases |s|
  {
    if |s| > 0 {
      SqueezeVisible(s[1..]);
      var c := if IsWs(s[0]) then ' ' else s[0];
      if !(IsWs(s[0]) && |s| > 1 && IsWs(s[1])) {
        VisibleAppend([c], Squeeze(s[1..]));
      }
    }
  }

  /** Cleaning only touches whitespace: every other character is kept, in
      order. */
  lemma CleanKeepsText(t: string)
    ensures Visible(Clean(t)) == Visible(t)
  {
    var i := StripShape(t);
    var m := Strip(t);
    assert t == t[..i] + m + t[i + |m|..];
    VisibleAppend(t[..i] + m, t[i + |m|..]);
    VisibleAppend(t[..i], m);
    VisibleOfBlank(t[..i]);
    VisibleOfBlank(t[i + |m|..]);
    SqueezeVisible(m);
  }

  // ---------------------------------------------------------------------
  // The document and the two output files.

  /** `[p.text for p in doc.paragraphs if p.text.strip()]`: the non-blank
      paragraphs, unstripped. */
  function Kept(ps: seq<string>): (r: seq<string>)
    ensures |r| <= |ps|
  {
    if |ps| == 0 then []
    else (if |Strip(ps[0])| > 0 then [ps[0]] else []) + Kept(ps[1..])
  }

  /** `"\n".join(paragraphs)` */
  function Document(ps: seq<string>): string
  {
    Join("\n", Kept(ps))
  }

  /** `f"{convert_to_tibetan_number(i)} {clean_tibetan_text(text)}\n\n"` */
  function Render(i: nat, text: string): string
  {
    Bracketed(i) + " " + Clean(text) + "\n\n"
  }

  /** `extract_qa_from_docx` without the files: both entry lists. */
  function Parse(ps: seq<string>): Output
  {
    Entries(Matches(Document(ps), 0, QaMarks))
  }

  /** The two files' entries for a list of matches, numbered from 1. */
  function Entries(pairs: seq<Pair>): (r: Output)
    ensures |r.questions| == |r.answers| == |pairs|
  {
    Output(seq(|pairs|, k requires 0 <= k < |pairs| => Render(k + 1, pairs[k].question)),
           seq(|pairs|, k requires 0 <= k < |pairs| => Render(k + 1, pairs[k].answer)))
  }

  lemma EntriesAt(pairs: seq<Pair>, k: nat)
    requires k < |pairs|
    ensures Entries(pairs).questions[k] == Render(k + 1, pairs[k].question)
    ensures Entries(pairs).answers[k] == Render(k + 1, pairs[k].answer)
  {
  }

  /** A list without blank paragraphs passes the filter unchanged. */
  lemma {:induction false} KeptIsNonBlank(ps: seq<string>)
    requires forall i | 0 <= i < |ps| :: !AllWs(ps[i])
    ensures Kept(ps) == ps
  {
    if |ps| > 0 {
      StripEmptyIffBlank(ps[0]);
      assert forall i | 0 <= i < |ps| - 1 :: ps[1..][i] == ps[i + 1];
      KeptIsNonBlank(ps[1..]);
      assert ps == [ps[0]] + ps[1..];
    }
  }

  /** Every written paragraph starts with a mark, so none is blank. */
  lemma {:induction false} WrittenNotBlank(pairs: seq<Pair>, m: Marks)
    requires GoodMarks(m)
    ensures forall i | 0 <= i < |Written(pairs, m)| :: !AllWs(Written(pairs, m)[i])
  {
    if |pairs| > 0 {
      WrittenNotBlank(pairs[1..], m);
      var w := Written(pairs, m);
      assert w[0][0] == m.open[0] && w[1][0] == m.mid[0];
      assert forall i | 2 <= i < |w| :: w[i] == Written(pairs[1..], m)[i - 2];
    }
  }

  /** The filter keeps the paragraphs that are not whitespace only, unchanged,
      and drops the others; `KeptAppend` carries this over to any list, in
      order. */
  lemma KeptSingle(p: string)
    ensures Kept([p]) == if AllWs(p) then [] else [p]
  {
    StripEmptyIffBlank(p);
    assert [p][1..] == [];
  }

  lemma {:induction false} KeptAppend(a: seq<string>, b: seq<string>)
    ensures Kept(a + b) == Kept(a) + Kept(b)
  {
    if |a| == 0 {
      assert a + b == b;
    } else {
      var x := if |Strip(a[0])| > 0 then [a[0]] else [];
      calc {
        Kept(a + b);
        { assert (a + b)[0] == a[0] && (a + b)[1..] == a[1..] + b; }
        x + Kept(a[1..] + b);
        { KeptAppend(a[1..], b); }
        x + (Kept(a[1..]) + Kept(b));
        (x + Kept(a[1..])) + Kept(b);
      }
    }
  }

  /** Whitespace-only paragraphs never influence the result. */
  lemma BlankParagraphsIgnored(ps: seq<string>, i: nat, blank: string)
    requires i <= |ps| && AllWs(blank)
    ensures Parse(ps[..i] + [blank] + ps[i..]) == Parse(ps)
  {
    KeptSingle(blank);
    KeptAppend(ps[..i] + [blank], ps[i..]);
    KeptAppend(ps[..i], [blank]);
    KeptAppend(ps[..i], ps[i..]);
    assert ps[..i] + ps[i..] == ps;
    calc {
      Kept(ps[..i] + [blank] + ps[i..]);
      Kept(ps[..i]) + [] + Kept(ps[i..]);
      { assert Kept(ps[..i]) + [] == Kept(ps[..i]); }
      Kept(ps);
    }
  }

  // ---------------------------------------------------------------------
  // Reading back a document written pair by pair.

  /** A pair the regex carries unchanged: both texts tidy, a non-empty answer,
      no middle mark inside the question and no opening mark inside the
      answer (the other mark may appear in each). */
  predicate Plain(pr: Pair, m: Marks) {
    && Tidy(pr.question) && Tidy(pr.answer) && |pr.answer| > 0
    && !Contains(pr.question, m.mid) && !Contains(pr.answer, m.open)
  }

  /** The paragraphs of a document listing every pair as a question paragraph
      `<open> q` followed by an answer paragraph `<mid> a`. */
  function Written(pairs: seq<Pair>, m: Marks): (r: seq<string>)
    ensures |r| == 2 * |pairs|
  {
    if |pairs| == 0 then []
    else [m.open + " " + pairs[0].question, m.mid + " " + pairs[0].answer] + Written(pairs[1..], m)
  }

  /** The groups the regex captures from such a document: every answer but
      the last keeps the newline that separates it from the next mark. */
  function Captured(pairs: seq<Pair>): (r: seq<Pair>)
    ensures |r| == |pairs|
  {
    if |pairs| == 0 then []
    else [Pair(pairs[0].question, pairs[0].answer + (if |pairs| > 1 then "\n" else ""))] + Captured(pairs[1..])
  }

  lemma {:induction false} CapturedAt(pairs: seq<Pair>, k: nat)
    requires k < |pairs|
    ensures Captured(pairs)[k] == Pair(pairs[k].question, pairs[k].answer + (if k + 1 < |pairs| then "\n" else ""))
    decreases k
  {
    if k > 0 {
      CapturedAt(pairs[1..], k - 1);
    }
  }

  /** One written pair lies from index `start` of `s`: the opening mark and a
      space, the question, a newline, the middle mark and a space, the
      answer. */
  predicate PairAt(s: string, start: nat, pr: Pair, m: Marks) {
    var e1 := start + |m.open| + 1 + |pr.question|;
    var g := e1 + 2 + |m.mid|;
    var t0 := g + |pr.answer|;
    && t0 <= |s|
    && OccursAt(s, m.open, start) && s[start + |m.open|] == ' '
    && s[start + |m.open| + 1..e1] == pr.question && s[e1] == '\n'
    && OccursAt(s, m.mid, e1 + 1) && s[g - 1] == ' '
    && s[g..t0] == pr.answer
  }

  /** Where the two marks of a written pair lie. */
  function BlockSpot(start: nat, pr: Pair, m: Marks): Spot
  {
    Spot(start, start + |m.open| + 2 + |pr.question|)
  }

  /** Where a written pair ends. */
  function PairEnd(start: nat, pr: Pair, m: Marks): nat
  {
    start + |m.open| + |m.mid| + 3 + |pr.question| + |pr.answer|
  }

  /** ...followed either by the end of the text or by a newline and the next
      opening mark. */
  predicate LaidOut(s: string, start: nat, pr: Pair, m: Marks, more: bool) {
    var t0 := PairEnd(start, pr, m);
    && PairAt(s, start, pr, m)
    && (if more then t0 < |s| && s[t0] == '\n' && OccursAt(s, m.open, t0 + 1) else t0 == |s|)
  }

  /** A mark with neither a space nor a newline in it does not occur
      anywhere in a space, a text free of it and a newline. */
  lemma NotOccursFramed(s: string, lo: nat, q: string, p: string)
    requires |p| > 0 && forall i | 0 <= i < |p| :: p[i] != ' ' && p[i] != '\n'
    requires lo + |q| + 2 <= |s| && s[lo] == ' ' && s[lo + 1..lo + 1 + |q|] == q && s[lo + 1 + |q|] == '\n'
    requires !Contains(q, p)
    ensures forall k | lo <= k < lo + |q| + 2 :: !OccursAt(s, p, k)
  {
    var e := lo + 1 + |q|;
    forall k | lo <= k < e + 1
      ensures !OccursAt(s, p, k)
    {
      if k == lo {
        NotOccursCovering(s, p, k, k);
      } else if k + |p| <= e {
        NotOccursInside(s, q, lo + 1, p, k);
      } else {
        NotOccursCovering(s, p, k, e);
      }
    }
  }

  /** In a laid-out pair the first middle mark after the opening one is the
      pair's own. */
  lemma BlockMidMark(s: string, start: nat, pr: Pair, m: Marks, more: bool)
    requires GoodMarks(m) && Plain(pr, m) && LaidOut(s, start, pr, m, more)
    ensures Find(s, m.open, start) == Some(start)
    ensures Find(s, m.mid, start + |m.open|) == Some(start + |m.open| + 2 + |pr.question|)
  {
    var q := pr.question;
    FindIff(s, m.open, start, start);
    NotOccursFramed(s, start + |m.open|, q, m.mid);
    FindIff(s, m.mid, start + |m.open|, start + |m.open| + 2 + |q|);
  }

  /** ...and the answer group is the pair's answer, ending at the next
      opening mark or at the end of the text. */
  lemma BlockAnswerEnd(s: string, start: nat, pr: Pair, m: Marks, more: bool)
    requires GoodMarks(m) && Plain(pr, m) && LaidOut(s, start, pr, m, more)
    ensures var t0 := PairEnd(start, pr, m);
            var g := t0 - |pr.answer|;
            && WsEnd(s, g - 1) == g
            && TailEnd(s, g, m.open) == (if more then t0 + 1 else t0)
  {
    var a := pr.answer;
    var t0 := PairEnd(start, pr, m);
    var g := t0 - |a|;
    var h := if more then t0 + 1 else t0;
    assert s[g] == a[0];
    WsEndIff(s, g - 1, g);
    forall k | g <= k < h
      ensures !LookaheadAt(s, k, m.open)
    {
      if k < t0 {
        assert s[k] == a[k - g];
      }
      if k + |m.open| <= t0 {
        NotOccursInside(s, a, g, m.open, k);
      } else if more {
        NotOccursCovering(s, m.open, k, t0);
      }
    }
    TailEndIff(s, g, h, m.open);
  }

  /** The match built at a laid-out pair's two marks has the pair's question
      as group 1... */
  lemma BlockQuestion(s: string, start: nat, pr: Pair, m: Marks)
    requires PairAt(s, start, pr, m) && IsStripped(pr.question)
    ensures HitAt(s, BlockSpot(start, pr, m), m).pair.question == pr.question
  {
    var o := start + |m.open|;
    var e1 := o + 1 + |pr.question|;
    assert s[o] == ' ' && s[o + 1..e1] == pr.question && s[e1] == '\n';
    assert e1 + 1 + |m.mid| <= |s|;
    Framed(s, o, pr.question);
    var sp := BlockSpot(start, pr, m);
    assert sp.start + |m.open| + |pr.question| + 2 == sp.midAt == e1 + 1;
    QuestionGroup(s, sp, m, pr.question);
  }

  /** Group 1 of a match whose marks are one space and one newline away from
      a stripped text is that text. */
  lemma QuestionGroup(s: string, sp: Spot, m: Marks, q: string)
    requires sp.start + |m.open| + |q| + 2 == sp.midAt && sp.midAt + |m.mid| <= |s|
    requires s[sp.start + |m.open|..sp.midAt] == " " + q + "\n" && IsStripped(q)
    ensures HitAt(s, sp, m).pair.question == q
  {
    StripExact(" ", q, "\n");
    HitAtParts(s, sp, m);
  }

  /** A space, `q` and a newline, read off their positions. */
  lemma Framed(s: string, i: nat, q: string)
    requires i + |q| + 2 <= |s| && s[i] == ' ' && s[i + 1..i + 1 + |q|] == q && s[i + 1 + |q|] == '\n'
    ensures s[i..i + |q| + 2] == " " + q + "\n"
  {
    var x := s[i..i + |q| + 2];
    assert forall j | 0 <= j < |q| :: x[j + 1] == q[j];
  }

  /** ...the pair's answer as group 2, with the newline before the next mark,
      and ends where the next pair begins. */
  lemma BlockAnswer(s: string, start: nat, pr: Pair, m: Marks, more: bool)
    requires GoodMarks(m) && Plain(pr, m) && LaidOut(s, start, pr, m, more)
    ensures var t0 := PairEnd(start, pr, m);
            var h := HitAt(s, BlockSpot(start, pr, m), m);
            && h.pair.answer == (if more then pr.answer + "\n" else pr.answer)
            && h.end == if more then t0 + 1 else t0
  {
    var a := pr.answer;
    var t0 := PairEnd(start, pr, m);
    var g := t0 - |a|;
    BlockAnswerEnd(s, start, pr, m, more);
    HitAnswer(s, BlockSpot(start, pr, m), m, g, if more then t0 + 1 else t0);
    if more {
      Trailed(s, g, a);
    }
  }

  /** Group 2 of a match, given where its whitespace run and its lookahead
      end. */
  lemma HitAnswer(s: string, sp: Spot, m: Marks, g: nat, h: nat)
    requires sp.start + |m.open| <= sp.midAt && sp.midAt + |m.mid| <= g <= h <= |s|
    requires WsEnd(s, sp.midAt + |m.mid|) == g && TailEnd(s, g, m.open) == h
    ensures HitAt(s, sp, m).pair.answer == s[g..h] && HitAt(s, sp, m).end == h
  {
    HitAtParts(s, sp, m);
  }

  /** `a` and a newline, read off their positions. */
  lemma Trailed(s: string, g: nat, a: string)
    requires g + |a| < |s| && s[g..g + |a|] == a && s[g + |a|] == '\n'
    ensures s[g..g + |a| + 1] == a + "\n"
  {
    var x := s[g..g + |a| + 1];
    assert forall j | 0 <= j < |a| :: x[j] == a[j];
  }

  /** ...and it is the first match from the pair's opening mark. */
  lemma BlockMatch(s: string, start: nat, pr: Pair, m: Marks, more: bool)
    requires GoodMarks(m) && Plain(pr, m) && LaidOut(s, start, pr, m, more)
    ensures FirstSpot(s, start, m) == Some(BlockSpot(start, pr, m))
  {
    BlockMidMark(s, start, pr, m, more);
    FirstSpotFinds(s, start, m);
  }

  /** `sep.join` of a list with at least two parts, taken apart. */
  lemma JoinTwo(sep: string, x: string, y: string, rest: seq<string>)
    ensures Join(sep, [x, y] + rest) == x + sep + y + (if |rest| > 0 then sep + Join(sep, rest) else "")
  {
    var w := [x, y] + rest;
    assert w[1..] == [y] + rest;
    assert ([y] + rest)[1..] == rest;
  }

  /** Where the pieces of one written pair lie in the text. */
  lemma BlockLayout(s: string, start: nat, pr: Pair, m: Marks, rest: string)
    requires start <= |s|
    requires s[start..] == (m.open + " " + pr.question) + "\n" + (m.mid + " " + pr.answer) + rest
    ensures var t0 := PairEnd(start, pr, m);
            && t0 + |rest| == |s| && s[t0..] == rest
            && PairAt(s, start, pr, m)
  {
    var u := s[start..];
    var o := |m.open|;
    var e1 := o + 1 + |pr.question|;
    var g := e1 + 2 + |m.mid|;
    assert u[..o] == m.open;
    assert u[o + 1..e1] == pr.question;
    assert u[e1 + 1..e1 + 1 + |m.mid|] == m.mid;
    assert u[g..g + |pr.answer|] == pr.answer;
    assert u[g + |pr.answer|..] == rest;
  }

  /** After a written pair that is not the last come a newline and the next
      opening mark. */
  lemma NextMark(s: string, t0: nat, pairs: seq<Pair>, m: Marks)
    requires |pairs| > 0 && t0 <= |s| && s[t0..] == "\n" + Join("\n", Written(pairs, m))
    ensures t0 < |s| && s[t0] == '\n' && OccursAt(s, m.open, t0 + 1)
    ensures s[t0 + 1..] == Join("\n", Written(pairs, m))
  {
    var x := m.open + " " + pairs[0].question;
    JoinTwo("\n", x, m.mid + " " + pairs[0].answer, Written(pairs[1..], m));
    var j := Join("\n", Written(pairs, m));
    assert j[..|m.open|] == m.open;
    assert s[t0 + 1..] == j;
  }

  /** A written document starts with its first pair laid out, and the rest
      of the document follows it. */
  lemma WrittenLayout(s: string, start: nat, pairs: seq<Pair>, m: Marks) returns (h: nat)
    requires |pairs| > 0 && start <= |s| && s[start..] == Join("\n", Written(pairs, m))
    ensures LaidOut(s, start, pairs[0], m, |pairs| > 1)
    ensures h == PairEnd(start, pairs[0], m) + (if |pairs| > 1 then 1 else 0) <= |s|
    ensures s[h..] == Join("\n", Written(pairs[1..], m))
  {
    var t0 := PairEnd(start, pairs[0], m);
    if |pairs| > 1 {
      LayoutMore(s, start, pairs, m);
      h := t0 + 1;
    } else {
      LayoutLast(s, start, pairs, m);
      h := t0;
    }
  }

  lemma LayoutMore(s: string, start: nat, pairs: seq<Pair>, m: Marks)
    requires |pairs| > 1 && start <= |s| && s[start..] == Join("\n", Written(pairs, m))
    ensures var t0 := PairEnd(start, pairs[0], m);
            && LaidOut(s, start, pairs[0], m, true)
            && t0 + 1 <= |s| && s[t0 + 1..] == Join("\n", Written(pairs[1..], m))
  {
    WrittenShape(pairs, m);
    WrittenStarts(pairs[1..], m);
    LayoutBeforeMark(s, start, pairs[0], m, Join("\n", Written(pairs[1..], m)));
  }

  /** A written document starts with the opening mark. */
  lemma WrittenStarts(pairs: seq<Pair>, m: Marks)
    requires |pairs| > 0
    ensures OccursAt(Join("\n", Written(pairs, m)), m.open, 0)
  {
    WrittenShape(pairs, m);
    var j := Join("\n", Written(pairs, m));
    assert j[..|m.open|] == m.open;
  }

  /** A pair laid out in front of a newline and a text that starts with the
      opening mark. */
  lemma LayoutBeforeMark(s: string, start: nat, pr: Pair, m: Marks, tail: string)
    requires start <= |s| && OccursAt(tail, m.open, 0)
    requires s[start..] == (m.open + " " + pr.question) + "\n" + (m.mid + " " + pr.answer) + ("\n" + tail)
    ensures var t0 := PairEnd(start, pr, m);
            && LaidOut(s, start, pr, m, true)
            && t0 + 1 <= |s| && s[t0 + 1..] == tail
  {
    BlockLayout(s, start, pr, m, "\n" + tail);
    var t0 := PairEnd(start, pr, m);
    assert s[t0] == ("\n" + tail)[0];
    assert s[t0 + 1..] == ("\n" + tail)[1..] == tail;
    OccursInSuffix(s, m.open, t0 + 1, 0);
  }

  lemma LayoutLast(s: string, start: nat, pairs: seq<Pair>, m: Marks)
    requires |pairs| == 1 && start <= |s| && s[start..] == Join("\n", Written(pairs, m))
    ensures var t0 := PairEnd(start, pairs[0], m);
            && LaidOut(s, start, pairs[0], m, false)
            && t0 <= |s| && s[t0..] == Join("\n", Written(pairs[1..], m))
  {
    WrittenShape(pairs, m);
    BlockLayout(s, start, pairs[0], m, "");
    assert Written(pairs[1..], m) == [];
  }

  /** The first two paragraphs of a written document, and what follows. */
  lemma WrittenShape(pairs: seq<Pair>, m: Marks)
    requires |pairs| > 0
    ensures Join("\n", Written(pairs, m)) ==
              (m.open + " " + pairs[0].question) + "\n" + (m.mid + " " + pairs[0].answer)
              + (if |pairs| > 1 then "\n" + Join("\n", Written(pairs[1..], m)) else "")
  {
    var pr := pairs[0];
    var x, y, w := m.open + " " + pr.question, m.mid + " " + pr.answer, Written(pairs[1..], m);
    assert Written(pairs, m) == [x, y] + w;
    JoinTwo("\n", x, y, w);
    assert x + "\n" + y + "" == x + "\n" + y;
  }

  /** The first pair of a written document is the first match, which ends
      where the rest of the document begins. */
  lemma WrittenStep(s: string, start: nat, pairs: seq<Pair>, m: Marks) returns (sp: Spot, h: nat)
    requires GoodMarks(m) && |pairs| > 0 && Plain(pairs[0], m)
    requires start <= |s| && s[start..] == Join("\n", Written(pairs, m))
    ensures FirstSpot(s, start, m) == Some(sp)
    ensures HitAt(s, sp, m).pair == Captured(pairs)[0]
    ensures HitAt(s, sp, m).end == h <= |s|
    ensures s[h..] == Join("\n", Written(pairs[1..], m))
  {
    sp := BlockSpot(start, pairs[0], m);
    var pr := pairs[0];
    var more := |pairs| > 1;
    h := WrittenLayout(s, start, pairs, m);
    BlockMatch(s, start, pr, m, more);
    BlockQuestion(s, start, pr, m);
    BlockAnswer(s, start, pr, m, more);
    CapturedAt(pairs, 0);
  }

  lemma CapturedCons(pairs: seq<Pair>)
    requires |pairs| > 0
    ensures Captured(pairs) == [Captured(pairs)[0]] + Captured(pairs[1..])
  {
  }

  /** The regex reads a written document back group by group. */
  lemma {:induction false} MatchesWritten(s: string, start: nat, pairs: seq<Pair>, m: Marks)
    requires GoodMarks(m) && forall k | 0 <= k < |pairs| :: Plain(pairs[k], m)
    requires start <= |s| && s[start..] == Join("\n", Written(pairs, m))
    ensures Matches(s, start, m) == Captured(pairs)
    decreases |pairs|
  {
    if |pairs| == 0 {
      assert start == |s|;
    } else {
      var sp, h := WrittenStep(s, start, pairs, m);
      MatchesCons(s, start, m);
      MatchesWritten(s, h, pairs[1..], m);
      CapturedCons(pairs);
    }
  }

  /** Tidy text survives the cleaner, with or without a trailing newline. */
  lemma CleanOfTidy(t: string, nl: string)
    requires Tidy(t) && AllWs(nl)
    ensures Clean(t + nl) == t && Clean(t) == t
  {
    assert t + "" == t;
    assert "" + t + nl == t + nl;
    StripExact("", t, nl);
    SqueezeFixed(t);
  }

  /** The regex finds exactly the written pairs in the joined document. */
  lemma WrittenMatches(pairs: seq<Pair>)
    requires forall k | 0 <= k < |pairs| :: Plain(pairs[k], QaMarks)
    ensures Matches(Document(Written(pairs, QaMarks)), 0, QaMarks) == Captured(pairs)
  {
    QaMarksGood();
    WrittenNotBlank(pairs, QaMarks);
    KeptIsNonBlank(Written(pairs, QaMarks));
    var s := Document(Written(pairs, QaMarks));
    assert s[0..] == s;
    MatchesWritten(s, 0, pairs, QaMarks);
  }

  /** A document written pair by pair comes back as exactly those pairs,
      renumbered from 1. */
  lemma WrittenPairsReadBack(pairs: seq<Pair>)
    requires forall k | 0 <= k < |pairs| :: Plain(pairs[k], QaMarks)
    ensures var out := Parse(Written(pairs, QaMarks));
            && |out.questions| == |out.answers| == |pairs|
            && (forall k | 0 <= k < |pairs| ::
                  && out.questions[k] == Bracketed(k + 1) + " " + pairs[k].question + "\n\n"
                  && out.answers[k] == Bracketed(k + 1) + " " + pairs[k].answer + "\n\n")
  {
    WrittenMatches(pairs);
    forall k | 0 <= k < |pairs|
      ensures Entries(Captured(pairs)).questions[k] == Bracketed(k + 1) + " " + pairs[k].question + "\n\n"
      ensures Entries(Captured(pairs)).answers[k] == Bracketed(k + 1) + " " + pairs[k].answer + "\n\n"
    {
      CapturedQuestion(pairs, k);
      CapturedAnswer(pairs, k);
    }
  }

  /** Entry `k` made from the captured groups is the pair's own text, in
      the questions file... */
  lemma CapturedQuestion(pairs: seq<Pair>, k: nat)
    requires k < |pairs| && Tidy(pairs[k].question)
    ensures Entries(Captured(pairs)).questions[k] == Bracketed(k + 1) + " " + pairs[k].question + "\n\n"
  {
    EntriesAt(Captured(pairs), k);
    CapturedAt(pairs, k);
    CleanOfTidy(pairs[k].question, "");
  }

  /** ...and in the answers file. */
  lemma CapturedAnswer(pairs: seq<Pair>, k: nat)
    requires k < |pairs| && Tidy(pairs[k].answer)
    ensures Entries(Captured(pairs)).answers[k] == Bracketed(k + 1) + " " + pairs[k].answer + "\n\n"
  {
    CapturedAnswerClean(pairs, k);
    EntriesAt(Captured(pairs), k);
  }

  /** The cleaner drops the newline a captured answer may end with. */
  lemma CapturedAnswerClean(pairs: seq<Pair>, k: nat)
    requires k < |pairs| && Tidy(pairs[k].answer)
    ensures Clean(Captured(pairs)[k].answer) == pairs[k].answer
  {
    CapturedAt(pairs, k);
    if k + 1 < |pairs| {
      assert IsWs('\n');
      CleanOfTidy(pairs[k].answer, "\n");
    } else {
      CleanOfTidy(pairs[k].answer, "");
    }
  }

  /** Both files have one entry per match, never more than there are
      question marks; entry k of each carries the index `k + 1` and the tidy
      cleaned group. */
  lemma ParseContents(ps: seq<string>)
    ensures var s := Document(ps);
            var pairs := Matches(s, 0, QaMarks);
            var out := Parse(ps);
            && |out.questions| == |out.answers| == |pairs| <= Occurrences(s, QuestionMark, 0)
            && (forall k | 0 <= k < |pairs| ::
                  && out.questions[k] == Bracketed(k + 1) + " " + Clean(pairs[k].question) + "\n\n"
                  && out.answers[k] == Bracketed(k + 1) + " " + Clean(pairs[k].answer) + "\n\n"
                  && Tidy(Clean(pairs[k].question)) && Tidy(Clean(pairs[k].answer)))
  {
    var pairs := Matches(Document(ps), 0, QaMarks);
    MatchesBound(Document(ps), 0, QaMarks);
    forall k | 0 <= k < |pairs|
      ensures Parse(ps).questions[k] == Bracketed(k + 1) + " " + Clean(pairs[k].question) + "\n\n"
      ensures Parse(ps).answers[k] == Bracketed(k + 1) + " " + Clean(pairs[k].answer) + "\n\n"
      ensures Tidy(Clean(pairs[k].question)) && Tidy(Clean(pairs[k].answer))
    {
      EntriesAt(pairs, k);
      CleanTidy(pairs[k].question);
      CleanTidy(pairs[k].answer);
    }
  }
}
