/**
  String helpers shared by every extraction script: Python's notion of
  whitespace, `str.strip`, `sep.join`, substring search, `s.split(sep, 1)[-1]`,
  `s.replace(p, "")`, and the "strip each paragraph, skip the blank ones"
  filter that opens every paragraph loop.
 */
module Text {
  import opened Wrappers

  /** Python's `str.isspace()`, which is also what `str.strip()` removes and
      what the regex class `\s` matches on `str` patterns (Unicode 15 table). */
  predicate IsWs(c: char) {
    || ('\t' <= c <= '\r')
    || ('\U{1C}' <= c <= '\U{1F}')
    || c == ' '
    || c == '\U{85}'
    || c == '\U{A0}'
    || c == '\U{1680}'
    || ('\U{2000}' <= c <= '\U{200A}')
    || c == '\U{2028}'
    || c == '\U{2029}'
    || c == '\U{202F}'
    || c == '\U{205F}'
    || c == '\U{3000}'
  }

  /** Every character is whitespace (the empty string included). */
  predicate AllWs(s: string) {
    forall i | 0 <= i < |s| :: IsWs(s[i])
  }

  /** Neither end is whitespace: what `str.strip()` returns. */
  predicate IsStripped(s: string) {
    |s| == 0 || (!IsWs(s[0]) && !IsWs(s[|s| - 1]))
  }

  /** Where the whitespace run starting at index `i` ends (`\s*`). */
  function WsEnd(s: string, i: nat): (j: nat)
    requires i <= |s|
    ensures i <= j <= |s|
    decreases |s| - i
  {
    if i < |s| && IsWs(s[i]) then WsEnd(s, i + 1) else i
  }

  /** The run is whitespace, and all of it: the greedy `\s*`. */
  lemma {:induction false} WsEndIff(s: string, i: nat, j: nat)
    requires i <= j <= |s|
    ensures WsEnd(s, i) == j <==> (forall k | i <= k < j :: IsWs(s[k])) && (j == |s| || !IsWs(s[j]))
    decreases |s| - i
  {
    if i < |s| && IsWs(s[i]) && i < j {
      WsEndIff(s, i + 1, j);
    }
  }

  /** `s.lstrip()`. The contracts of the three strip functions are kept to
      lengths; what they remove is stated by the `...Shape` lemmas, so that
      the many formulas mentioning a stripped line stay cheap to check. */
  function LStrip(s: string): (r: string)
    ensures |r| <= |s|
  {
    if |s| > 0 && IsWs(s[0]) then LStrip(s[1..]) else s
  }

  /** `s.rstrip()` */
  function RStrip(s: string): (r: string)
    ensures |r| <= |s|
  {
    if |s| > 0 && IsWs(s[|s| - 1]) then RStrip(s[..|s| - 1]) else s
  }

  /** `s.strip()` */
  function Strip(s: string): (r: string)
    ensures |r| <= |s|
  {
    RStrip(LStrip(s))
  }

  /** `lstrip` removes a whitespace prefix, and all of it. */
  lemma {:induction false} LStripShape(s: string)
    ensures var r := LStrip(s);
            && r == s[|s| - |r|..]
            && AllWs(s[..|s| - |r|])
            && (|r| == 0 || !IsWs(r[0]))
    decreases |s|
  {
    if |s| > 0 && IsWs(s[0]) {
      LStripShape(s[1..]);
      var r := LStrip(s[1..]);
      assert s[1..][|s| - 1 - |r|..] == s[|s| - |r|..];
      assert forall i | 1 <= i < |s| - |r| :: s[i] == s[1..][..|s| - 1 - |r|][i - 1];
    }
  }

  /** `rstrip` removes a whitespace suffix, and all of it. */
  lemma {:induction false} RStripShape(s: string)
    ensures var r := RStrip(s);
            && r == s[..|r|]
            && AllWs(s[|r|..])
            && (|r| == 0 || !IsWs(r[|r| - 1]))
    decreases |s|
  {
    if |s| > 0 && IsWs(s[|s| - 1]) {
      var init := s[..|s| - 1];
      RStripShape(init);
      var r := RStrip(init);
      assert init[..|r|] == s[..|r|];
      assert forall i | |r| <= i < |s| - 1 :: s[i] == init[|r|..][i - |r|];
    }
  }

  /** `strip` leaves a stripped middle part of `s`, cut out of it at `i`,
      with only whitespace on either side. */
  lemma StripShape(s: string) returns (i: nat)
    ensures var r := Strip(s);
            && IsStripped(r)
            && i + |r| <= |s| && s[i..i + |r|] == r
            && AllWs(s[..i]) && AllWs(s[i + |r|..])
  {
    var l := LStrip(s);
    LStripShape(s);
    RStripShape(l);
    var r := RStrip(l);
    i := |s| - |l|;
    assert |r| > 0 ==> r[0] == l[0];
    assert s[i..i + |r|] == l[..|r|];
    assert forall k | i + |r| <= k < |s| :: s[k] == l[|r|..][k - i - |r|];
  }

  /** The result of `strip` is stripped. */
  lemma StripStripped(s: string)
    ensures IsStripped(Strip(s))
  {
    var _ := StripShape(s);
  }

  lemma {:induction false} LStripWsPrefix(a: string, t: string)
    requires AllWs(a)
    requires |t| == 0 || !IsWs(t[0])
    ensures LStrip(a + t) == t
    decreases |a|
  {
    if |a| == 0 {
      assert a + t == t;
    } else {
      assert (a + t)[1..] == a[1..] + t;
      LStripWsPrefix(a[1..], t);
    }
  }

  lemma {:induction false} RStripWsSuffix(t: string, b: string)
    requires AllWs(b)
    requires |t| == 0 || !IsWs(t[|t| - 1])
    ensures RStrip(t + b) == t
    decreases |b|
  {
    if |b| == 0 {
      assert t + b == t;
    } else {
      assert (t + b)[..|t + b| - 1] == t + b[..|b| - 1];
      RStripWsSuffix(t, b[..|b| - 1]);
    }
  }

  /** `strip` is characterised by its result: whatever stripped core `m` is
      surrounded by whitespace only, `strip` returns exactly `m`. */
  lemma StripExact(a: string, m: string, b: string)
    requires AllWs(a) && AllWs(b) && IsStripped(m)
    ensures Strip(a + m + b) == m
  {
    if |m| == 0 {
      assert a + m + b == (a + b) + "";
      assert AllWs(a + b);
      LStripWsPrefix(a + b, "");
    } else {
      assert a + m + b == a + (m + b);
      LStripWsPrefix(a, m + b);
      RStripWsSuffix(m, b);
    }
  }

  /** Stripping is a projection. */
  lemma StripIdempotent(s: string)
    ensures Strip(Strip(s)) == Strip(s)
  {
    StripStripped(s);
    StripOfStripped(Strip(s));
  }

  lemma StripOfStripped(s: string)
    requires IsStripped(s)
    ensures Strip(s) == s
  {
    assert "" + s + "" == s;
    StripExact("", s, "");
  }

  /** A paragraph is skipped exactly when it is whitespace only. */
  lemma StripEmptyIffBlank(s: string)
    ensures Strip(s) == "" <==> AllWs(s)
  {
    if AllWs(s) {
      assert "" + "" + s == s;
      StripExact("", "", s);
    } else {
      var i := StripShape(s);
      WsHalves(s, i);
    }
  }

  lemma WsHalves(s: string, i: nat)
    requires i <= |s|
    ensures AllWs(s[..i]) && AllWs(s[i..]) ==> AllWs(s)
  {
    if AllWs(s[..i]) && AllWs(s[i..]) {
      forall k | 0 <= k < |s| ensures IsWs(s[k]) {
        if k < i { assert s[k] == s[..i][k]; } else { assert s[k] == s[i..][k - i]; }
      }
    }
  }

  /** `s.startswith(p)` */
  predicate StartsWith(s: string, p: string) {
    |p| <= |s| && s[..|p|] == p
  }

  /** `sep.join(parts)` */
  function Join(sep: string, parts: seq<string>): string
  {
    if |parts| == 0 then ""
    else if |parts| == 1 then parts[0]
    else parts[0] + sep + Join(sep, parts[1..])
  }

  /** Appending `sep + b` to the first part is the same as giving `b` a part
      of its own. */
  lemma JoinMergeFirst(sep: string, a: string, b: string, rest: seq<string>)
    ensures Join(sep, [a + sep + b] + rest) == Join(sep, [a, b] + rest)
  {
    var xs := [a, b] + rest;
    assert xs[1..] == [b] + rest;
    if |rest| == 0 {
    } else {
      assert ([a + sep + b] + rest)[1..] == rest;
      assert ([b] + rest)[1..] == rest;
    }
  }

  lemma JoinSingle(sep: string, a: string)
    ensures Join(sep, [a]) == a
  {
  }

  /** The text occurs in `s` starting at index `i`. */
  predicate OccursAt(s: string, p: string, i: int) {
    0 <= i && i + |p| <= |s| && s[i..i + |p|] == p
  }

  lemma OccursInSuffix(s: string, p: string, k: nat, j: int)
    requires k <= |s| && OccursAt(s[k..], p, j)
    ensures OccursAt(s, p, j + k)
  {
    assert s[k..][j..j + |p|] == s[j + k..j + k + |p|];
  }

  /** `p in s` */
  predicate Contains(s: string, p: string) {
    exists i | 0 <= i <= |s| :: OccursAt(s, p, i)
  }

  /** The text after the first occurrence of `sep`, or None when `sep` does
      not occur: `s.partition(sep)[2]` exactly when `sep in s`. */
  function AfterSep(s: string, sep: string): (r: Option<string>)
    requires |sep| > 0
    ensures r.Some? ==> |r.value| + |sep| <= |s| && r.value == s[|s| - |r.value|..]
    decreases |s|
  {
    if |s| < |sep| then None
    else if s[..|sep|] == sep then Some(s[|sep|..])
    else AfterSep(s[1..], sep)
  }

  /** `s.split(sep, 1)[-1]` (Python refuses an empty separator). */
  function AfterFirst(s: string, sep: string): string
    requires |sep| > 0
  {
    match AfterSep(s, sep)
    case Some(r) => r
    case None => s
  }

  /** `AfterSep` finds something exactly when `sep in s`. */
  lemma {:induction false} AfterSepFound(s: string, sep: string)
    requires |sep| > 0
    ensures AfterSep(s, sep).Some? <==> Contains(s, sep)
    decreases |s|
  {
    if |s| < |sep| {
      assert forall i | 0 <= i <= |s| :: !OccursAt(s, sep, i);
    } else if s[..|sep|] == sep {
      assert OccursAt(s, sep, 0);
    } else {
      AfterSepFound(s[1..], sep);
      if Contains(s[1..], sep) {
        var j :| 0 <= j <= |s| - 1 && OccursAt(s[1..], sep, j);
        OccursInSuffix(s, sep, 1, j);
      }
      if Contains(s, sep) {
        var j :| 0 <= j <= |s| && OccursAt(s, sep, j);
        assert j != 0;
        assert s[1..][j - 1..j - 1 + |sep|] == s[j..j + |sep|];
        assert OccursAt(s[1..], sep, j - 1);
      }
    }
  }

  /** The first occurrence wins: text free of `c`, then `c`, then anything
      gives back the anything. */
  lemma {:induction false} AfterFirstChar(pre: string, c: char, rest: string)
    requires forall i | 0 <= i < |pre| :: pre[i] != c
    ensures AfterSep(pre + [c] + rest, [c]) == Some(rest)
    ensures AfterFirst(pre + [c] + rest, [c]) == rest
    decreases |pre|
  {
    var s := pre + [c] + rest;
    if |pre| == 0 {
      assert s[..1] == [c] && s[1..] == rest;
    } else {
      assert s[..1] != [c] by {
        assert s[0] == pre[0];
      }
      assert s[1..] == pre[1..] + [c] + rest;
      AfterFirstChar(pre[1..], c, rest);
    }
  }

  /** Text free of `c` has nothing after a `c`. */
  lemma {:induction false} AfterFirstAbsent(s: string, c: char)
    requires forall i | 0 <= i < |s| :: s[i] != c
    ensures AfterSep(s, [c]) == None && AfterFirst(s, [c]) == s
    decreases |s|
  {
    if |s| > 0 {
      assert s[..1] != [c] by {
        assert s[..1][0] == s[0];
      }
      AfterFirstAbsent(s[1..], c);
    }
  }

  /** `s.replace(p, "")`: scan left to right and drop every non-overlapping
      occurrence of `p`. */
  function RemoveAll(s: string, p: string): (r: string)
    requires |p| > 0
    ensures |r| <= |s|
    decreases |s|
  {
    if |s| < |p| then s
    else if s[..|p|] == p then RemoveAll(s[|p|..], p)
    else [s[0]] + RemoveAll(s[1..], p)
  }

  /** Nothing to remove leaves the string as it is. */
  lemma {:induction false} RemoveAllAbsent(s: string, p: string)
    requires |p| > 0 && !Contains(s, p)
    ensures RemoveAll(s, p) == s
    decreases |s|
  {
    if |s| >= |p| {
      assert !OccursAt(s, p, 0);
      assert !Contains(s[1..], p) by {
        if Contains(s[1..], p) {
          var j :| 0 <= j <= |s| - 1 && OccursAt(s[1..], p, j);
          OccursInSuffix(s, p, 1, j);
        }
      }
      RemoveAllAbsent(s[1..], p);
      assert s == [s[0]] + s[1..];
    }
  }

  /** `s.split(p)` */
  function Pieces(s: string, p: string): (r: seq<string>)
    requires |p| > 0
    ensures |r| >= 1
    decreases |s|
  {
    if |s| < |p| then [s]
    else if s[..|p|] == p then [""] + Pieces(s[|p|..], p)
    else
      var rest := Pieces(s[1..], p);
      [[s[0]] + rest[0]] + rest[1..]
  }

  /** Splitting at every `p` and joining with `p` gives back the string. */
  lemma {:induction false} JoinPieces(s: string, p: string)
    requires |p| > 0
    ensures Join(p, Pieces(s, p)) == s
    decreases |s|
  {
    if |s| < |p| {
    } else if s[..|p|] == p {
      var rest := Pieces(s[|p|..], p);
      JoinPieces(s[|p|..], p);
      assert ([""] + rest)[1..] == rest;
      SplitJoin(s, |p|);
    } else {
      var rest := Pieces(s[1..], p);
      JoinPieces(s[1..], p);
      SplitJoin(s, 1);
      JoinConsFirst(s[0], rest, p);
    }
  }

  /** Prepending a character to the first piece prepends it to the join. */
  lemma JoinConsFirst(c: char, parts: seq<string>, sep: string)
    requires |parts| >= 1
    ensures Join(sep, [[c] + parts[0]] + parts[1..]) == [c] + Join(sep, parts)
  {
    var r := [[c] + parts[0]] + parts[1..];
    assert r[1..] == parts[1..];
    if |parts| > 1 {
      assert [c] + parts[0] + sep + Join(sep, parts[1..]) == [c] + (parts[0] + sep + Join(sep, parts[1..]));
    }
  }

  /** `s.replace(p, "")` is the concatenation of the pieces of `s.split(p)`,
      so together with `JoinPieces` it removes exactly the separators. */
  lemma {:induction false} RemoveAllIsConcatOfPieces(s: string, p: string)
    requires |p| > 0
    ensures RemoveAll(s, p) == Join("", Pieces(s, p))
    decreases |s|
  {
    if |s| < |p| {
    } else if s[..|p|] == p {
      var rest := Pieces(s[|p|..], p);
      RemoveAllIsConcatOfPieces(s[|p|..], p);
      assert ([""] + rest)[1..] == rest;
    } else {
      var rest := Pieces(s[1..], p);
      RemoveAllIsConcatOfPieces(s[1..], p);
      var r := [[s[0]] + rest[0]] + rest[1..];
      assert r[1..] == rest[1..];
      if |rest| == 1 {
      } else {
        assert Join("", rest) == rest[0] + "" + Join("", rest[1..]);
      }
    }
  }

  /** The paragraph filter that opens every loop: each paragraph is stripped
      and the ones that strip to nothing are skipped. */
  function Lines(ps: seq<string>): seq<string>
  {
    if |ps| == 0 then []
    else LineOf(ps[0]) + Lines(ps[1..])
  }

  /** The contribution of one paragraph: its stripped text, or nothing. */
  function LineOf(p: string): seq<string>
  {
    var line := Strip(p);
    if line == "" then [] else [line]
  }

  /** The loop every script runs over a document's paragraphs: strip each
      one, skip it when nothing is left, and hand the line to `feed`. */
  function Fold<S>(feed: (S, string) -> S, st: S, ps: seq<string>): S
    decreases |ps|
  {
    if |ps| == 0 then st
    else
      var line := Strip(ps[0]);
      Fold(feed, if line == "" then st else feed(st, line), ps[1..])
  }

  /** Feed the lines in order. */
  function FoldLines<S>(feed: (S, string) -> S, st: S, lines: seq<string>): S
    decreases |lines|
  {
    if |lines| == 0 then st else FoldLines(feed, feed(st, lines[0]), lines[1..])
  }

  /** The paragraph loop sees exactly the line stream `Lines`. */
  lemma {:induction false} FoldIsFoldLines<S>(feed: (S, string) -> S, st: S, ps: seq<string>)
    ensures Fold(feed, st, ps) == FoldLines(feed, st, Lines(ps))
    decreases |ps|
  {
    if |ps| > 0 {
      var line := Strip(ps[0]);
      var next := if line == "" then st else feed(st, line);
      FoldIsFoldLines(feed, next, ps[1..]);
      LineOfShape(ps[0]);
      FoldLinesCons(feed, st, LineOf(ps[0]), Lines(ps[1..]));
    }
  }

  lemma FoldLinesCons<S>(feed: (S, string) -> S, st: S, first: seq<string>, rest: seq<string>)
    requires |first| <= 1
    ensures FoldLines(feed, st, first + rest) ==
            FoldLines(feed, if |first| == 0 then st else feed(st, first[0]), rest)
  {
    if |first| == 0 {
      assert first + rest == rest;
    } else {
      assert (first + rest)[1..] == rest;
    }
  }

  lemma {:induction false} FoldLinesAppend<S>(feed: (S, string) -> S, st: S, a: seq<string>, b: seq<string>)
    ensures FoldLines(feed, st, a + b) == FoldLines(feed, FoldLines(feed, st, a), b)
    decreases |a|
  {
    if |a| == 0 {
      assert a + b == b;
    } else {
      assert (a + b)[0] == a[0];
      assert (a + b)[1..] == a[1..] + b;
      FoldLinesAppend(feed, feed(st, a[0]), a[1..], b);
    }
  }

  lemma LinesSingle(p: string)
    ensures Lines([p]) == LineOf(p)
  {
    assert [p][1..] == [];
  }

  /** Every line that reaches a classifier is non-empty and stripped. */
  lemma {:induction false} LinesAreStripped(ps: seq<string>)
    ensures forall i | 0 <= i < |Lines(ps)| :: Lines(ps)[i] != "" && IsStripped(Lines(ps)[i])
    decreases |ps|
  {
    if |ps| > 0 {
      LinesAreStripped(ps[1..]);
      StripStripped(ps[0]);
    }
  }

  lemma {:induction false} LinesAppend(a: seq<string>, b: seq<string>)
    ensures Lines(a + b) == Lines(a) + Lines(b)
    decreases |a|
  {
    if |a| == 0 {
      assert a + b == b;
    } else {
      assert (a + b)[0] == a[0];
      assert (a + b)[1..] == a[1..] + b;
      LinesAppend(a[1..], b);
    }
  }

  /** A whitespace-only paragraph, wherever it is inserted, leaves the line
      stream unchanged. */
  lemma BlankParagraphIgnored(ps: seq<string>, i: nat, blank: string)
    requires i <= |ps| && AllWs(blank)
    ensures Lines(ps[..i] + [blank] + ps[i..]) == Lines(ps)
  {
    SplitJoin(ps, i);
    StripEmptyIffBlank(blank);
    LinesSingle(blank);
    SkippedParagraph(ps[..i], blank, ps[i..]);
  }

  lemma SplitJoin<T>(xs: seq<T>, i: nat)
    requires i <= |xs|
    ensures xs[..i] + xs[i..] == xs
  {
  }

  lemma SkippedParagraph(pre: seq<string>, blank: string, post: seq<string>)
    requires Lines([blank]) == []
    ensures Lines(pre + [blank] + post) == Lines(pre + post)
  {
    var x := [blank] + post;
    assert pre + [blank] + post == pre + x;
    LinesAppend(pre, x);
    LinesAppend([blank], post);
    LinesAppend(pre, post);
    assert Lines(pre + x) == Lines(pre) + Lines(x);
    assert Lines(x) == Lines(post);
  }

  /** A property of every stripped paragraph holds of every line. */
  lemma {:induction false} LinesKeep(ps: seq<string>, p: string -> bool)
    requires forall j | 0 <= j < |ps| :: p(Strip(ps[j]))
    ensures forall i | 0 <= i < |Lines(ps)| :: p(Lines(ps)[i])
    decreases |ps|
  {
    if |ps| > 0 {
      var tail := ps[1..];
      assert forall j | 0 <= j < |tail| :: tail[j] == ps[j + 1];
      LinesKeep(tail, p);
      LineOfKeeps(ps[0], p);
      ConcatKeeps(LineOf(ps[0]), Lines(tail), p);
    }
  }

  lemma LineOfKeeps(x: string, p: string -> bool)
    requires p(Strip(x))
    ensures forall i | 0 <= i < |LineOf(x)| :: p(LineOf(x)[i])
  {
    LineOfShape(x);
    AtMostOneKeeps(LineOf(x), Strip(x), p);
  }

  lemma LineOfShape(x: string)
    ensures LineOf(x) == [] || LineOf(x) == [Strip(x)]
  {
  }

  lemma AtMostOneKeeps(l: seq<string>, y: string, p: string -> bool)
    requires p(y) && (l == [] || l == [y])
    ensures forall i | 0 <= i < |l| :: p(l[i])
  {
  }

  lemma ConcatKeeps(a: seq<string>, b: seq<string>, p: string -> bool)
    requires forall i | 0 <= i < |a| :: p(a[i])
    requires forall i | 0 <= i < |b| :: p(b[i])
    ensures forall i | 0 <= i < |a + b| :: p((a + b)[i])
  {
  }
}
