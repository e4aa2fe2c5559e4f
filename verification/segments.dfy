/**
  The reference segmentation the paragraph loops are measured against: a line
  stream cut at every "head" line into a preamble (the lines before the first
  head) and groups (a head line with the non-head lines that follow it).
  The loops never build this structure; it is the independent description
  their results are proved equal to.
 */
module Segments {

  datatype Group = Group(head: string, body: seq<string>)

  datatype Segmentation = Segmentation(preamble: seq<string>, groups: seq<Group>)

  /** The two parallel lists every script returns. */
  datatype Output = Output(questions: seq<string>, answers: seq<string>)

  /** A record a loop has closed: the number it was given, its head text and
      the lines collected under it. The scripts format records into strings
      only when producing their output lists. */
  datatype Entry = Entry(number: nat, head: string, body: seq<string>)

  /** The groups as records numbered consecutively from `c`. */
  function NumberFrom(c: nat, gs: seq<Group>): seq<Entry>
    decreases |gs|
  {
    if |gs| == 0 then [] else [Entry(c, gs[0].head, gs[0].body)] + NumberFrom(c + 1, gs[1..])
  }

  /** The k-th record is the k-th group, numbered `c + k`. */
  lemma {:induction false} NumberFromShape(c: nat, gs: seq<Group>)
    ensures |NumberFrom(c, gs)| == |gs|
    ensures forall k | 0 <= k < |gs| :: NumberFrom(c, gs)[k] == Entry(c + k, gs[k].head, gs[k].body)
    decreases |gs|
  {
    if |gs| > 0 {
      NumberFromShape(c + 1, gs[1..]);
      var es := NumberFrom(c, gs);
      forall k | 1 <= k < |gs|
        ensures es[k] == Entry(c + k, gs[k].head, gs[k].body)
      {
        assert es[k] == NumberFrom(c + 1, gs[1..])[k - 1];
        assert gs[1..][k - 1] == gs[k];
      }
    }
  }

  lemma NumberFromCons(c: nat, g: Group, gs: seq<Group>)
    ensures NumberFrom(c, [g] + gs) == [Entry(c, g.head, g.body)] + NumberFrom(c + 1, gs)
  {
    assert ([g] + gs)[1..] == gs;
  }

  /** The lines of the groups, in order. */
  function Flatten(gs: seq<Group>): seq<string>
  {
    if |gs| == 0 then [] else [gs[0].head] + gs[0].body + Flatten(gs[1..])
  }

  predicate NoHead(lines: seq<string>, isHead: string -> bool)
  {
    forall i | 0 <= i < |lines| :: !isHead(lines[i])
  }

  /** Heads exactly where the groups start, nowhere else. */
  predicate WellFormed(seg: Segmentation, isHead: string -> bool)
  {
    && NoHead(seg.preamble, isHead)
    && forall k | 0 <= k < |seg.groups| ::
         isHead(seg.groups[k].head) && NoHead(seg.groups[k].body, isHead)
  }

  /** The line stream a segmentation was cut from. */
  function Unsplit(seg: Segmentation): seq<string>
  {
    seg.preamble + Flatten(seg.groups)
  }

  /** Cut `lines` at its head lines. */
  function Split(lines: seq<string>, isHead: string -> bool): (seg: Segmentation)
    ensures WellFormed(seg, isHead)
    ensures Unsplit(seg) == lines
    decreases |lines|
  {
    if |lines| == 0 then Segmentation([], [])
    else
      var rest := Split(lines[1..], isHead);
      ConsLineWellFormed(lines[0], rest, isHead);
      ConsLineUnsplit(lines[0], rest, isHead);
      Uncons(lines);
      ConsLine(lines[0], rest, isHead)
  }

  /** Put one more line in front of a segmentation: a head opens a new group
      holding the old preamble, any other line joins the preamble. */
  function ConsLine(line: string, rest: Segmentation, isHead: string -> bool): Segmentation
  {
    if isHead(line) then Segmentation([], [Group(line, rest.preamble)] + rest.groups)
    else Segmentation([line] + rest.preamble, rest.groups)
  }

  lemma ConsLineWellFormed(line: string, rest: Segmentation, isHead: string -> bool)
    requires WellFormed(rest, isHead)
    ensures WellFormed(ConsLine(line, rest, isHead), isHead)
  {
    var seg := ConsLine(line, rest, isHead);
    if isHead(line) {
      forall k | 0 <= k < |seg.groups|
        ensures isHead(seg.groups[k].head) && NoHead(seg.groups[k].body, isHead)
      {
        if k > 0 {
          assert seg.groups[k] == rest.groups[k - 1];
        }
      }
    } else {
      forall i | 0 <= i < |seg.preamble|
        ensures !isHead(seg.preamble[i])
      {
        if i > 0 {
          assert seg.preamble[i] == rest.preamble[i - 1];
        }
      }
    }
  }

  lemma ConsLineUnsplit(line: string, rest: Segmentation, isHead: string -> bool)
    ensures Unsplit(ConsLine(line, rest, isHead)) == [line] + Unsplit(rest)
  {
    if isHead(line) {
      var g := Group(line, rest.preamble);
      FlattenCons(g, rest.groups);
      assert [] + Flatten([g] + rest.groups) == [line] + (rest.preamble + Flatten(rest.groups));
    } else {
      assert ([line] + rest.preamble) + Flatten(rest.groups) == [line] + (rest.preamble + Flatten(rest.groups));
    }
  }

  lemma Uncons<T>(xs: seq<T>)
    requires |xs| > 0
    ensures xs == [xs[0]] + xs[1..]
  {
  }

  lemma ConsAppend<T>(x: T, a: seq<T>, b: seq<T>)
    ensures [x] + (a + b) == ([x] + a) + b
  {
  }

  lemma AppendAssoc<T>(a: seq<T>, b: seq<T>, c: seq<T>)
    ensures a + b + c == a + (b + c)
  {
  }

  lemma FlattenCons(g: Group, gs: seq<Group>)
    ensures Flatten([g] + gs) == [g.head] + g.body + Flatten(gs)
  {
    assert ([g] + gs)[1..] == gs;
  }

  /** How `Split` treats the first line. */
  lemma SplitCons(line: string, tail: seq<string>, isHead: string -> bool)
    ensures Split([line] + tail, isHead) == ConsLine(line, Split(tail, isHead), isHead)
  {
    assert ([line] + tail)[1..] == tail;
  }

  /** The cut is the only well-formed one: any preamble and groups that
      flatten back to `lines` with heads exactly at group starts are `Split`'s. */
  lemma {:induction false} SplitUnique(lines: seq<string>, isHead: string -> bool, seg: Segmentation)
    requires WellFormed(seg, isHead)
    requires Unsplit(seg) == lines
    ensures seg == Split(lines, isHead)
    decreases |lines|
  {
    if |lines| == 0 {
      assert seg.preamble == [] && seg.groups == [];
    } else {
      var line, tail := Uncut(seg, isHead);
      assert [line] + Unsplit(tail) == [lines[0]] + lines[1..];
      assert line == lines[0] && Unsplit(tail) == lines[1..];
      SplitUnique(lines[1..], isHead, tail);
    }
  }

  /** A non-empty well-formed segmentation is one line put in front of a
      smaller well-formed one. */
  lemma Uncut(seg: Segmentation, isHead: string -> bool) returns (line: string, tail: Segmentation)
    requires WellFormed(seg, isHead) && |Unsplit(seg)| > 0
    ensures WellFormed(tail, isHead) && seg == ConsLine(line, tail, isHead)
    ensures Unsplit(seg) == [line] + Unsplit(tail)
  {
    if |seg.preamble| > 0 {
      line, tail := seg.preamble[0], Segmentation(seg.preamble[1..], seg.groups);
      assert seg.preamble == [line] + tail.preamble;
      assert !isHead(line);
      assert WellFormed(tail, isHead) by {
        forall i | 0 <= i < |tail.preamble|
          ensures !isHead(tail.preamble[i])
        {
          assert tail.preamble[i] == seg.preamble[i + 1];
        }
      }
    } else {
      var g := seg.groups[0];
      line, tail := g.head, Segmentation(g.body, seg.groups[1..]);
      assert seg.groups == [g] + tail.groups;
      assert WellFormed(tail, isHead) by {
        forall k | 0 <= k < |tail.groups|
          ensures isHead(tail.groups[k].head) && NoHead(tail.groups[k].body, isHead)
        {
          assert tail.groups[k] == seg.groups[k + 1];
        }
      }
    }
    ConsLineUnsplit(line, tail, isHead);
  }

  /** How many lines satisfy `p`. */
  function Count(lines: seq<string>, p: string -> bool): nat
  {
    if |lines| == 0 then 0 else (if p(lines[0]) then 1 else 0) + Count(lines[1..], p)
  }

  /** How many groups have a head satisfying `p`. */
  function CountGroups(gs: seq<Group>, p: string -> bool): nat
  {
    if |gs| == 0 then 0 else (if p(gs[0].head) then 1 else 0) + CountGroups(gs[1..], p)
  }

  /** A property implying headship is counted the same on the lines and on
      the group heads: every such line opens a group. */
  lemma {:induction false} CountGroupHeads(lines: seq<string>, isHead: string -> bool, p: string -> bool)
    requires forall l :: p(l) ==> isHead(l)
    ensures CountGroups(Split(lines, isHead).groups, p) == Count(lines, p)
    decreases |lines|
  {
    if |lines| > 0 {
      CountGroupHeads(lines[1..], isHead, p);
      var rest := Split(lines[1..], isHead);
      if isHead(lines[0]) {
        var gs := [Group(lines[0], rest.preamble)] + rest.groups;
        assert gs[1..] == rest.groups;
      }
    }
  }

  /** There are as many groups as head lines. */
  lemma SplitCount(lines: seq<string>, isHead: string -> bool)
    ensures |Split(lines, isHead).groups| == Count(lines, isHead)
  {
    CountGroupHeads(lines, isHead, isHead);
    AllGroupsCounted(Split(lines, isHead), isHead);
  }

  lemma {:induction false} AllGroupsCounted(seg: Segmentation, isHead: string -> bool)
    requires WellFormed(seg, isHead)
    ensures CountGroups(seg.groups, isHead) == |seg.groups|
    decreases |seg.groups|
  {
    if |seg.groups| > 0 {
      var tail := Segmentation([], seg.groups[1..]);
      assert WellFormed(tail, isHead) by {
        forall k | 0 <= k < |tail.groups|
          ensures isHead(tail.groups[k].head) && NoHead(tail.groups[k].body, isHead)
        {
          assert tail.groups[k] == seg.groups[k + 1];
        }
      }
      AllGroupsCounted(tail, isHead);
    }
  }

  /** Lines with no head in them form a preamble and nothing else. */
  lemma {:induction false} SplitHeadless(lines: seq<string>, isHead: string -> bool)
    requires NoHead(lines, isHead)
    ensures Split(lines, isHead) == Segmentation(lines, [])
    decreases |lines|
  {
    if |lines| > 0 {
      SplitHeadless(lines[1..], isHead);
      assert lines == [lines[0]] + lines[1..];
    }
  }

  /** A headless prefix only lengthens the preamble. */
  lemma {:induction false} SplitAfterHeadless(pre: seq<string>, lines: seq<string>, isHead: string -> bool)
    requires NoHead(pre, isHead)
    ensures Split(pre + lines, isHead).groups == Split(lines, isHead).groups
    ensures Split(pre + lines, isHead).preamble == pre + Split(lines, isHead).preamble
    decreases |pre|
  {
    if |pre| == 0 {
      assert pre + lines == lines;
    } else {
      var x, tail := pre[0], pre[1..];
      assert NoHead(tail, isHead) by {
        forall i | 0 <= i < |tail|
          ensures !isHead(tail[i])
        {
          assert tail[i] == pre[i + 1];
        }
      }
      SplitAfterHeadless(tail, lines, isHead);
      Uncons(pre);
      ConsAppend(x, tail, lines);
      SplitCons(x, tail + lines, isHead);
      ConsAppend(x, tail, Split(lines, isHead).preamble);
    }
  }
}
