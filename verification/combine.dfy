/**
  src/TibQA/combine_q_n_a.py: every `<base>_questions.txt` in a directory
  whose `<base>_answers.txt` also exists contributes
  min(#question lines, #answer lines) records. Each record holds the k-th
  question line and the k-th answer line, each without its leading index
  token, and the base name. The result is the list of records, the total
  record count and a per-base count.

  The directory is a map from file names to contents, together with the
  order in which the listing returns the names.
 */
module Combiner {
  import opened Wrappers
  import opened Text
  import opened Numeral

  const QuestionSuffix: string := "_questions.txt"
  const AnswerSuffix: string := "_answers.txt"

  // ---------------------------------------------------------------------
  // Reading one file.

  /** A line terminator as `readlines` sees it in universal-newlines mode. */
  predicate IsBreak(c: char) {
    c == '\n' || c == '\r'
  }

  /** The file cut at every `\n` and every `\r`. A `\r\n` pair leaves an
      empty piece between the two, and the last piece is whatever follows
      the final terminator; both are blank and never survive the filter of
      `ParseTextFile`. */
  function PhysicalLines(s: string): (r: seq<string>)
    ensures |r| >= 1
    decreases |s|
  {
    if |s| == 0 then [""]
    else if IsBreak(s[0]) then [""] + PhysicalLines(s[1..])
    else
      var rest := PhysicalLines(s[1..]);
      [[s[0]] + rest[0]] + rest[1..]
  }

  /** `parse_text_file`: the stripped non-blank lines, in file order. */
  function ParseTextFile(content: string): seq<string>
  {
    Lines(PhysicalLines(content))
  }

  /** Writing one item per line, each followed by `\n`, as the extraction
      scripts write their output files. */
  function WriteLines(items: seq<string>): string
  {
    if |items| == 0 then "" else items[0] + "\n" + WriteLines(items[1..])
  }

  predicate HasNoBreak(s: string) {
    forall i | 0 <= i < |s| :: !IsBreak(s[i])
  }

  // ---------------------------------------------------------------------
  // Pairing one question file with its answer file.

  datatype Record = Record(question: string, answer: string, filename: string)

  /** `line.split(" ", 1)[-1]`: the text after the first space, or the whole
      line when it has none. */
  function DropIndex(line: string): string
  {
    AfterFirst(line, " ")
  }

  function Min(a: nat, b: nat): nat {
    if a <= b then a else b
  }

  /** The records of one document: line k of each file, index dropped,
      for every k below both line counts. */
  function Pairs(questions: seq<string>, answers: seq<string>, base: string): (r: seq<Record>)
    ensures |r| == Min(|questions|, |answers|)
  {
    seq(Min(|questions|, |answers|),
        k requires 0 <= k < Min(|questions|, |answers|) =>
          Record(DropIndex(questions[k]), DropIndex(answers[k]), base))
  }

  // ---------------------------------------------------------------------
  // The directory.

  /** `filename.endswith("_questions.txt")` */
  predicate IsQuestionFile(name: string) {
    |QuestionSuffix| <= |name| && name[|name| - |QuestionSuffix|..] == QuestionSuffix
  }

  /** `filename.replace("_questions.txt", "")` */
  function BaseName(name: string): string
  {
    RemoveAll(name, QuestionSuffix)
  }

  function AnswerFile(name: string): string
  {
    BaseName(name) + AnswerSuffix
  }

  /** Every listed name is a file of the directory. */
  predicate Listed(listing: seq<string>, files: map<string, string>) {
    forall i | 0 <= i < |listing| :: listing[i] in files
  }

  /** A listed name that takes part: a question file whose answer file
      exists. */
  predicate Qualifies(name: string, files: map<string, string>) {
    IsQuestionFile(name) && AnswerFile(name) in files
  }

  /** One document that takes part: its base name and both files' lines. */
  datatype Doc = Doc(base: string, questions: seq<string>, answers: seq<string>)

  function DocOf(name: string, files: map<string, string>): Doc
    requires name in files && Qualifies(name, files)
  {
    Doc(BaseName(name), ParseTextFile(files[name]), ParseTextFile(files[AnswerFile(name)]))
  }

  /** The documents that take part, in listing order. */
  function Matched(listing: seq<string>, files: map<string, string>): (r: seq<Doc>)
    requires Listed(listing, files)
    ensures |r| <= |listing|
    ensures |r| == 0 <==> forall i | 0 <= i < |listing| :: !Qualifies(listing[i], files)
  {
    if |listing| == 0 then []
    else
      var last := listing[|listing| - 1];
      Matched(listing[..|listing| - 1], files)
      + (if Qualifies(last, files) then [DocOf(last, files)] else [])
  }

  /** `record_count` */
  function RecordCount(d: Doc): nat {
    Min(|d.questions|, |d.answers|)
  }

  function DocRecords(d: Doc): seq<Record> {
    Pairs(d.questions, d.answers, d.base)
  }

  /** All records: document after document, line after line. */
  function AllRecords(docs: seq<Doc>): seq<Record>
  {
    if |docs| == 0 then []
    else AllRecords(docs[..|docs| - 1]) + DocRecords(docs[|docs| - 1])
  }

  /** `total_records`: the per-document counts added up. */
  function Total(docs: seq<Doc>): nat
  {
    if |docs| == 0 then 0
    else Total(docs[..|docs| - 1]) + RecordCount(docs[|docs| - 1])
  }

  /** `file_statistics`: each document's count under its base name, a later
      document overwriting an earlier one with the same base name. */
  function Statistics(docs: seq<Doc>): map<string, nat>
  {
    if |docs| == 0 then map[]
    else Statistics(docs[..|docs| - 1])[docs[|docs| - 1].base := RecordCount(docs[|docs| - 1])]
  }

  datatype Combined = Combined(data: seq<Record>, total: nat, statistics: map<string, nat>)

  /** What the directory yields. */
  function Expected(listing: seq<string>, files: map<string, string>): Combined
    requires Listed(listing, files)
  {
    Summary(Matched(listing, files))
  }

  function Summary(docs: seq<Doc>): Combined
  {
    Combined(AllRecords(docs), Total(docs), Statistics(docs))
  }

  /** `combine_question_answer_files` once the directory is read: the outer
      loop over the listing and the inner loop over the line pairs. */
  method CombineFiles(listing: seq<string>, files: map<string, string>)
    returns (data: seq<Record>, total: nat, statistics: map<string, nat>)
    requires Listed(listing, files)
    ensures Combined(data, total, statistics) == Expected(listing, files)
    ensures total == |data|
  {
    data, total, statistics := [], 0, map[];
    var i := 0;
    while i < |listing|
      invariant i <= |listing|
      invariant Combined(data, total, statistics) == Expected(listing[..i], files)
    {
      var filename := listing[i];
      ExpectedStep(listing, files, i);
      if IsQuestionFile(filename) {
        var base := BaseName(filename);
        var answerFile := base + AnswerSuffix;
        if answerFile in files {
          var questions := ParseTextFile(files[filename]);
          var answers := ParseTextFile(files[answerFile]);
          var recordCount := Min(|questions|, |answers|);
          total := total + recordCount;
          statistics := statistics[base := recordCount];
          data := AppendPairs(data, questions, answers, base);
          assert DocOf(filename, files) == Doc(base, questions, answers);
        }
      }
      i := i + 1;
    }
    assert listing[..i] == listing;
    TotalCountsRecords(Matched(listing, files));
  }

  /** The inner loop: one record per line pair, appended in order. */
  method AppendPairs(data: seq<Record>, questions: seq<string>, answers: seq<string>, base: string)
    returns (r: seq<Record>)
    ensures r == data + Pairs(questions, answers, base)
  {
    r := data;
    var k := 0;
    while k < Min(|questions|, |answers|)
      invariant k <= Min(|questions|, |answers|)
      invariant r == data + Pairs(questions, answers, base)[..k]
    {
      r := r + [Record(DropIndex(questions[k]), DropIndex(answers[k]), base)];
      assert Pairs(questions, answers, base)[..k + 1]
          == Pairs(questions, answers, base)[..k] + [Pairs(questions, answers, base)[k]];
      k := k + 1;
    }
    assert Pairs(questions, answers, base)[..k] == Pairs(questions, answers, base);
  }

  /** One more listed name changes the result as one turn of the outer loop
      does. */
  lemma ExpectedStep(listing: seq<string>, files: map<string, string>, i: nat)
    requires Listed(listing, files) && i < |listing|
    ensures Listed(listing[..i], files) && Listed(listing[..i + 1], files)
    ensures var o, o' := Expected(listing[..i], files), Expected(listing[..i + 1], files);
            if Qualifies(listing[i], files)
            then var d := DocOf(listing[i], files);
                 o' == Combined(o.data + DocRecords(d), o.total + RecordCount(d), o.statistics[d.base := RecordCount(d)])
            else o' == o
  {
    var docs := Matched(listing[..i], files);
    MatchedStep(listing, files, i);
    if Qualifies(listing[i], files) {
      SummarySnoc(docs, DocOf(listing[i], files));
    } else {
      assert docs + [] == docs;
    }
  }

  lemma MatchedStep(listing: seq<string>, files: map<string, string>, i: nat)
    requires Listed(listing, files) && i < |listing|
    ensures Listed(listing[..i], files) && Listed(listing[..i + 1], files)
    ensures Matched(listing[..i + 1], files)
         == Matched(listing[..i], files)
            + (if Qualifies(listing[i], files) then [DocOf(listing[i], files)] else [])
  {
    var pre := listing[..i + 1];
    assert pre[..i] == listing[..i] && pre[i] == listing[i];
  }

  lemma SummarySnoc(docs: seq<Doc>, d: Doc)
    ensures var o := Summary(docs);
            Summary(docs + [d])
            == Combined(o.data + DocRecords(d), o.total + RecordCount(d), o.statistics[d.base := RecordCount(d)])
  {
    assert (docs + [d])[..|docs|] == docs;
  }

  // ---------------------------------------------------------------------
  // Lemmas.

  /** The total equals the number of records produced. */
  lemma {:induction false} TotalCountsRecords(docs: seq<Doc>)
    ensures Total(docs) == |AllRecords(docs)|
  {
    if |docs| > 0 {
      TotalCountsRecords(docs[..|docs| - 1]);
    }
  }

  /** Records of later documents come after those of earlier ones. */
  lemma {:induction false} AllRecordsAppend(a: seq<Doc>, b: seq<Doc>)
    ensures AllRecords(a + b) == AllRecords(a) + AllRecords(b)
    decreases |b|
  {
    if |b| == 0 {
      assert a + b == a;
    } else {
      var b', last := b[..|b| - 1], b[|b| - 1];
      calc {
        AllRecords(a + b);
        { assert (a + b)[..|a + b| - 1] == a + b' && (a + b)[|a + b| - 1] == last; }
        AllRecords(a + b') + DocRecords(last);
        { AllRecordsAppend(a, b'); }
        (AllRecords(a) + AllRecords(b')) + DocRecords(last);
        AllRecords(a) + (AllRecords(b') + DocRecords(last));
      }
    }
  }

  /** Every document comes from a listed question file whose answer file
      exists ... */
  lemma {:induction false} MatchedSound(listing: seq<string>, files: map<string, string>, k: nat)
    returns (i: nat)
    requires Listed(listing, files) && k < |Matched(listing, files)|
    ensures i < |listing| && Qualifies(listing[i], files)
    ensures Matched(listing, files)[k] == DocOf(listing[i], files)
  {
    var n := |listing| - 1;
    var init := listing[..n];
    MatchedStep(listing, files, n);
    assert listing[..n + 1] == listing;
    if k < |Matched(init, files)| {
      i := MatchedSound(init, files, k);
      assert init[i] == listing[i];
    } else {
      i := n;
    }
  }

  /** ... and every such file gives its document, at position `k`. */
  lemma {:induction false} MatchedComplete(listing: seq<string>, files: map<string, string>, i: nat)
    returns (k: nat)
    requires Listed(listing, files) && i < |listing| && Qualifies(listing[i], files)
    ensures k < |Matched(listing, files)| && Matched(listing, files)[k] == DocOf(listing[i], files)
  {
    var n := |listing| - 1;
    var init := listing[..n];
    MatchedStep(listing, files, n);
    assert listing[..n + 1] == listing;
    if i < n {
      assert init[i] == listing[i];
      k := MatchedComplete(init, files, i);
    } else {
      k := |Matched(init, files)|;
    }
  }

  /** Every base name with a document is a key of the statistics. */
  lemma {:induction false} StatisticsKeys(docs: seq<Doc>)
    ensures Statistics(docs).Keys == set k | 0 <= k < |docs| :: docs[k].base
  {
    if |docs| > 0 {
      var init := docs[..|docs| - 1];
      StatisticsKeys(init);
      assert forall k | 0 <= k < |init| :: init[k] == docs[k];
    }
  }

  /** The statistics hold a document's count when no later document has the
      same base name. */
  lemma {:induction false} StatisticsCount(docs: seq<Doc>, k: nat)
    requires k < |docs|
    requires forall j | k < j < |docs| :: docs[j].base != docs[k].base
    ensures docs[k].base in Statistics(docs)
    ensures Statistics(docs)[docs[k].base] == RecordCount(docs[k])
  {
    if k < |docs| - 1 {
      var init := docs[..|docs| - 1];
      assert forall j | k < j < |init| :: init[j] == docs[j];
      StatisticsCount(init, k);
    }
  }

  /** With distinct base names the statistics add up to the total. */
  lemma {:induction false} StatisticsSum(docs: seq<Doc>)
    requires forall i, j | 0 <= i < j < |docs| :: docs[i].base != docs[j].base
    ensures Total(docs) == SumOver(docs, Statistics(docs))
  {
    if |docs| > 0 {
      var init := docs[..|docs| - 1];
      var last := docs[|docs| - 1];
      StatisticsSum(init);
      SumOverUpdate(init, Statistics(init), last.base, RecordCount(last));
      StatisticsCount(docs, |docs| - 1);
    }
  }

  /** The statistics read at each document's base name, added up. */
  function SumOver(docs: seq<Doc>, stats: map<string, nat>): nat
  {
    if |docs| == 0 then 0
    else SumOver(docs[..|docs| - 1], stats)
         + (if docs[|docs| - 1].base in stats then stats[docs[|docs| - 1].base] else 0)
  }

  lemma {:induction false} SumOverUpdate(docs: seq<Doc>, stats: map<string, nat>, b: string, n: nat)
    requires forall i | 0 <= i < |docs| :: docs[i].base != b
    ensures SumOver(docs, stats[b := n]) == SumOver(docs, stats)
  {
    if |docs| > 0 {
      SumOverUpdate(docs[..|docs| - 1], stats, b, n);
    }
  }

  /** A question file named `<base>_questions.txt`, the base not holding the
      suffix, has base name `<base>` and is paired with `<base>_answers.txt`. */
  lemma BaseNameReadsBack(base: string)
    requires !Contains(base, QuestionSuffix)
    ensures IsQuestionFile(base + QuestionSuffix)
    ensures BaseName(base + QuestionSuffix) == base
    ensures AnswerFile(base + QuestionSuffix) == base + AnswerSuffix
  {
    var s := base + QuestionSuffix;
    assert s[|s| - |QuestionSuffix|..] == QuestionSuffix;
    RemoveTrailing(base, QuestionSuffix);
  }

  /** Removing every occurrence of `p` from `b + p` gives `b`, when `b`
      holds no `p` and the first letter of `p` occurs nowhere else in it. */
  lemma {:induction false} RemoveTrailing(b: string, p: string)
    requires |p| > 0 && !Contains(b, p)
    requires forall j | 0 < j < |p| :: p[j] != p[0]
    ensures RemoveAll(b + p, p) == b
    decreases |b|
  {
    var s := b + p;
    if |b| == 0 {
      assert s == p && s[|p|..] == "";
    } else {
      assert s[..|p|] != p by {
        if |b| >= |p| {
          assert s[..|p|] == b[..|p|];
          assert !OccursAt(b, p, 0);
        } else {
          assert s[|b|] == p[0];
        }
      }
      assert !Contains(b[1..], p) by {
        forall i | 0 <= i <= |b[1..]|
          ensures !OccursAt(b[1..], p, i)
        {
          assert !OccursAt(b, p, i + 1);
          if i + |p| <= |b[1..]| {
            assert b[1..][i..i + |p|] == b[i + 1..i + 1 + |p|];
          }
        }
      }
      RemoveTrailing(b[1..], p);
      assert s[1..] == b[1..] + p;
      assert [s[0]] + b[1..] == b;
    }
  }

  /** A physical line without a terminator is cut off at the `\n` after it. */
  lemma {:induction false} PhysicalLinesCons(line: string, rest: string)
    requires HasNoBreak(line)
    ensures PhysicalLines(line + "\n" + rest) == [line] + PhysicalLines(rest)
    decreases |line|
  {
    var s := line + "\n" + rest;
    if |line| == 0 {
      assert s[1..] == rest;
    } else {
      assert s[1..] == line[1..] + "\n" + rest;
      PhysicalLinesCons(line[1..], rest);
      assert [s[0]] + line[1..] == line;
    }
  }

  /** Lines written one per row, each non-empty, stripped and without a line
      terminator, are read back unchanged. */
  lemma {:induction false} ReadBackWritten(items: seq<string>)
    requires forall i | 0 <= i < |items| :: |items[i]| > 0 && IsStripped(items[i]) && HasNoBreak(items[i])
    ensures ParseTextFile(WriteLines(items)) == items
  {
    if |items| == 0 {
      assert Strip("") == "" by { StripExact("", "", ""); }
      assert [""][1..] == [];
    } else {
      var l := items[0];
      ReadBackWritten(items[1..]);
      PhysicalLinesCons(l, WriteLines(items[1..]));
      var pl := [l] + PhysicalLines(WriteLines(items[1..]));
      assert pl[1..] == PhysicalLines(WriteLines(items[1..]));
      StripExact("", l, "");
      assert "" + l + "" == l;
      assert items == [l] + items[1..];
    }
  }

  /** A line written as an index token, a space and a text loses exactly the
      token. */
  lemma DropIndexOfEntry(n: nat, text: string)
    ensures DropIndex(Bracketed(n) + " " + text) == text
  {
    IndexTokensHaveNoSpace(n);
    AfterFirstChar(Bracketed(n), ' ', text);
  }

  /** Entries numbered from 1 as the extraction scripts write them: the
      bracketed Tibetan index, a space and the text. */
  function Indexed(texts: seq<string>): (r: seq<string>)
    ensures |r| == |texts|
  {
    seq(|texts|, k requires 0 <= k < |texts| => Bracketed(k + 1) + " " + texts[k])
  }

  /** Files written by the extraction scripts pair up line by line: the
      k-th record holds the k-th question and the k-th answer. */
  lemma PairsReadBack(qs: seq<string>, ans: seq<string>, base: string)
    ensures var r := Pairs(Indexed(qs), Indexed(ans), base);
            && |r| == Min(|qs|, |ans|)
            && forall k | 0 <= k < |r| :: r[k] == Record(qs[k], ans[k], base)
  {
    var iq, ia := Indexed(qs), Indexed(ans);
    var r := Pairs(iq, ia, base);
    forall k | 0 <= k < |r|
      ensures r[k] == Record(qs[k], ans[k], base)
    {
      assert r[k] == Record(DropIndex(iq[k]), DropIndex(ia[k]), base);
      DropIndexOfEntry(k + 1, qs[k]);
      DropIndexOfEntry(k + 1, ans[k]);
    }
  }
}
