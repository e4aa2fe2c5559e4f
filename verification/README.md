# TibQA question/answer extraction, modelled in Dafny

TibQA turns Tibetan question-and-answer documents into two parallel lists: the
questions and the answers. Each list is renumbered from 1, with Tibetan
numerals in most scripts and Arabic digits in `qa_4.py` and `qa_5.py`. The
lists of many documents are then combined into one corpus. Each source
document family has its own conventions, so there is one extraction script per
family. Every script walks the paragraphs of a document:

- it strips each paragraph and skips blank ones;
- it decides whether the line opens a question, opens an answer or continues
  the open one;
- it closes a record when the next one starts, and at the end.

This project models those scripts as pure functions over the paragraph texts
and proves what each one produces.

| file | module | models |
|---|---|---|
| `wrappers.dfy` | `Wrappers` | `Option` |
| `text.dfy` | `Text` | `str.strip`, `str.isspace`, `in`, `split(sep, 1)`, `replace(p, "")`, `join`, and the shared "strip, skip blank, feed" paragraph loop |
| `numeral.dfy` | `Numeral` | the index encoders (`str(n)` mapped through `༠…༩`, with and without `༽`) and their decoders |
| `segments.dfy` | `Segments` | cutting a line stream at its head lines into a preamble and groups, with the numbered records and the output pair |
| `qa2.dfy` | `LeadingNumeral` | `src/TibQA/qa_2.py` |
| `qa3.dfy` | `NumeralKeyword` | `src/TibQA/qa_3.py` |
| `qa4.dfy` | `GlyphPhrase` | `src/TibQA/qa_4.py` |
| `qa5.dfy` | `AlphabetMarker` | `src/TibQA/qa_5.py` |
| `qa6.dfy` | `BracketNumeral` | `src/TibQA/qa_6.py` |
| `qa7.dfy` | `DottedIndex` | `src/TibQA/qa_7.py` |
| `qa.dfy` | `RegexPairs` | `src/TibQA/qa.py`: the paragraph join, the `re.findall` pair regex, the cleaner and the entry format |
| `html.dfy` | `HtmlSpans` | `src/TibQA/html_parser.py`: the classification and indexing of span texts |
| `combine.dfy` | `Combiner` | `src/TibQA/combine_q_n_a.py`: reading the output files, pairing and counting |

Every line-based script is proved equal to a reference definition, in a
lemma usually named `ClosedAre…`. The reference cuts the stripped,
non-blank lines at the script's head lines (`Segments.Split`) and numbers
the groups. `ParseContents` then states the script's output entry by entry.
Three more properties are proved for each script:

- whitespace-only paragraphs change nothing;
- a preamble before the first head line is dropped, where the script
  drops it;
- the typical layout of a line reads back to its text.

The `qa.py` regex is modelled as Python's backtracking engine would run it.
The derivation is in the header of `qa.dfy`.

Where the code and the documented intent differ, the model follows the code:

- `combine_q_n_a.py` drops the index token by splitting on the space
  character only. It does not split on any whitespace.
- `qa.py` writes one space between the bracketed index and the text, since the
  bracket is already part of the index. Its entries end in a blank line.
- `html_parser.py` writes one entry per line, without a blank line between
  entries.
- `qa_4.py` and `qa_5.py` number with Arabic digits (`f"{counter}༽ "`), not
  Tibetan ones.

## Model

| member | source | states |
|---|---|---|
| Text.StripShape | src/TibQA/qa_2.py:70 | `strip()` returns a middle part of the line, with only whitespace on either side of it, and that part neither starts nor ends with whitespace |
| Text.StripExact | src/TibQA/qa_3.py:46 | whatever stripped core sits between two whitespace runs is exactly what `strip()` returns |
| Text.StripIdempotent | src/TibQA/qa_4.py:43 | stripping a stripped text changes nothing |
| Text.StripEmptyIffBlank | src/TibQA/qa_2.py:70-72 | a paragraph is skipped exactly when it is whitespace only |
| Text.WsEndIff | src/TibQA/qa.py:36 | the greedy `\s*` takes every whitespace character of the run and stops at the first other one |
| Text.AfterSepFound | src/TibQA/qa_4.py:41-42 | `text.split(sep, 1)` has a second part exactly when `sep in text` |
| Text.AfterFirstChar | src/TibQA/combine_q_n_a.py:39-42 | for a one-character separator, `split(sep, 1)` cuts at its first occurrence and `[-1]` is everything after it |
| Text.AfterFirstAbsent | src/TibQA/combine_q_n_a.py:39-42 | without the separator, `split(sep, 1)[-1]` is the whole line |
| Text.RemoveAllAbsent | src/TibQA/html_parser.py:38 | `replace(p, "")` leaves a text without `p` unchanged |
| Text.RemoveAllIsConcatOfPieces | src/TibQA/html_parser.py:38 | `replace(p, "")` is the concatenation of the pieces between the occurrences of `p` |
| Text.JoinPieces | src/TibQA/html_parser.py:38 | the pieces between the occurrences of `p`, joined with `p`, give back the text |
| Text.LinesAreStripped | src/TibQA/qa_2.py:69-72 | every line that reaches a classifier is non-empty and stripped |
| Text.FoldIsFoldLines | src/TibQA/qa_3.py:65-70 | the paragraph loop is the same loop run on the stripped non-blank lines |
| Text.BlankParagraphIgnored | src/TibQA/qa_5.py:42-45 | a whitespace-only paragraph, inserted anywhere, leaves the line stream unchanged |
| Numeral.DigitEndIff | src/TibQA/qa_3.py:18 | the greedy `[༠-༩]+` run is made of digits only and takes all of them |
| Numeral.DropDigitRun | src/TibQA/qa_2.py:49 | removing the anchored digit run from digits followed by a non-digit leaves that rest |
| Numeral.ValueOfDigits | src/TibQA/qa_2.py:40-42 | the digits `str(n)` writes denote `n` |
| Numeral.DigitsOfValue | src/TibQA/qa_2.py:40-42 | every canonical digit string is what `str` writes for its value |
| Numeral.UnspellSpell | src/TibQA/qa_7.py:91-96 | mapping digits through a ten-letter alphabet of distinct letters can be read back |
| Numeral.TibetanShape | src/TibQA/qa_7.py:91-96 | the Tibetan numeral has one Tibetan digit per decimal digit, digit for digit, and no leading zero |
| Numeral.TibetanRoundTrip | src/TibQA/qa_2.py:37-44 | decoding the Tibetan numeral of `n` gives `n` |
| Numeral.TibetanOfDecoded | src/TibQA/qa_3.py:34-41 | every canonical Tibetan numeral is the encoding of its value |
| Numeral.TibetanInjective | src/TibQA/qa_6.py:70-73 | different counters get different numerals |
| Numeral.DecimalRoundTrip | src/TibQA/qa_4.py:116 | the Arabic index reads back to the counter |
| Numeral.BracketedReadsBack | src/TibQA/qa.py:7-10 | the index is the counter's Tibetan digits followed by exactly one `༽`, and decodes back to the counter |
| Numeral.IndexTokensHaveNoSpace | src/TibQA/html_parser.py:5-13 | no index token holds a space, and the scripts' `f"{tib}༽ "` prefix is the bracketed index and a space |
| Segments.SplitUnique | src/TibQA/qa_2.py:75-90 | the cut at head lines is the only preamble-and-groups layout that flattens back to the lines with a head exactly at each group start |
| Segments.SplitCount | src/TibQA/qa_2.py:75-86 | there are as many groups as head lines |
| Segments.CountGroupHeads | src/TibQA/qa_4.py:71-84 | a property implying headship counts the same on the lines and on the group heads |
| Segments.SplitHeadless | src/TibQA/qa_5.py:63-69 | lines without a head line are all preamble |
| Segments.SplitAfterHeadless | src/TibQA/qa_2.py:86-93 | a headless prefix only lengthens the preamble and leaves the groups unchanged |
| Segments.NumberFromShape | src/TibQA/qa_2.py:85 | the k-th record is the k-th group, numbered consecutively |
| LeadingNumeral.DuplicateNumberAt | src/TibQA/qa_2.py:20 | a match of `༽\s*[༠-༩]+\s*` starts at a `༽` and is at least a bracket and a digit long |
| LeadingNumeral.DuplicateNumberMatches | src/TibQA/qa_2.py:19-20 | there is a match at the front exactly when `༽` is followed by whitespace and then a digit; the match covers only whitespace and digits and ends before the next non-whitespace character |
| LeadingNumeral.CollapseDuplicateNumbers | src/TibQA/qa_2.py:51 | the substitution never lengthens the text and leaves bracket-free text unchanged |
| LeadingNumeral.CollapseRewrites | src/TibQA/qa_2.py:19-20 | `༽`, its whitespace, a digit run and the whitespace after it become exactly `༽ `, and the rest of the text is scanned on its own |
| LeadingNumeral.CollapseKeepsBracket | src/TibQA/qa_2.py:19-20 | a `༽` whose whitespace is not followed by a digit is kept, and the scan resumes at the next character |
| LeadingNumeral.CleanQuestionDropsNumber | src/TibQA/qa_2.py:46-52 | a question line made of digits, a gap and stripped, bracket-free text that does not start with a digit cleans down to that text |
| LeadingNumeral.CleanQuestionDropsDuplicate | src/TibQA/qa_2.py:46-52 | a `༡༽ ༡ text` line loses its leading number, and the repeated number after `༽` collapses to one space: the result is `༽ text`, or `༽` when no text follows |
| LeadingNumeral.CleanQuestionStripped | src/TibQA/qa_2.py:51 | the cleaned question never starts or ends with whitespace |
| LeadingNumeral.NoBracketUnchanged | src/TibQA/qa_2.py:51 | stripped text without `༽` passes the second substitution and strip unchanged |
| LeadingNumeral.DropNumberThenGap | src/TibQA/qa_2.py:49 | the leading digit run, and only it, is removed |
| LeadingNumeral.CleanAnswerLineDropsPrefix | src/TibQA/qa_2.py:124-128 | an answer line that starts with `ལན། ` loses exactly that prefix, and any other line is kept as it is |
| LeadingNumeral.Format | src/TibQA/qa_2.py:118-134 | one question and one answer per record |
| LeadingNumeral.FeedMatchesGroups | src/TibQA/qa_2.py:69-90 | from any loop state, the loop closes the groups of the rest of the stream after the open record |
| LeadingNumeral.QuestionCloses | src/TibQA/qa_2.py:75-87 | a question line closes the open record with the next counter and opens its own group |
| LeadingNumeral.OtherLineJoins | src/TibQA/qa_2.py:88-90 | any other line joins the open record's answer lines |
| LeadingNumeral.ClosedAreGroups | src/TibQA/qa_2.py:63-100 | the records the loop closes are the question-line groups numbered from 1 |
| LeadingNumeral.ParseContents | src/TibQA/qa_2.py:54-103 | one pair per question line; pair k is numbered k+1 and holds the cleaned question and the joined, cleaned answer lines of group k |
| LeadingNumeral.FormatNumbered | src/TibQA/qa_2.py:105-134 | the formatted lists hold one pair per group, numbered from 1 |
| LeadingNumeral.FormatNumberedAt | src/TibQA/qa_2.py:118-134 | entry k of each list is `Header(k+1)` and the cleaned text of group k |
| LeadingNumeral.PreambleDiscarded | src/TibQA/qa_2.py:86-93 | lines before the first question line are never written |
| LeadingNumeral.BlankParagraphsIgnored | src/TibQA/qa_2.py:70-72 | inserting a whitespace-only paragraph anywhere changes nothing |
| NumeralKeyword.AnswerContentOfLine | src/TibQA/qa_3.py:90-99 | a line of `ལན།`, a gap and stripped text opens the answer and adds exactly that text; a line not starting with `ལན།` is added unchanged |
| NumeralKeyword.CleanQuestionDropsNumber | src/TibQA/qa_3.py:43-47 | a question made of digits, a gap and stripped text that does not start with a digit cleans down to that text |
| NumeralKeyword.ExtendIsJoin | src/TibQA/qa_3.py:97-99 | the question grown line by line is the lines joined by single spaces |
| NumeralKeyword.Divide | src/TibQA/qa_3.py:88-99 | every line between two question lines goes to the question or to the answer, and none to the question once the answer is open |
| NumeralKeyword.DivideCutsAtFirstAnswer | src/TibQA/qa_3.py:88-99 | the question part is the lines before the first `ལན།` line, and the answer part is that line and all lines after it |
| NumeralKeyword.Pairs | src/TibQA/qa_3.py:75-85 | written pairs are numbered consecutively, and each has a non-empty list of answer lines (one of them may be the empty text of a bare `ལན།` line) |
| NumeralKeyword.ExpectedNumbered | src/TibQA/qa_3.py:63-85 | the reference numbers its pairs 1, 2, …, each with a non-empty list of answer lines |
| NumeralKeyword.QuestionCloses | src/TibQA/qa_3.py:73-89 | a question line writes the open pair if it is complete, and starts the next one |
| NumeralKeyword.GroupCloses | src/TibQA/qa_3.py:73-99 | the stretch a question line opens is written as its group's pair, or carried on when it has no answer yet |
| NumeralKeyword.OtherLineFiled | src/TibQA/qa_3.py:90-99 | any other line is filed where `Divide` files it |
| NumeralKeyword.FeedMatchesPairs | src/TibQA/qa_3.py:65-99 | from any loop state, the loop writes the reference's pairs for the rest of the stream |
| NumeralKeyword.ClosedArePairs | src/TibQA/qa_3.py:58-109 | the loop writes exactly the reference's pairs |
| NumeralKeyword.ParseContents | src/TibQA/qa_3.py:49-112 | at most one pair more than there are question lines; pair k is numbered k+1 and holds the cleaned question and a non-empty list of answer lines, joined by newlines |
| NumeralKeyword.BlankParagraphsIgnored | src/TibQA/qa_3.py:66-70 | inserting a whitespace-only paragraph anywhere changes nothing |
| GlyphPhrase.CleanQuestionAfterShey | src/TibQA/qa_4.py:38-42 | everything up to the first `།` is dropped, and only that |
| GlyphPhrase.CleanQuestionWithoutShey | src/TibQA/qa_4.py:41-43 | a question without `།` keeps all its text, stripped |
| GlyphPhrase.CleanAnswerDropsPhrase | src/TibQA/qa_4.py:45-48 | an answer phrase, a gap and stripped text make an answer start and clean down to the text |
| GlyphPhrase.Keep | src/TibQA/qa_4.py:73-81 | the written records are numbered consecutively and have non-empty questions |
| GlyphPhrase.KeepCounts | src/TibQA/qa_4.py:73-84 | one record per question line whose cleaned text is non-empty |
| GlyphPhrase.QuestionCloses | src/TibQA/qa_4.py:71-84 | a question line closes the open record and opens one with its cleaned text |
| GlyphPhrase.OtherLineJoins | src/TibQA/qa_4.py:86-91 | any other line joins the open answer, cleaned as an answer line |
| GlyphPhrase.FeedMatchesKeep | src/TibQA/qa_4.py:65-91 | from any loop state, the loop writes the reference's records for the rest of the stream |
| GlyphPhrase.ClosedAreKept | src/TibQA/qa_4.py:59-101 | the loop writes exactly the reference's records |
| GlyphPhrase.ParseContents | src/TibQA/qa_4.py:50-104 | one pair per question line with a non-empty cleaned question; pair k is numbered k+1 in Arabic digits |
| GlyphPhrase.PreambleDiscarded | src/TibQA/qa_4.py:73-84 | lines before the first question line are never written |
| GlyphPhrase.BlankParagraphsIgnored | src/TibQA/qa_4.py:66-68 | inserting a whitespace-only paragraph anywhere changes nothing |
| AlphabetMarker.MarkerIsOneLetter | src/TibQA/qa_5.py:15 | on a stripped line, `^[ཀ-ཨ]\s*$` matches exactly a single letter alone |
| AlphabetMarker.CleanQuestionDropsMarker | src/TibQA/qa_5.py:93-97 | a marker followed by a stripped question line gives exactly that line |
| AlphabetMarker.CleanQuestionMarkerOnly | src/TibQA/qa_5.py:93-97 | a marker with no question line after it gives an empty question |
| AlphabetMarker.PairOf | src/TibQA/qa_5.py:61-69 | the marker and the line after it form the question, and the remaining lines form the answer |
| AlphabetMarker.PairsFromAt | src/TibQA/qa_5.py:50-61 | pair k is group k's, numbered consecutively |
| AlphabetMarker.MarkerCloses | src/TibQA/qa_5.py:47-61 | a marker closes the open pair and opens its own |
| AlphabetMarker.OtherLineFiled | src/TibQA/qa_5.py:63-69 | any other line is filed where the reference files it |
| AlphabetMarker.FeedMatchesPairs | src/TibQA/qa_5.py:42-69 | from any loop state, the loop writes the reference's pairs for the rest of the stream |
| AlphabetMarker.ClosedArePairs | src/TibQA/qa_5.py:36-79 | the loop writes exactly the reference's pairs |
| AlphabetMarker.ParseContents | src/TibQA/qa_5.py:27-105 | one pair per marker line; pair k is numbered k+1 and made from group k |
| AlphabetMarker.PreambleDiscarded | src/TibQA/qa_5.py:63-69 | lines before the first marker are never written |
| AlphabetMarker.BlankParagraphsIgnored | src/TibQA/qa_5.py:43-45 | inserting a whitespace-only paragraph anywhere changes nothing |
| BracketNumeral.MarkerAtShape | src/TibQA/qa_6.py:12-14 | a match of `༼\s*([༠-༩]+)\s*༽` is the open bracket, whitespace, digits, whitespace and the close bracket |
| BracketNumeral.MarkerAtMatches | src/TibQA/qa_6.py:12-14 | everything of that form is a match, up to its close bracket |
| BracketNumeral.FindMarkerFound | src/TibQA/qa_6.py:33 | the search reports a match, and no match starts earlier |
| BracketNumeral.FindMarkerNone | src/TibQA/qa_6.py:33 | when the search reports nothing, no match starts anywhere |
| BracketNumeral.HasMarkerIff | src/TibQA/qa_6.py:33-34 | a line is a question line exactly when a match starts somewhere in it |
| BracketNumeral.OpenTextOfNumberedLine | src/TibQA/qa_6.py:46-50 | a line that begins with its bracketed number leaves the text after it |
| BracketNumeral.TshegSeesText | src/TibQA/qa_6.py:48-51 | the index written in front of the question never decides whether it continues |
| BracketNumeral.ContinueShape | src/TibQA/qa_6.py:51-56 | the question takes a prefix of the following lines joined by spaces, each taken only while the question ends with a tsheg, and the rest go to the answer |
| BracketNumeral.PairsContents | src/TibQA/qa_6.py:33-56 | record k is group k's, indexed consecutively; only the first record can receive the lines before the first question |
| BracketNumeral.PairsNumbered | src/TibQA/qa_6.py:44 | the records are indexed consecutively |
| BracketNumeral.MarkerCloses | src/TibQA/qa_6.py:34-50 | a question line closes the open record and opens the next one, with its index |
| BracketNumeral.OtherLineFiled | src/TibQA/qa_6.py:51-56 | any other line is filed where the reference files it |
| BracketNumeral.FeedMatchesPairs | src/TibQA/qa_6.py:27-56 | from any loop state, the loop writes the reference's records for the rest of the stream |
| BracketNumeral.ClosedArePairs | src/TibQA/qa_6.py:21-64 | the loop writes exactly the reference's records |
| BracketNumeral.ParseContents | src/TibQA/qa_6.py:17-64 | one pair per question line; pair k holds the indexed question and the index k+1 with the stripped joined answer |
| BracketNumeral.BareMarkerStaysAlone | src/TibQA/qa_6.py:47-53 | a question line holding only its bracket never absorbs the next line |
| BracketNumeral.BareMarkerQuestion | src/TibQA/qa_6.py:47-50 | its question is the index alone |
| BracketNumeral.BlankParagraphsIgnored | src/TibQA/qa_6.py:28-31 | inserting a whitespace-only paragraph anywhere changes nothing |
| DottedIndex.DecimalDigits | src/TibQA/qa_7.py:32 | ASCII and Tibetan digits are both `\d`, and the dot is not |
| DottedIndex.DottedLine | src/TibQA/qa_7.py:32-39 | digits, a dot and text make a question start, whose text is the stripped rest |
| DottedIndex.QuestionStartShape | src/TibQA/qa_7.py:32 | every question start is a digit run followed by a dot |
| DottedIndex.DecimalEndRun | src/TibQA/qa_7.py:32 | the greedy `\d+` run consists of digits |
| DottedIndex.AnswerLine | src/TibQA/qa_7.py:44-53 | an answer line with the keyword once, in front, keeps the stripped text after it |
| DottedIndex.TextsAt | src/TibQA/qa_7.py:35-61 | the k-th text is the k-th group's |
| DottedIndex.HeadCloses | src/TibQA/qa_7.py:33-53 | a start line closes the list's open entry and opens the next |
| DottedIndex.OtherLineFiled | src/TibQA/qa_7.py:55-61 | any other line is filed where the reference files it |
| DottedIndex.RunMatchesTexts | src/TibQA/qa_7.py:25-61 | from any state, each list's track collects the reference entries of the rest of the stream |
| DottedIndex.TrackCollects | src/TibQA/qa_7.py:25-67 | a track run from idle collects exactly the reference entries |
| DottedIndex.FeedIsTwoSteps | src/TibQA/qa_7.py:32-61 | one loop step moves each list as its own track would, and the two flags are never both set |
| DottedIndex.LoopIsTwoRuns | src/TibQA/qa_7.py:25-61 | the loop is the two tracks run side by side |
| DottedIndex.ListsAreCollected | src/TibQA/qa_7.py:17-67 | the two lists are the two reference collections |
| DottedIndex.ParseContents | src/TibQA/qa_7.py:17-86 | as many questions as dotted lines and as many answers as `ལན།` lines, each entry numbered from 1 |
| DottedIndex.ParseLists | src/TibQA/qa_7.py:76-86 | the two files render the two collected lists |
| DottedIndex.CollectedCount | src/TibQA/qa_7.py:32-53 | one entry per start line of the list |
| DottedIndex.CollectedAt | src/TibQA/qa_7.py:32-67 | entry k is group k's text |
| DottedIndex.EntryReadsBack | src/TibQA/qa_7.py:79-80 | the token before an entry's first space decodes to its position, and the text follows it |
| DottedIndex.BlankParagraphsIgnored | src/TibQA/qa_7.py:26-29 | inserting a whitespace-only paragraph anywhere changes nothing |
| RegexPairs.FindIff | src/TibQA/qa.py:36 | the search answers `j` exactly when the mark occurs at `j` and nowhere between the start and `j` |
| RegexPairs.FindNone | src/TibQA/qa.py:36 | the search answers nothing exactly when the mark does not occur from the start on |
| RegexPairs.OccurrencesStep | src/TibQA/qa.py:36 | each occurrence found counts once, and there are none past the last |
| RegexPairs.OccurrencesPassed | src/TibQA/qa.py:39 | moving past an occurrence leaves fewer occurrences |
| RegexPairs.TailEndIff | src/TibQA/qa.py:36 | the lazy answer group stops at the first place where `(?=དྲི་བ།\|$)` holds |
| RegexPairs.FirstSpotFinds | src/TibQA/qa.py:36 | a match has marks exactly when both searches succeed, and they are where the searches find them |
| RegexPairs.FirstSpotLeftmost | src/TibQA/qa.py:36-39 | the match starts at the leftmost opening mark from the search position, and its middle mark is the first after it |
| RegexPairs.HitGroups | src/TibQA/qa.py:36 | the whitespace runs are taken whole, group 1 is stripped of them, and group 2 runs to the first lookahead position |
| RegexPairs.MatchesCons | src/TibQA/qa.py:39 | `findall` goes on from where the previous match ended |
| RegexPairs.MatchesNone | src/TibQA/qa.py:39 | nothing is found exactly when one of the two searches fails |
| RegexPairs.MatchesEmpty | src/TibQA/qa.py:39 | nothing is found exactly when no question mark is followed by an answer mark |
| RegexPairs.MatchesBound | src/TibQA/qa.py:39 | there are never more matches than occurrences of `དྲི་བ།` |
| RegexPairs.SqueezeSpaces | src/TibQA/qa.py:15 | after `re.sub(r"\s+", " ", …)` every whitespace character is a single space between non-spaces |
| RegexPairs.SqueezeFixed | src/TibQA/qa.py:15 | text that is already single-spaced is left alone |
| RegexPairs.CleanTidy | src/TibQA/qa.py:13-16 | the cleaner's output has no whitespace at the ends and no whitespace but single spaces |
| RegexPairs.CleanFixedIff | src/TibQA/qa.py:13-16 | the cleaner leaves a text unchanged exactly when it is already tidy |
| RegexPairs.CleanIdempotent | src/TibQA/qa.py:13-16 | cleaning twice is cleaning once |
| RegexPairs.CleanKeepsText | src/TibQA/qa.py:13-16 | cleaning only touches whitespace: every other character is kept, in order |
| RegexPairs.KeptIsNonBlank | src/TibQA/qa.py:28 | without blank paragraphs, the filter keeps every paragraph |
| RegexPairs.KeptSingle | src/TibQA/qa.py:28 | a paragraph is kept, unstripped, exactly when it is not whitespace only |
| RegexPairs.KeptAppend | src/TibQA/qa.py:28 | the filter works paragraph by paragraph, in order |
| RegexPairs.BlankParagraphsIgnored | src/TibQA/qa.py:28-29 | inserting a whitespace-only paragraph anywhere changes nothing |
| RegexPairs.Entries | src/TibQA/qa.py:50-62 | both lists have one entry per match |
| RegexPairs.ParseContents | src/TibQA/qa.py:28-62 | both files have one entry per match, never more than there are question marks; entry k carries index k+1 and the tidy cleaned group |
| RegexPairs.BlockMatch | src/TibQA/qa.py:36 | in a pair written as `དྲི་བ། q` and `ལན། a` paragraphs, the first match from its mark is found at that pair's two marks |
| RegexPairs.BlockQuestion | src/TibQA/qa.py:36 | that match's group 1 is the pair's question |
| RegexPairs.BlockAnswer | src/TibQA/qa.py:36 | its group 2 is the pair's answer, with the newline before the next pair |
| RegexPairs.MatchesWritten | src/TibQA/qa.py:36-39 | the regex reads a written document back group by group |
| RegexPairs.WrittenMatches | src/TibQA/qa.py:28-39 | the regex finds exactly the written pairs in the joined document |
| RegexPairs.WrittenPairsReadBack | src/TibQA/qa.py:28-62 | a document written pair by pair comes back as exactly those pairs, renumbered from 1 |
| RegexPairs.CapturedAnswerClean | src/TibQA/qa.py:56 | the cleaner drops the newline a captured answer may end with |
| HtmlSpans.ParseHtml | src/TibQA/html_parser.py:24-49 | the loop produces the reference lists: the answers and questions each numbered from 1 in page order, by independent counters; together they hold one entry per span |
| HtmlSpans.ExpectedSnoc | src/TibQA/html_parser.py:30-47 | one more paragraph changes the lists as one turn of the loop does |
| HtmlSpans.SelectedPartition | src/TibQA/html_parser.py:36-47 | every present span lands in exactly one of the two lists |
| HtmlSpans.MissingSpansIgnored | src/TibQA/html_parser.py:31-32 | paragraphs without a `span0` span never influence the result |
| HtmlSpans.NoMarkNoAnswers | src/TibQA/html_parser.py:36 | with no `ལན།` on the page every span is a question and there are no answers |
| HtmlSpans.QuestionTextIsAfterFirst | src/TibQA/html_parser.py:44 | the `" " in content` guard is redundant: the split alone gives the whole text when there is no space |
| HtmlSpans.QuestionSpanReadsBack | src/TibQA/html_parser.py:33-44 | a question span written as a number token, a space and the question gives back exactly the question |
| HtmlSpans.AnswerSpanReadsBack | src/TibQA/html_parser.py:33-38 | an answer span written as `ལན།`, a space and an answer without the mark gives back exactly the answer |
| HtmlSpans.EntryReadsBack | src/TibQA/html_parser.py:39-45 | every entry splits at its first space into the index token, which decodes to the counter, and the text |
| HtmlSpans.AnswersStripped | src/TibQA/html_parser.py:38 | answers never start or end with whitespace |
| Combiner.ReadBackWritten | src/TibQA/combine_q_n_a.py:5-9 | lines written one per row, each non-empty, stripped and free of line breaks, are read back unchanged |
| Combiner.PhysicalLinesCons | src/TibQA/combine_q_n_a.py:8 | a line without a terminator is cut off at the `\n` after it |
| Combiner.Pairs | src/TibQA/combine_q_n_a.py:31-38 | a document gives min(#question lines, #answer lines) records |
| Combiner.CombineFiles | src/TibQA/combine_q_n_a.py:12-51 | the two loops produce the reference records, total and statistics, and the total equals the number of records |
| Combiner.AppendPairs | src/TibQA/combine_q_n_a.py:38-49 | the inner loop appends the document's records in line order |
| Combiner.ExpectedStep | src/TibQA/combine_q_n_a.py:18-49 | one more listed name changes the result as one turn of the outer loop does |
| Combiner.TotalCountsRecords | src/TibQA/combine_q_n_a.py:32-49 | the total equals the number of records produced |
| Combiner.AllRecordsAppend | src/TibQA/combine_q_n_a.py:18-49 | the records of later documents come after those of earlier ones |
| Combiner.Matched | src/TibQA/combine_q_n_a.py:18-25 | no more documents than listed names, and nothing is combined exactly when no listed name is a question file whose answer file exists |
| Combiner.MatchedSound | src/TibQA/combine_q_n_a.py:19-28 | every combined document comes from a listed question file whose answer file exists |
| Combiner.MatchedComplete | src/TibQA/combine_q_n_a.py:19-28 | every listed question file whose answer file exists is combined |
| Combiner.StatisticsKeys | src/TibQA/combine_q_n_a.py:35 | the statistics have a key for exactly the base names of the combined documents |
| Combiner.StatisticsCount | src/TibQA/combine_q_n_a.py:31-35 | a base name maps to its document's count when no later document has the same base name |
| Combiner.StatisticsSum | src/TibQA/combine_q_n_a.py:32-35 | with distinct base names, the statistics add up to the total |
| Combiner.BaseNameReadsBack | src/TibQA/combine_q_n_a.py:19-22 | `<base>_questions.txt`, with the suffix absent from the base, has base name `<base>` and is paired with `<base>_answers.txt` |
| Combiner.RemoveTrailing | src/TibQA/combine_q_n_a.py:21 | removing every `p` from `b + p` gives `b` when `b` holds no `p` and `p`'s first letter occurs only at its start |
| Combiner.DropIndexOfEntry | src/TibQA/combine_q_n_a.py:39-42 | a line written as an index token, a space and a text loses exactly the token |
| Combiner.PairsReadBack | src/TibQA/combine_q_n_a.py:38-48 | files written by the extraction scripts pair up line by line: record k holds question k, answer k and the base name |

## Left out

- Reading the documents is not modelled: `docx.Document`, BeautifulSoup parsing and the `span0` lookup are replaced by their results. Those results are the paragraph texts and, for the HTML page, each paragraph's first span text or `None`.
- Writing is not modelled, apart from the entry strings the scripts build: no `open`/`write`/`writelines`, no `mkdir`, no `json.dump`, no upload. `pushing_data_to_hugging_hub.py` is not part of this model.
- The directory is not read either. `os.listdir` and `os.path.exists` become a given name order and a map from names to contents, and the listing order is whatever is given.
- Logging, `print` and the debug output are left out, because they do not affect the results.
- The `try`/`except` around the `qa.py` extraction, which returns 0 on any error, is left out. Negative counters, where the encoders would raise, are also left out: every counter starts at 1.
- The `\r\n` newline pair splits into two pieces in `Combiner.PhysicalLines`. Python's universal newlines would give one. The extra piece is empty and is dropped by the blank-line filter, so `ParseTextFile` is unaffected.
- Combiner.StatisticsCount: it is stated only for a base name that no later document shares. Two question files can share a base name, as in `a_questions.txt` and `a_questions.txt_questions.txt`. In that case the later count overwrites the earlier one, and the statistics no longer add up to the total.
- HtmlSpans.AnswerSpanReadsBack: it requires the answer text not to contain `ལན།`. `replace` removes the mark everywhere, so such an answer would not come back unchanged.
- LeadingNumeral.DuplicateNumberAt: its own contract bounds the match length only. Which text matches, and where the match ends, is stated by `LeadingNumeral.DuplicateNumberMatches`.
- LeadingNumeral.CollapseDuplicateNumbers: its own contract gives only the length bound and the bracket-free case. What the substitution writes at each `༽` is stated by `LeadingNumeral.CollapseRewrites` and `LeadingNumeral.CollapseKeepsBracket`.
