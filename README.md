# diff-match-patch: the diff core, modelled in Dafny

This project models the diff half of diff-match-patch, as its JavaScript port
exercises it in `tests/diff_test.js`. A diff is a sequence of operations
`Diff(op, text)` with `op` one of `Delete`, `Insert`, `Equal`. The project
covers:

- the two texts a diff rebuilds;
- the common-prefix, common-suffix and overlap searches that the diff engine
  relies on;
- line mode, which turns lines into ids and ids back into lines;
- `diff_cleanupMerge`, which coalesces runs of edits, factors out shared text
  and slides edits over their neighbouring equalities;
- `diff_cleanupEfficiency`, which folds short equalities that sit between
  edits;
- the delta format (`=n`, `-n`, `+text` tokens separated by tabs, with
  `encodeURI`-style escaping) and its parser, including its length-mismatch
  and illegal-escape errors;
- `diff_xIndex` and `diff_levenshtein`;
- `diff_bisect` and `diff_main` with their deadline.

Text is `seq<char>`. `Diff<T>` is generic so that line mode can reuse it on
sequences of line ids (`nat`).

Modules, one per file:

| file | module | what it holds |
|---|---|---|
| diffs.dfy | `Diffs` | the `Diff` datatype, `Text1`/`Text2`, the size measures, `RebuildTexts` (the loop of the test file's `diff_rebuildtexts`) |
| common.dfy | `Common` | common prefix/suffix, their line-snapped variants, common overlap |
| lines.dfy | `Lines` | line splitting, line interning (`Munge`, `Tokenize`), expansion, and the imperative `LinesToChars` / `CharsToLines` |
| merge.dfy | `Merges` | the specification of `cleanupMerge`: a first pass (`FirstPass`), a sliding pass (`SecondFrom`), and `Merge`, which repeats them |
| efficiency.dfy | `Efficiency` | the specification of `cleanupEfficiency` as a scan over a state record `Scan` |
| script.dfy | `Script` | class `EditScript`, holding the diff as a field; `CleanupMerge` and `CleanupEfficiency` rewrite it with loops, and are proved equal to the specifications |
| uri.dfy | `Uri` | `encodeURI`/`decodeURI` over UTF-8, restricted to what the delta format uses |
| delta.dfy | `Delta` | `ToDelta`, `FromDelta`, the split/join and number parsing beneath them |
| metrics.dfy | `Metrics` | `XIndex`, `Levenshtein` |
| engine.dfy | `Engine` | `Bisect`, the compute step, `DiffMain` |
| *_examples.dfy, lines_numbered.dfy | | the test cases of `tests/diff_test.js`, each proved as a lemma |

The deadline of `diff_main` / `diff_bisect` is a boolean parameter
`expired`, because the clock is outside the model.

## Model

| member | source | states |
|---|---|---|
| Diffs.RebuildTexts | tests/diff_test.js:61-74 | the loop rebuilds exactly the source text (every non-insertion) and the destination text (every non-deletion) |
| Diffs.Text1 | tests/diff_test.js:61-74 | the source text is never longer than the total text of the diff |
| Diffs.Text2 | tests/diff_test.js:61-74 | the same bound for the destination text |
| Diffs.TextsAppend | tests/diff_test.js:61-74 | both texts distribute over concatenation of diffs |
| Diffs.Text1Length | tests/diff_test.js:61-74 | the two texts' lengths add up to twice the total text minus the edited text (Equal text is counted in both) |
| Diffs.TextExample | tests/diff_test.js:472-478 | the seven-operation "jump" diff has source "jumps over the lazy" and destination "jumped over a lazy" |
| Common.CommonPrefix | tests/diff_test.js:82-92 | the result is within both lengths, both texts agree up to it, and it is maximal (the texts differ right after it, or one ends) |
| Common.CommonSuffix | tests/diff_test.js:110-120 | the mirror of the prefix contract, on the ends of the texts |
| Common.CommonOverlap | tests/diff_test.js:138-156 | the result is an overlap (a suffix of the first text equal to a prefix of the second) and no longer overlap exists |
| Common.OverlapUpTo | tests/diff_test.js:138-156 | the longest overlap not exceeding a bound, with no longer one up to the bound |
| Common.OverlapBelow | tests/diff_test.js:138-156 | when the last character of the first text does not occur in the second from position m on, the overlap is at most m |
| Common.LastLineCut | tests/diff_test.js:94-108 | snaps a length back to just after the last line break before it, with no line break between the two |
| Common.FirstLineCut | tests/diff_test.js:122-136 | the mirror of LastLineCut from the end of the text |
| Common.CommonPrefixNewLine | tests/diff_test.js:94-108 | the result never exceeds the common prefix, and both texts agree up to it |
| Common.PrefixNewLineCut | tests/diff_test.js:94-108 | the whole common prefix is kept when it is accepted whole; otherwise the result ends right after a line break (or is 0) and no line break lies between it and the common prefix |
| Common.CommonSuffixNewLine | tests/diff_test.js:122-136 | the result never exceeds the common suffix, and both texts agree over it |
| Common.SuffixNewLineCut | tests/diff_test.js:122-136 | the mirror of PrefixNewLineCut at the end of the texts |
| Common.CommonExamples | tests/diff_test.js:82-120 | the null, non-null and whole cases of the common prefix and suffix tests (0, 4, 4) |
| Common.OverlapExamples | tests/diff_test.js:140-144 | null case 0, whole case 3 |
| Common.OverlapNoneExample | tests/diff_test.js:146-147 | "123456" and "abcd" do not overlap |
| Common.OverlapSomeExample | tests/diff_test.js:149-150 | "123456xxx" and "xxxabcd" overlap by 3 |
| Common.OverlapLigatureExample | tests/diff_test.js:152-155 | the ligature U+FB01 is not treated as "fi": the overlap is 0 |
| Common.PrefixNewLineNullExample | tests/diff_test.js:96-97 | no common prefix gives 0 |
| Common.PrefixNewLineExample | tests/diff_test.js:99-100 | the prefix "12\n34" is cut back to "12\n" (3) |
| Common.PrefixNewLineMultipleExample | tests/diff_test.js:102-103 | with two line breaks the cut falls after the second (6) |
| Common.PrefixNewLineWholeExample | tests/diff_test.js:105-106 | a whole text followed by a break in the other is kept whole (4) |
| Common.PrefixNewLineWholeRejectedExample | tests/diff_test.js:107 | a whole text not followed by a break in the other is cut to 0 |
| Common.SuffixNewLineNullExample | tests/diff_test.js:124-125 | no common suffix gives 0 |
| Common.SuffixNewLineExample | tests/diff_test.js:127-128 | the common suffix "12\n34" is cut back to start at its line break: "\n34" (3) |
| Common.SuffixNewLineMultipleExample | tests/diff_test.js:130-131 | with two line breaks the cut falls at the first of them: "\n12\n34" (6) |
| Common.SuffixNewLineWholeExample | tests/diff_test.js:133-134 | a whole text preceded by a break in the other is kept whole (4) |
| Common.SuffixNewLineWholeRejectedExample | tests/diff_test.js:135 | a whole text not preceded by a break in the other is cut to 0 |
| Lines.LineLength | tests/diff_test.js:191-220 | the first line of a non-empty text is non-empty, has no inner line break and ends with its break unless it is the rest of the text |
| Lines.SplitLines | tests/diff_test.js:191-220 | the lines joined give the text back |
| Lines.SplitLinesNonEmpty | tests/diff_test.js:191-220 | no line is empty |
| Lines.Find | tests/diff_test.js:191-220 | the index of the first occurrence of a line in the table |
| Lines.Munge | tests/diff_test.js:191-220 | one id per line, and the line table only grows |
| Lines.MungeIds | tests/diff_test.js:191-220 | every id indexes the table at exactly its line |
| Lines.MungeAppend | tests/diff_test.js:191-220 | interning two texts one after the other builds the same table as interning their lines in one go |
| Lines.MungeFromEmpty | tests/diff_test.js:191-220 | from the table [""], the table becomes "" followed by the distinct lines in order of first occurrence |
| Lines.Tokenize | tests/diff_test.js:191-220 | linesToChars as a function: one id per line of each text, and a table that starts with the empty string; the table and ids are pinned down by Lines.TokenizeTable, Lines.TokenizeIds and Lines.TokenizeRoundTrip |
| Lines.TokenizeTable | tests/diff_test.js:191-220 | the table of linesToChars is "" followed by the distinct lines of both texts in first-occurrence order, with no repeats |
| Lines.TokenizeIds | tests/diff_test.js:191-220 | one id per line of each text; every id is positive and names its line in the table |
| Lines.TokenizeRoundTrip | tests/diff_test.js:191-254 | expanding either id sequence against the table gives its text back |
| Lines.ExpandIds | tests/diff_test.js:221-254 | ids that name given lines expand to those lines joined |
| Lines.ExpandAppend | tests/diff_test.js:221-254 | expansion distributes over concatenation of ids |
| Lines.ExpandDiffs | tests/diff_test.js:221-254 | charsToLines as a function: one operation out per operation in, each keeping its kind, with its ids replaced by their lines; Lines.ExpandDiffsTexts and Lines.LineModeRoundTrip give its texts |
| Lines.ExpandDiffsSnoc | tests/diff_test.js:221-254 | one more id operation adds its expansion at the end, which is the step of the charsToLines loop |
| Lines.ExpandDiffsAppend | tests/diff_test.js:221-254 | charsToLines distributes over concatenation of diffs |
| Lines.ExpandDiffsTexts | tests/diff_test.js:221-254 | the texts of the expanded diff are the expansions of the texts of the id diff |
| Lines.LineModeRoundTrip | tests/diff_test.js:191-254 | any id diff between the two id sequences expands to a diff between the original texts |
| Lines.Intern | tests/diff_test.js:191-220 | a known line gets its first index, a new one the next index; the hash map stays in step with the table |
| Lines.MungeLines | tests/diff_test.js:191-220 | the loop over a text's lines computes exactly Munge of its lines, and the hash map stays in step |
| Lines.LinesToChars | tests/diff_test.js:191-220 | the two id sequences and the table are exactly Tokenize of the two texts |
| Lines.CharsToLines | tests/diff_test.js:221-254 | the loop replaces every diff's ids by their lines: the result is ExpandDiffs |
| LinesExamples.AlphaBeta | tests/diff_test.js:198-199 | "alpha\nbeta\nalpha\n" and "beta\nalpha\nbeta\n" give ids 1,2,1 and 2,1,2 with table ["", "alpha\n", "beta\n"] |
| LinesExamples.TokenizeTwo | tests/diff_test.js:198-199 | any two texts with lines x,y,x and y,x,y get ids 1,2,1 and 2,1,2 |
| LinesExamples.CrLfExample | tests/diff_test.js:201 | an empty first text and "alpha\r\nbeta\r\n\r\n\r\n" give ids 1,2,3,3 with table ["", "alpha\r\n", "beta\r\n", "\r\n"] |
| LinesExamples.TokenizeEmptyFirst | tests/diff_test.js:201 | the general form: lines x,y,z,z against an empty text get ids 1,2,3,3 |
| LinesExamples.SingleLines | tests/diff_test.js:203 | "a" and "b" (no line break) get ids 1 and 2 |
| LinesExamples.CharsToLinesExample | tests/diff_test.js:222-225 | the diff [= 1,2,1; + 2,1,2] expands to the alpha/beta texts |
| LinesExamples.OneLine | tests/diff_test.js:203 | a non-empty text without a break is one line |
| LinesExamples.LineThen | tests/diff_test.js:198-203 | a line followed by a text splits as that line then the text's lines |
| NumberedLines.Numbered | tests/diff_test.js:205-220 | n lines, the k-th the numeral of lo + k with its line break |
| NumberedLines.SplitConcat | tests/diff_test.js:205-220 | lines joined split back into the same lines |
| NumberedLines.NumLineInjective | tests/diff_test.js:205-220 | different numbers give different lines |
| NumberedLines.MungeDistinct | tests/diff_test.js:205-220 | distinct new lines get consecutive ids in order and are appended in order |
| NumberedLines.TokenizeNumbered | tests/diff_test.js:205-220 | the lines "1\n" to "n\n" get ids 1..n for every n (so past 255 and 65535 with no wrap-around), with table "" followed by the lines |
| NumberedLines.ExpandNumbered | tests/diff_test.js:227-243 | a deletion of ids 1..n expands to the numbered lines joined, for every n |
| NumberedLines.InsertRoundTrip | tests/diff_test.js:244-253 | any text tokenized alone and expanded as an insertion comes back unchanged (the 66000-line case included) |
| Merges.Flush | tests/diff_test.js:256-327 | flushing a run before an equality leaves a non-empty result ending in an equality |
| Merges.RunTexts | tests/diff_test.js:256-327 | a run of edits with no deletions has an empty source text, with no insertions an empty destination text; its edit length is the sum of both |
| Merges.CollapsedTexts | tests/diff_test.js:256-327 | a collapsed run is at most one deletion and one insertion carrying the run's two texts |
| Merges.FlushTexts | tests/diff_test.js:256-327 | flushing a run (coalescing it and factoring out its shared prefix and suffix) keeps both texts |
| Merges.PassTexts | tests/diff_test.js:256-327 | the whole first pass keeps both texts |
| Merges.FirstPass | tests/diff_test.js:256-296 | the first loop of cleanupMerge (runs of edits gathered and flushed at each equality, a dummy equality added and a trailing empty one dropped) keeps both texts; Merges.FirstPassCoalesced and Merges.FirstPassNormal give its shape |
| Merges.FirstPassTexts | tests/diff_test.js:256-327 | the first pass of cleanupMerge keeps both texts |
| Merges.FirstPassMeasure | tests/diff_test.js:256-327 | the first pass never adds edited text, and when it removes none it does not lengthen the diff |
| Merges.CollapseFactored | tests/diff_test.js:288-296 | a run with both deletions and insertions is flushed by factoring out their shared prefix and suffix |
| Merges.NothingShared | tests/diff_test.js:283-286 | a deletion and an insertion with nothing in common at either end are left as they are |
| Merges.SlideLeftTexts | tests/diff_test.js:298-301 | sliding an edit left over the equality before it keeps both texts and the edit length |
| Merges.SlideRightTexts | tests/diff_test.js:303-306 | sliding an edit right over the equality after it keeps both texts and the edit length |
| Merges.SecondFrom | tests/diff_test.js:298-316 | the sliding pass never lengthens the diff and, when it does not shorten it, leaves it unchanged; it reports a change exactly when it shortened the diff or a change was already recorded |
| Merges.SecondTexts | tests/diff_test.js:298-316 | the sliding pass keeps both texts and the edit length |
| Merges.MergeDecreases | tests/diff_test.js:308-316 | when the sliding pass changes something, the edited text shrinks or the diff gets shorter, so the repeat terminates |
| Merges.Merge | tests/diff_test.js:256-327 | cleanupMerge: the first pass and the sliding pass, repeated while the sliding pass changes something; it keeps both texts, and Merges.MergeShape, Merges.MergeEditLen and Merges.MergeNormal give its shape |
| Merges.MergeTexts | tests/diff_test.js:256-327 | cleanupMerge keeps the source and destination texts |
| Merges.FirstPassCoalesced | tests/diff_test.js:256-296 | after the first pass every two neighbours fit: one of them is an equality, or a non-empty deletion is followed by a non-empty insertion with a different first and a different last character; so no two deletions, no two insertions and no insertion before a deletion stand together (two equalities in a row, or a lone empty edit between equalities, are not excluded) |
| Merges.SecondQuiet | tests/diff_test.js:298-316 | when the sliding pass reports no change, no edit between two equalities ends with the one before it or starts with the one after it |
| Merges.MergeShape | tests/diff_test.js:256-327 | the result of cleanupMerge is coalesced and no edit between equalities can slide any further |
| Merges.MergeEditLen | tests/diff_test.js:256-327 | cleanupMerge never adds edited text |
| Merges.FactoredMeasure | tests/diff_test.js:288-296 | factoring never adds edited text, and when it removes none the run is just collapsed |
| Merges.FlushNormal | tests/diff_test.js:263-266 | in a coalesced script without empty operations, a run of edits after an equality is one edit or a deletion and an insertion sharing no end, and flushing it writes it back unchanged |
| Merges.PassNormal | tests/diff_test.js:263-266 | from any point of a normal script (coalesced, settled, no empty operation, no two equalities in a row) the first pass writes the script back, with the dummy equality joined to a final equality or left after a final edit |
| Merges.FirstPassNormal | tests/diff_test.js:263-266 | the first pass of cleanupMerge leaves a normal script unchanged |
| Merges.SecondSettled | tests/diff_test.js:298-316 | the sliding pass changes nothing and reports no change on a script where no edit between equalities can slide |
| Merges.MergeNormal | tests/diff_test.js:263-266 | cleanupMerge leaves a normal script unchanged: on the shape it produces (minus adjacent equalities and empty operations) it is the identity |
| MergeExamples.NullCase | tests/diff_test.js:258-261 | the empty diff stays empty |
| MergeExamples.NoChange | tests/diff_test.js:263-266 | [= a, - b, + c] is unchanged |
| MergeExamples.MergeEqualities | tests/diff_test.js:268-271 | three equalities merge into "abc" |
| MergeExamples.ThreeEqualities | tests/diff_test.js:268-271 | any three equalities, the first not empty, merge into one equality carrying their texts in order |
| MergeExamples.MergeDeletions | tests/diff_test.js:273-276 | three deletions merge into "abc" |
| MergeExamples.MergeInsertions | tests/diff_test.js:278-281 | three insertions merge into "abc" |
| MergeExamples.MergeSame | tests/diff_test.js:273-281 | any three edits of one kind with some text merge into one |
| MergeExamples.Interweave | tests/diff_test.js:283-286 | alternating deletions and insertions gather into one of each, and the equalities join |
| MergeExamples.PrefixSuffix | tests/diff_test.js:288-291 | the shared "a" and "c" move out into equalities |
| MergeExamples.FactorMerge | tests/diff_test.js:293-296 | the shared text joins the neighbouring equalities "xa" and "cy" |
| MergeExamples.SlideLeft | tests/diff_test.js:298-301 | [= a, + ba, = c] becomes [+ ab, = ac] |
| MergeExamples.SlideRight | tests/diff_test.js:303-306 | [= c, + ab, = a] becomes [= ca, + ba] |
| MergeExamples.SlideLeftRecursive | tests/diff_test.js:308-311 | two slides and a merge give [- abc, = acx] |
| MergeExamples.SlideRightRecursive | tests/diff_test.js:313-316 | two slides and a merge give [= xca, - cba] |
| MergeExamples.EmptyMerge | tests/diff_test.js:318-321 | [- b, + ab, = c] becomes [+ a, = bc] |
| MergeExamples.EmptyEquality | tests/diff_test.js:323-326 | a leading empty equality disappears |
| MergeExamples.EmptyEqualityBetween | tests/diff_test.js:323-326 | an empty equality between two edits is kept by cleanupMerge: only a leading empty equality, or one joined or slid away, disappears |
| MergeExamples.EmptyEqualityKept | tests/diff_test.js:323-326 | [+ a, = "", + b] is left unchanged |
| MergeExamples.MergeAgain | tests/diff_test.js:308-316 | when the sliding pass changes the diff, cleanupMerge starts again from its result |
| MergeExamples.MergeSettles | tests/diff_test.js:256-296 | when the sliding pass changes nothing, cleanupMerge is the first pass |
| Efficiency.Start | tests/diff_test.js:430-464 | the initial scan is valid, over the given diff, with nothing changed and no remembered equality |
| Efficiency.SpliceTexts | tests/diff_test.js:430-464 | replacing an equality by a deletion and an insertion of its text keeps both texts and removes exactly one equality |
| Efficiency.Split | tests/diff_test.js:443-456 | splitting the last candidate equality into a deletion and an insertion keeps the state valid and both texts, records a change and removes exactly one equality |
| Efficiency.Step | tests/diff_test.js:430-464 | every scan step keeps the state valid and both texts, and either moves forward one operation with the script and the change flag untouched or records a change and removes an equality |
| Efficiency.Run | tests/diff_test.js:430-464 | the scan ends valid with its position past the end |
| Efficiency.RunTexts | tests/diff_test.js:430-464 | the scan keeps both texts, remembers a change once made, and changes nothing unless it records a change |
| Efficiency.Cleanup | tests/diff_test.js:430-464 | cleanupEfficiency: the scan, then cleanupMerge when the scan split something; it keeps both texts, and Efficiency.CleanupShape and Efficiency.CleanupLong give its shape |
| Efficiency.CleanupTexts | tests/diff_test.js:430-464 | cleanupEfficiency keeps the source and destination texts |
| Efficiency.CleanupShape | tests/diff_test.js:430-464 | the result is the input unchanged, or has been through cleanupMerge (coalesced and settled) |
| Efficiency.CleanupLong | tests/diff_test.js:438-441 | when every equality is at least the edit cost long, nothing changes |
| EfficiencyExamples.NullCase | tests/diff_test.js:433-436 | the empty diff stays empty |
| EfficiencyExamples.NoElimination | tests/diff_test.js:438-441 | an equality of length 4 at cost 4 stays |
| EfficiencyExamples.AroundFolded | tests/diff_test.js:443-446 | an equality shorter than the cost, with both kinds of edit on both sides, is folded into one deletion and one insertion |
| EfficiencyExamples.FourEdit | tests/diff_test.js:443-446 | "xyz" between four edits at cost 4 is folded: [- abxyzcd, + 12xyz34] |
| EfficiencyExamples.HighCost | tests/diff_test.js:458-462 | at cost 5 "wxyz" is folded too |
| EfficiencyExamples.EditsMerge | tests/diff_test.js:443-456 | a run of edits of both kinds whose deleted and inserted texts share no front and no back is merged into exactly one deletion and one insertion carrying those texts |
| EfficiencyExamples.RunEdits | tests/diff_test.js:448-456 | with no candidate equality pending, the scan passes over a tail of edits without changing the script or the change flag |
| EfficiencyExamples.ThreeFolded | tests/diff_test.js:448-451 | an equality under half the cost with one insertion before it and a deletion and an insertion after it is folded: one deletion of the equality and the deleted text, one insertion of all three inserted pieces |
| EfficiencyExamples.ThreeEdit | tests/diff_test.js:448-451 | [+ 12, = x, - cd, + 34] at cost 4 becomes [- xcd, + 12x34] |
| EfficiencyExamples.BackFolded | tests/diff_test.js:453-456 | in [- a, + b, = x, + f, = z, - c, + e], with `x` shorter than the cost but not under half of it and `z` under half the cost: splitting `z` backs the scan up to `x`, which now has edits of both kinds on both sides and is split too; when the texts share no front and no back everything folds into one deletion of a x z c and one insertion of b x f z e |
| EfficiencyExamples.Backpass | tests/diff_test.js:453-456 | [- ab, + 12, = xy, + 34, = z, - cd, + 56] at cost 4 becomes [- abxyzcd, + 12xy34z56] |
| Script.EditScript.constructor | tests/diff_test.js:256-327 | the script starts with the given diff |
| Script.EditScript.JoinRuns | tests/diff_test.js:256-296 | the in-place first loop of cleanupMerge leaves exactly FirstPass of the old diff |
| Script.EditScript.SlideEdits | tests/diff_test.js:298-316 | the in-place sliding loop leaves the diff and change flag of SecondFrom |
| Script.EditScript.CleanupMerge | tests/diff_test.js:256-327 | the in-place cleanupMerge leaves exactly Merge of the old diff |
| Script.EditScript.SlideLeft | tests/diff_test.js:298-301 | one left slide, in place, replaces three operations by two and leaves the rest |
| Script.EditScript.SlideRight | tests/diff_test.js:303-306 | one right slide, in place |
| Script.EditScript.SplitEquality | tests/diff_test.js:430-464 | the equality at an index is replaced in place by a deletion and an insertion of its text |
| Script.EditScript.CleanupEfficiency | tests/diff_test.js:430-464 | the in-place cleanupEfficiency leaves exactly Cleanup of the old diff at the given cost |
| Uri.Utf8 | tests/diff_test.js:516-526 | every character encodes in one to four bytes |
| Uri.PercentBytes | tests/diff_test.js:516-526 | every byte becomes three characters |
| Uri.HexRoundTrip | tests/diff_test.js:516-526 | the two hex digits written for a byte read back as that byte |
| Uri.ContinuationBytes | tests/diff_test.js:516-526 | every byte after the first of an encoding is a continuation byte |
| Uri.DecodeEscape | tests/diff_test.js:508-526 | a successful decode consumes at least one escape and no more than the text |
| Uri.DecodeEscapeChar | tests/diff_test.js:516-526 | the escapes of any escaped character decode to that character, consuming all of them |
| Uri.Escape | tests/diff_test.js:516-536 | encodeURI on inserted text, character by character; it never shortens a text, and Uri.UnescapeEscape, Delta.EscapeUnchanged and Delta.EscapeLength give the rest |
| Uri.Unescape | tests/diff_test.js:508-536 | decodeURI, failing on a malformed escape; it never lengthens a text and gives back a text without `%` as it is |
| Uri.EscapeAppend | tests/diff_test.js:516-536 | escaping distributes over concatenation |
| Uri.UnescapeEscape | tests/diff_test.js:516-536 | unescaping an escaped text gives it back |
| Uri.EscapeNoTab | tests/diff_test.js:480-549 | an escaped text has no tab, so it cannot break a delta token |
| Delta.Split | tests/diff_test.js:480-549 | splitting always gives at least one piece |
| Delta.SplitJoin | tests/diff_test.js:480-549 | pieces without the separator, joined and split, come back |
| Delta.JoinSplit | tests/diff_test.js:480-549 | a text split and joined comes back |
| Delta.ParseCount | tests/diff_test.js:489-506 | a count is read only from a text starting with a digit, or with a sign followed by a digit, and with a minus sign the only count read is 0 (`-0`; any other negative value is not a count) |
| Delta.ParseCountOfNat | tests/diff_test.js:480-506 | the decimal numeral of a count parses back to the count |
| Delta.TokensNoTab | tests/diff_test.js:480-549 | no delta token contains a tab |
| Delta.ToDelta | tests/diff_test.js:480-549 | toDelta: the delta of an empty diff is empty, and otherwise splits at its tabs into exactly one token per operation; Delta.DeltaRoundTrip gives the inverse |
| Delta.SplitToDelta | tests/diff_test.js:480-549 | a delta splits at its tabs into exactly its tokens |
| Delta.ReadToken | tests/diff_test.js:489-514 | a read insertion consumes nothing of the source text; a read equality or deletion takes its text from the source at the current position |
| Delta.ParseTokensText1 | tests/diff_test.js:489-549 | a successful parse from a position rebuilds the source text from that position on |
| Delta.FromDelta | tests/diff_test.js:489-549 | fromDelta: any diff it returns rebuilds the text it was given; Delta.DeltaRoundTrip and Delta.DeltaLength give when it succeeds |
| Delta.DeltaRoundTrip | tests/diff_test.js:480-549 | fromDelta of the source text and toDelta of a diff gives the diff back |
| Delta.DeltaLength | tests/diff_test.js:489-506 | fromDelta of a diff's delta succeeds exactly when the text has the diff's source length, and otherwise fails naming both lengths |
| Delta.FromDeltaText1 | tests/diff_test.js:489-549 | whatever fromDelta returns rebuilds the text it was given |
| Delta.EscapePlain | tests/diff_test.js:527-536 | a text of characters that are never escaped, and spaces, is left as it is |
| Delta.EscapeLength | tests/diff_test.js:516-536 | escaping never shortens a text, and lengthens it when some character must be escaped |
| Delta.EscapeUnchanged | tests/diff_test.js:516-536 | escaping leaves a text unchanged exactly when all its characters are passed through |
| DeltaExamples.JumpsDelta | tests/diff_test.js:480-488 | the eight-operation "jump" diff has delta "=4\t-1\t+ed\t=6\t-3\t+a\t=5\t+old dog" |
| DeltaExamples.JumpsText1 | tests/diff_test.js:480-488 | its source text is "jumps over the lazy" |
| DeltaExamples.JumpsFromDelta | tests/diff_test.js:489-490 | parsing that delta against that text gives the diff back |
| DeltaExamples.JumpsLengthMismatch | tests/diff_test.js:492-506 | against a text one character longer or shorter, the parse fails with the two lengths |
| DeltaExamples.IllegalEscapeExample | tests/diff_test.js:508-514 | the insertion "+%c3%xy" fails to parse with an illegal-escape error naming "%c3%xy" |
| DeltaExamples.EscapeMultiByteExample | tests/diff_test.js:516-526 | U+0682 escapes to its two UTF-8 bytes |
| DeltaExamples.EscapeControlExample | tests/diff_test.js:516-526 | U+0002 escapes to %02 |
| DeltaExamples.SpecialsEscape | tests/diff_test.js:516-526 | U+0682, U+0002, a backslash and a bar, separated by spaces, escape to "%DA%82 %02 %5C %7C" |
| DeltaExamples.SpecialsDelta | tests/diff_test.js:516-523 | the special-characters diff has delta "=7\t-7\t+%DA%82 %02 %5C %7C" |
| DeltaExamples.SpecialsFromDelta | tests/diff_test.js:524-526 | and parses back to the same diff |
| DeltaExamples.PoolDelta | tests/diff_test.js:527-534 | the pool of pass-through characters is inserted into the delta unescaped |
| DeltaExamples.PoolFromDelta | tests/diff_test.js:535-536 | and parses back to the same insertion |
| DeltaExamples.Doubled | tests/diff_test.js:538-546 | doubling a text n times multiplies its length by 2^n |
| DeltaExamples.LongInsertDelta | tests/diff_test.js:538-548 | the 160 kb insertion (163840 characters) has delta "+" followed by the text, and parses back to the insertion |
| Metrics.LevenshteinRun | tests/diff_test.js:560-567 | from pending counts `ins` and `del`, the scan gives at least the larger of the inserted and of the deleted totals and at most their sum |
| Metrics.Levenshtein | tests/diff_test.js:560-567 | diff_levenshtein lies between the larger of inserted and deleted text and their sum; Metrics.LevenshteinOneRun and Metrics.LevenshteinSplit give its exact value |
| Metrics.LevenshteinBounds | tests/diff_test.js:560-567 | the distance is at least the larger of inserted and deleted text, and at most their sum |
| Metrics.LevenshteinOneRun | tests/diff_test.js:560-562 | with no equality the distance is the larger of inserted and deleted text |
| Metrics.LevenshteinSplit | tests/diff_test.js:563-567 | an equality splits the distance into the sum of the two sides |
| Metrics.LevenshteinExamples | tests/diff_test.js:560-567 | the three test diffs have distances 4, 4 and 7 |
| Metrics.XIndexFrom | tests/diff_test.js:551-558 | a location at or past the scanned part of the source maps at or past the scanned part of the destination |
| Metrics.XIndexFromWithin | tests/diff_test.js:551-558 | a location inside the source text still to scan maps no further than the end of the destination text still to scan |
| Metrics.XIndex | tests/diff_test.js:551-558 | diff_xIndex maps a non-negative location to a non-negative one, and one inside the source text to one inside the destination text or at its end; Metrics.XIndexEqual, Metrics.XIndexDelete and Metrics.XIndexPast give its value |
| Metrics.XIndexEqual | tests/diff_test.js:553-554 | a location inside an equality maps to the same character in the destination text |
| Metrics.XIndexDelete | tests/diff_test.js:556-557 | a location inside a deletion maps to where the deletion sits in the destination text |
| Metrics.XIndexPast | tests/diff_test.js:551-558 | a location past the source text maps past the destination text by the same distance |
| Metrics.XIndexExamples | tests/diff_test.js:551-558 | the two test diffs map 2 to 5 and 3 to 1 |
| Engine.IndexFrom | tests/diff_test.js:582-606 | the result is -1 or the first occurrence at or after the start |
| Engine.Lcs | tests/diff_test.js:569-580 | the longest common subsequence is no longer than either text |
| Engine.Walk | tests/diff_test.js:569-577 | the comparison walk keeps exactly a longest common subsequence as its equalities; Engine.WalkTexts gives its texts |
| Engine.WalkTexts | tests/diff_test.js:569-577 | the comparison walk rebuilds both texts |
| Engine.WalkKeepsLcs | tests/diff_test.js:569-577 | the equalities of the walk are a longest common subsequence |
| Engine.Bisect | tests/diff_test.js:569-580 | bisect rebuilds both texts, and once the deadline has passed it returns one deletion and one insertion |
| Engine.InsideTexts | tests/diff_test.js:590-600 | a shorter text found inside a longer one gives edits around an equality that rebuild both texts |
| Engine.Compute | tests/diff_test.js:582-606 | the compute step (empty sides, one text inside the other, a one-character side, then bisect) rebuilds both texts |
| Engine.ComputeTexts | tests/diff_test.js:582-606 | the compute step rebuilds both texts |
| Engine.WrapTexts | tests/diff_test.js:582-606 | putting the common prefix and suffix back around a diff adds them to both texts |
| Engine.DiffMain | tests/diff_test.js:582-606 | diff_main rebuilds both texts: equal texts give one equality (nothing when empty), otherwise cleanupMerge of the computed diff; Engine.DiffMainShape gives its shape |
| Engine.DiffMainTexts | tests/diff_test.js:582-606 | diff_main rebuilds both texts, whether or not the deadline passed |
| Engine.DiffMainSame | tests/diff_test.js:584-588 | equal texts give one equality, or nothing when empty |
| Engine.DiffMainShape | tests/diff_test.js:582-606 | the result of diff_main is coalesced and settled, as cleanupMerge leaves it |
| EngineExamples.BisectNormal | tests/diff_test.js:569-577 | "cat" against "map" gives [- c, + m, = a, - t, + p] |
| EngineExamples.BisectTimeout | tests/diff_test.js:578-579 | past the deadline: [- cat, + map] |
| EngineExamples.MainNull | tests/diff_test.js:584-585 | two empty texts give the empty diff |
| EngineExamples.MainEquality | tests/diff_test.js:587-588 | "abc" against itself is one equality |
| EngineExamples.MainInsertion | tests/diff_test.js:590-591 | "abc" to "ab123c" inserts "123" |
| EngineExamples.MainDeletion | tests/diff_test.js:593-594 | "a123bc" to "abc" deletes "123" |
| EngineExamples.MainTwoInsertions | tests/diff_test.js:596-597 | "abc" to "a123b456c" inserts "123" and "456" |
| EngineExamples.MainTwoDeletions | tests/diff_test.js:599-600 | the reverse deletes them |
| EngineExamples.MainSimple | tests/diff_test.js:602-606 | "a" to "b" with the deadline off is [- a, + b] |

## Left out

- diff_halfMatch (tests/diff_test.js:158-189): the half-match speedup is not part of this model; `DiffMain` never uses it, which changes no test result of diff_main shown here.
- diff_cleanupSemantic and diff_cleanupSemanticLossless (tests/diff_test.js:329-428): not part of this model.
- diff_prettyHtml (tests/diff_test.js:466-470): HTML output is not part of this model.
- The real-diff results of diff_main (tests/diff_test.js:608-625) depend on the Myers middle-snake search, which is replaced here by a comparison walk guided by a longest common subsequence; `Engine.Bisect` is only claimed to rebuild both texts and to keep a longest common subsequence, not to match Myers' output for every input.
- The wall-clock deadline (tests/diff_test.js:627-645) is the boolean `expired`; timing is outside the model.
- Line-mode speedup inside diff_main (tests/diff_test.js:647-664): `DiffMain` runs in character mode only; line mode is modelled on its own in `Lines`.
- The null-input error of diff_main (tests/diff_test.js:666-672): Dafny strings cannot be null.
- The assertion helpers of the test file (tests/diff_test.js:20-58) are not modelled.
- Lines.CharsToLines: returns the expanded diff as a new sequence instead of rewriting the caller's array in place, because ids (`Diff<nat>`) and text (`Diff<char>`) are different types here.
- Line ids are unbounded `nat`s instead of UTF-16 characters, so no id ever wraps; `NumberedLines.TokenizeNumbered` states the 300-line and 66000-line cases for every n instead of for those two literals.
- Lines.Intern: requires a non-empty line; lines are never empty when they are interned.
- Merges.MergeShape: does not claim that cleanupMerge is idempotent or that no two equalities end up adjacent; a deletion and insertion of the same text between equalities factor into two adjacent equalities, and the algorithm leaves them. Merges.MergeNormal proves it the identity on scripts of its output shape that also have no empty operation and no two equalities in a row; idempotence on outputs that do is not proved. An empty equality survives when it is neither first, nor joined to an equality beside it, nor slid over: between two edits, as in [+ a, = "", + b] (MergeExamples.EmptyEqualityKept), it stays; only a leading empty equality, or one the first pass joins or the sliding pass absorbs, is dropped.
- Efficiency.Run: the `equalities` stack of cleanupEfficiency is a map from int, because the algorithm's stack index can drop to -1.
- Script.EditScript.CleanupEfficiency: its loop body is split into helper methods (`NoteEquality`, `NoteEdit`, `FoldCandidate`, `SplitEquality`), each proved to take one step of `Efficiency.Step`.
- Uri: `encodeURI` is modelled on Unicode code points; UTF-16 surrogate pairs, and the lone-surrogate error they can raise, are not modelled.
- Uri: the delta writer's rewriting of `%20` back to a space is modelled per character (a space is never escaped).
- Delta: a count is read as `parseInt` reads it, with an optional `+` or `-`, the leading digits, `-0` as zero and anything after the digits ignored; only the leading whitespace that `parseInt` skips is not modelled.
- Common, Delta, Metrics, Efficiency, Engine: every length and position (delta counts, `xIndex`, the Levenshtein distance, common prefix, suffix and overlap, the short-equality test of cleanupEfficiency) is counted in Unicode code points, one `char` each, not in the UTF-16 code units JavaScript counts; a character outside the Basic Multilingual Plane differs, so `[Equal "😀"]` encodes as `=2` in JavaScript and `=1` here.
- DeltaExamples.PoolDelta: the pool of pass-through characters is written as a concatenation of eight-character chunks of the same characters.
