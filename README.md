# A verified model of the text and bookkeeping core of the official-document writing tutor

The tutor is a React application for practising Chinese official-document writing. This
project models in Dafny the parts of it that do real work on text and on counters, and proves
what those parts promise.

- **Plain-text import** (`src/lib/textImport.ts`).
  - Byte-order-mark and heuristic encoding sniffing.
  - File validation.
  - Paragraph reconstruction from hard-wrapped lines.
  - Noise cleaning and paragraph splitting.
  - The single-file import as a result datatype (`Imported | Failed`).
  - The batch import loop with its progress snapshots.
  - The statistics, preview, merge, filter and sort utilities.
- **Week-1 pinyin memory** (`src/lib/week1Memory.ts`).
  - The quiz key.
  - Recording one quiz attempt (item and pair counters, streak, due time).
  - The top wrong words.
  - The due items.
- **Week-2 vocabulary memory** (`src/lib/week2Memory.ts`).
  - A class whose methods update the vocabulary and the capped study history in place.
  - The review list.
- **Typing drill** (`src/pages/Week1.tsx`).
  - The typing session as a class: input, timer, finish, reset, level switch, answer-once quiz recording.
  - The completion rule, the error-count loop, the integer accuracy and the `mm:ss` clock.
- **Blank practice** (`src/pages/Week2.tsx`).
  - The blank-resolution cascade of `renderPracticeText`.
  - Full-width digit normalisation and hint cleanup.
  - The answer check and the scenario check.
  - The keyword split, the vocabulary lines and the merged word list.
- **Report draft** (`src/pages/Week6.tsx`): the initial tab and the draft written out from an outline.
- **Lead paragraph** (`src/pages/Week5.tsx`): the full text, its length and the four threshold checks.
- **AI text** (`src/lib/ai.ts`).
  - Provider configuration and the missing-configuration guards.
  - The cleanup of generated text.
  - The fence stripping and unwrapping of quiz replies.

Characters are UTF-16 code units, as JavaScript's `length` and indexing count them. One
whitespace predicate, `Strings.IsWS`, is JavaScript's `WhiteSpace` plus `LineTerminator`. It
covers U+3000 and the other Unicode spaces, and it is used for `trim`, `\s` and `[^\S\n]` alike.
JavaScript's stable `Array.prototype.sort` with a numeric comparator is `Sorting.SortBy`, a
stable insertion sort.

Loops in the source become methods proved equal to a recursive function that defines the result. The
properties are then proved about that function. These methods are:

- `EncodingDetection.DetectEncoding`;
- `Preprocess.MergeParagraphs`;
- `TextImport.ImportMultipleFiles`;
- `Week1Memory.CollectWords`;
- `TypingDrill.CountErrors`;
- `BlankPractice.RenderPracticeText`;
- `ReportDraft.InitialDraft`.

Two objects whose fields the source updates are classes:

- `Week2Memory.Memory`;
- `TypingDrill.TypingSession`. React's batched `setState` calls are applied as sequential field
  updates that read the state from before the handler.

## Model

| member | source | states |
|---|---|---|
| EncodingDetection.DetectEncoding | src/lib/textImport.ts:41-92 | The scanning loop computes the specified answer. The byte-order marks take precedence in the order UTF-8, UTF-16LE, UTF-16BE. Without one, GBK is reported exactly when a non-ASCII byte was seen and the GBK score is strictly higher. |
| EncodingDetection.ScanTurn | src/lib/textImport.ts:55-81 | One turn of the scanning loop moves past a matched two- or three-byte UTF-8 sequence and adds the sequence length, 2 or 3, to the UTF-8 score. It adds 2 to the GBK score when a lead byte from 0x81 to 0xFE is followed by a trail byte, looked up after the UTF-8 skip. |
| EncodingDetection.AfterUtf8Test | src/lib/textImport.ts:62-74 | After the UTF-8 test the index has moved past a matched two- or three-byte sequence by at most 2, and stays inside the buffer. |
| EncodingDetection.Step | src/lib/textImport.ts:56-83 | One loop turn always advances the index, by 1 to 3 positions. |
| EncodingDetection.HeuristicAnswers | src/lib/textImport.ts:85-91 | Without a byte-order mark the answer is UTF-8 or GBK, and a score tie gives UTF-8. |
| EncodingDetection.ScanAsciiIff | src/lib/textImport.ts:52-59 | The ASCII flag survives the scan exactly when every byte in the window is at most 0x7F. |
| EncodingDetection.ScanStaysNonAscii | src/lib/textImport.ts:59 | Once a non-ASCII byte is seen the flag never comes back. |
| EncodingDetection.AsciiWindowIsUtf8 | src/lib/textImport.ts:54-85 | A buffer whose first 5000 bytes are ASCII is UTF-8, whatever follows. |
| EncodingDetection.OnlyWindowMatters | src/lib/textImport.ts:54-78 | Only the first 5003 bytes influence the answer: the 5000-byte window plus the look-ahead. |
| EncodingDetection.GbkTestReadsPastSequence | src/lib/textImport.ts:63-79 | After a matched UTF-8 sequence the GBK test reads the byte after the sequence. The example C3 A9 20 81 40 gives equal scores and UTF-8. |
| TextImport.ValidateFileSize | src/lib/textImport.ts:183-191 | Valid exactly when size ≤ 10·1024·1024. Otherwise the error names the file. |
| TextImport.ValidateFileType | src/lib/textImport.ts:193-205 | Valid exactly when the lower-cased name ends in one of the eight extensions. Otherwise the type error names the file. |
| TextImport.AnyExtension | src/lib/textImport.ts:196 | The `some` loop is true exactly when some listed extension from the given index on ends the name. |
| TextImport.UpperCaseExtensionAccepted | src/lib/textImport.ts:195 | The name is lower-cased first, so `A.TXT` is valid. |
| TextImport.ValidationComesFirst | src/lib/textImport.ts:225-241 | An oversize file fails with the size error and a bad type with the type error, before any read. Size is checked first. |
| TextImport.ImportedTextShape | src/lib/textImport.ts:243-309 | A successful import keeps the name and size, and its paragraphs are the split of its content. Its counts match its content and paragraphs. It passed both validations and reported the progress values 10, 30, 60, 80, 95, 100 in order. |
| TextImport.ImportedDocxEncoding | src/lib/textImport.ts:257-261 | A `.docx` import is labelled `DOCX`. |
| TextImport.ImportedDetectedEncoding | src/lib/textImport.ts:266-269 | Any other import is labelled with the detected encoding of its bytes. |
| TextImport.FailureAfterValidation | src/lib/textImport.ts:311-318 | A failure after validation carries the file name and the caught message, with `导入失败: ` before it. Only 10, or 10 and 30, were reported. |
| TextImport.ImportedParagraphs | src/lib/textImport.ts:278 | Every stored paragraph is non-empty, trimmed and has no blank line, and together they keep every non-whitespace character of the content. |
| TextImport.ImportMultipleFiles | src/lib/textImport.ts:322-359 | Each file adds exactly one entry, in input order, to `success` or `failed`, so the two lengths add up to the file count. In every snapshot `processed` is `success + failed` and at most the total, and it never decreases from one snapshot to the next. The last snapshot shows every file processed. |
| TextImport.CountRun | src/lib/textImport.ts:338-355 | One turn of the loop adds the file's outcome to exactly one of the two lists and bumps the matching counter. `processed` goes up by one. The snapshots it reports stay coherent, never move `processed` back, and end with the updated counters. |
| TextImport.ImportAll | src/lib/textImport.ts:337-356 | One run per file. |
| TextImport.PartitionCounts | src/lib/textImport.ts:346-352 | Successes and failures partition the runs. |
| TextImport.RunsSnoc | src/lib/textImport.ts:346-352 | One more file appends its result to exactly one of the two lists. |
| TextImport.SnapshotsOkMeaning | src/lib/textImport.ts:339-355 | Every snapshot is within bounds, and `processed` never decreases along the snapshots. |
| TextImport.SuccessesOfBatch | src/lib/textImport.ts:342-348 | A file that imports on its own appears among the batch's successes: a failing file never stops later ones. |
| TextImport.BatchConsistent | src/lib/textImport.ts:291-303 | Every text of a batch has its counts equal to its content's length and its paragraph list's length. |
| TextImport.CalculateImportStats | src/lib/textImport.ts:361-378 | The total is successes plus failures, and each equals its list's length. |
| TextImport.StatsCountTexts | src/lib/textImport.ts:365-366 | The character and paragraph totals are sums of the stored counts. |
| TextImport.BatchStats | src/lib/textImport.ts:361-378 | For a batch, the totals are the content lengths and paragraph counts of the imported texts. |
| TextImport.PreviewText | src/lib/textImport.ts:398-401 | A short text is returned unchanged. A longer one is its first `maxLength` characters (none when negative) followed by `...`. |
| TextImport.MergeLength | src/lib/textImport.ts:403-405 | The merged length is the total content length plus one separator between neighbours. |
| TextImport.MergeSplitsBack | src/lib/textImport.ts:403-405 | With a one-character separator absent from the contents, splitting the merge gives back the contents. |
| TextImport.FilterKeepsMatches | src/lib/textImport.ts:407-413 | A text is kept exactly when its lower-cased content or name contains the lower-cased keyword. |
| TextImport.FilterPreservesOrder | src/lib/textImport.ts:409 | Kept texts keep their relative order. |
| TextImport.EmptyKeywordKeepsAll | src/lib/textImport.ts:407-413 | The empty keyword keeps every text. |
| TextImport.FullWidthCaseIgnored | src/lib/textImport.ts:407-413 | Case is ignored beyond ASCII: the keyword `ａ` finds a text holding `Ａ`. |
| TextImport.SortTextsByDateOrders | src/lib/textImport.ts:415-420 | The result is a permutation, ordered by import time in the requested direction, with ties in their original order. |
| TextImport.SortTextsBySizeOrders | src/lib/textImport.ts:422-427 | The same for file size. |
| Sorting.SortBySorted | src/lib/textImport.ts:416-419 | The comparator sort orders by its key in the requested direction. |
| Sorting.SortByStable | src/lib/textImport.ts:416-419 | Elements with equal keys keep their relative order. |
| Sorting.SortBy | src/lib/textImport.ts:416 | The sort is a permutation of its input. |
| Preprocess.NormalizeNewlines | src/lib/textImport.ts:106 | After the two replacements no carriage return is left. |
| Preprocess.NormalizeCrLf | src/lib/textImport.ts:106 | A carriage return followed by a line feed becomes one line feed. |
| Preprocess.NormalizeLoneCr | src/lib/textImport.ts:106 | A carriage return not followed by a line feed becomes one line feed. |
| Preprocess.NormalizeOther | src/lib/textImport.ts:106 | Any other character is kept, in place. |
| Preprocess.NormalizeCrFree | src/lib/textImport.ts:106 | Text without a carriage return is unchanged. |
| Preprocess.Lines | src/lib/textImport.ts:110 | No line holds a line feed. |
| Preprocess.MergeParagraphs | src/lib/textImport.ts:111-140 | The line-walking loop produces exactly the specified paragraphs. |
| Preprocess.ParagraphsWellFormed | src/lib/textImport.ts:114-140 | Every paragraph is non-empty, trimmed and on one line. Together the paragraphs are the trimmed lines run together, so nothing is lost or reordered. |
| Preprocess.BlankLineFlushes | src/lib/textImport.ts:116-121 | A blank line flushes a non-empty buffer and leaves nothing open. |
| Preprocess.IndentStartsParagraph | src/lib/textImport.ts:125-129 | An indented line, read with a non-empty buffer, flushes the buffer and opens a new one with its trimmed text. |
| Preprocess.SentenceEndFlushes | src/lib/textImport.ts:135-138 | A line ending in sentence-final punctuation closes the paragraph that ends with it. |
| Preprocess.WrappedLinesRejoin | src/lib/textImport.ts:131 | Unindented lines are glued together without a separator until a line ends a sentence. |
| Preprocess.IndentedLineSplits | src/lib/textImport.ts:125-129 | An indented second line starts a second paragraph. |
| Preprocess.MidLineFullStopKeepsParagraph | src/lib/textImport.ts:135 | Only line ends are tested: `甲。乙` stays one paragraph. |
| Preprocess.CollapseBlanks | src/lib/textImport.ts:145 | Collapsing maps the empty text to itself, and a non-empty text's first character to a space when blank. |
| Preprocess.CollapseRun | src/lib/textImport.ts:145 | A run of blanks between non-blank characters, or at either end, becomes exactly one space, and the text on both sides is collapsed on its own. |
| Preprocess.CollapseAfterNonBlank | src/lib/textImport.ts:145 | Collapsing distributes over a cut after a non-blank character. |
| Preprocess.CollapseShape | src/lib/textImport.ts:145 | After collapsing, the only blank character is the space and no two blanks are adjacent. |
| Preprocess.CollapseJoin | src/lib/textImport.ts:142-145 | Collapsing acts paragraph by paragraph on the joined text. |
| Preprocess.LimitJoin | src/lib/textImport.ts:148 | On one-line paragraphs joined by a blank line the newline limit changes nothing. |
| Preprocess.PreprocessStructure | src/lib/textImport.ts:99-151 | The result is the merged paragraphs, each collapsed and still well formed, joined by `\n\n`. |
| Preprocess.PreprocessNoCr | src/lib/textImport.ts:106 | The result has no carriage return. |
| Preprocess.PreprocessNoDoubleBlank | src/lib/textImport.ts:145 | The result never has two whitespace characters other than line feeds side by side. |
| Preprocess.PreprocessNoTripleNewline | src/lib/textImport.ts:148-150 | The result has no run of three line feeds and nothing to trim. |
| Preprocess.PreprocessKeepsVisible | src/lib/textImport.ts:99-151 | Preprocessing only moves whitespace: the non-whitespace characters come out in the same order. |
| Cleaning.RemoveControls | src/lib/textImport.ts:164 | No character of the listed control ranges is left. |
| Cleaning.RemoveControlsKeepsOthers | src/lib/textImport.ts:164 | Only characters are removed, and text with no control character is unchanged. |
| Cleaning.RemoveControlsCount | src/lib/textImport.ts:164 | Every character outside the control ranges, tab, line feed and carriage return among them, occurs as often after the removal as before. |
| Cleaning.RemoveControlsAppend | src/lib/textImport.ts:164 | The removal distributes over concatenation, so the kept characters stay in order. |
| Cleaning.SkipSpaces | src/lib/textImport.ts:172 | `\s*` stops at the first non-whitespace character. |
| Cleaning.SkipDigits | src/lib/textImport.ts:172 | The digit run stops at the first non-digit. The regex's `\d+` asks for at least one digit, which `PageMarkAt` checks after the run. |
| Cleaning.PageMarkShape | src/lib/textImport.ts:172 | A page marker is `第`, whitespace and at least one digit, then `页`. |
| Cleaning.RemovePageMarksWithoutMarker | src/lib/textImport.ts:172 | Text without `第` is left alone. |
| Cleaning.RemovePageMarksPrefix | src/lib/textImport.ts:172 | Text before the first `第` is kept as it is, in front of what the scan makes of the rest. |
| Cleaning.PageMarkRemovalIsOnePass | src/lib/textImport.ts:172-177 | The replacement makes one pass: `第第1页1页` becomes `第1页`. |
| Cleaning.LineRest | src/lib/textImport.ts:173-174 | `.*` stops at the first line terminator. |
| Cleaning.CutRemovesMarker | src/lib/textImport.ts:173-177 | After cutting from a marker to the end of its line, the marker is gone. |
| Cleaning.CutWithoutMarker | src/lib/textImport.ts:173-177 | Text without the marker is unchanged. |
| Cleaning.CutContains | src/lib/textImport.ts:173-177 | A piece without line terminators found after the cut was already there before. |
| Cleaning.CutResumesAtLineEnd | src/lib/textImport.ts:173-177 | After a cut the text goes on at a line terminator, or ends. |
| Cleaning.CutKeepsPrefix | src/lib/textImport.ts:173-177 | Text before the first occurrence of the marker is kept as it is. |
| Cleaning.CutAtFirstMarker | src/lib/textImport.ts:173-177 | The first marker and the rest of its line are dropped, what comes before is kept, and the scan goes on at the line terminator. |
| Cleaning.CleanContentShape | src/lib/textImport.ts:160-181 | The cleaned text is trimmed, has no control character, and contains neither `本章未完` nor `待续`. |
| Cleaning.CleanContentKeepsCleanText | src/lib/textImport.ts:160-181 | Trimmed text free of all the noise comes out unchanged. |
| Cleaning.ControlCharIgnored | src/lib/textImport.ts:164 | Inserting a control character anywhere does not change the cleaned text. |
| Cleaning.PageMarkIgnored | src/lib/textImport.ts:172 | A page marker after text without `第` does not change the cleaned text: it is cleaned as if the marker were not there. |
| Cleaning.MixedNoiseExample | src/lib/textImport.ts:160-181 | `甲`, a tab, a control character, `第 3 页` and `乙` clean to `甲`, tab, `乙`. |
| Cleaning.SplitBlankPieces | src/lib/textImport.ts:155 | No piece of the split on `\n\n+` holds a blank line. |
| Cleaning.SplitIntoParagraphsShape | src/lib/textImport.ts:153-158 | Every paragraph is non-empty, trimmed and free of blank lines, and together they keep every non-whitespace character in order. |
| Week1Memory.Clamp | src/lib/week1Memory.ts:40-42 | The result lies in the range when the range is non-empty. A value inside the range is kept, one at or below `lo` gives `lo`, and one at or above `hi` gives `hi` (for any `lo`). |
| Week1Memory.QuizKeyFields | src/lib/week1Memory.ts:44-48 | Splitting the key at the pipe character gives back word, focus, option A, option B and the correct letter, when no field holds a pipe. |
| Week1Memory.QuizKeyInjective | src/lib/week1Memory.ts:44-48 | For quizzes whose fields hold no pipe character, equal keys mean equal word, focus, options and answer. |
| Week1Memory.KeyNeedsPipeFreeFields | src/lib/week1Memory.ts:47 | Two different quizzes with a pipe character inside a field can share a key. |
| Week1Memory.MissingOptionIsEmpty | src/lib/week1Memory.ts:45-46 | A missing option is keyed as the empty string. |
| Week1Memory.PutLookup | src/lib/week1Memory.ts:143 | Writing a key sets that key, changes no other key, keeps keys distinct, and appends a new key at the end of the order. |
| Week1Memory.IntervalDays | src/lib/week1Memory.ts:124 | After a right answer the interval is 1 plus the updated streak, capped at 10 days; after a wrong answer it is 1 day. |
| Week1Memory.NextItem | src/lib/week1Memory.ts:112-125 | One more attempt. `correct` or `wrong` grows according to the answer. The streak grows on a right answer and resets to 0 on a wrong one. `lastAt` and `word` come from the call. `dueAt` is 1 day ahead after a wrong answer, and 1 plus the new streak days, at most 10, after a right one. |
| Week1Memory.RecordPair | src/lib/week1Memory.ts:127-138 | Pair stats change only when there is a pair. That pair gets one more attempt, one more right answer or one more wrong one according to the answer (from zero when it was new), and its `lastAt` is set. The other pair is untouched. |
| Week1Memory.RecordItems | src/lib/week1Memory.ts:110-145 | The new memory has version 1 and the new item under the quiz key. Every other key keeps its stats, and the key order changes only by appending a new key. |
| Week1Memory.RecordKeepsBalance | src/lib/week1Memory.ts:112-137 | `attempts == correct + wrong` is preserved for every item and pair. |
| Week1Memory.CollectWords | src/lib/week1Memory.ts:99-107 | The loop with its early `break` returns the first `max(limit, 1)` distinct trimmed words. With a limit of 0 or less it can still return one word. |
| Week1Memory.GetTopWrongWords | src/lib/week1Memory.ts:95-108 | The method computes the specified top words. |
| Week1Memory.TopWordsShape | src/lib/week1Memory.ts:95-108 | At most `max(limit, 1)` words, distinct, trimmed, non-empty, each the trimmed word of some item. |
| Week1Memory.TopWordsComplete | src/lib/week1Memory.ts:104-105 | When fewer than the limit come back, every item's word is among them. |
| Week1Memory.TopWordsOrder | src/lib/week1Memory.ts:98-104 | Words come in order of non-increasing wrong minus correct. |
| Week1Memory.RankedFirstIsBest | src/lib/week1Memory.ts:96-104 | The first occurrence of each word carries its best score, so duplicates never reorder the ranking. |
| Week1Memory.DueEntries | src/lib/week1Memory.ts:151-152 | An entry is kept exactly when it is due (default due time 0) and matches the requested pair. |
| Strings.SliceEnd | src/lib/week1Memory.ts:159 | `slice(0, limit)` ends at `min(n, limit)`, or `n + limit` clamped at 0 for a negative limit. |
| Week1Memory.PickDueSpec | src/lib/week1Memory.ts:147-160 | The result has the slice length. Each key is an existing due item of the pair, in order of non-increasing urgency. |
| Week1Memory.PickDueComplete | src/lib/week1Memory.ts:147-160 | With a limit at least the number of due items, every due item of the pair is returned. |
| Week2Memory.Practised | src/lib/week2Memory.ts:49-59 | A first practice starts from 0 and 0. `encounters` grows by 1, and `correct` grows by 1 exactly on a right answer, so `correct ≤ encounters` is kept. `lastScore` is the given score, else 1 or 0. |
| Week2Memory.Memory.constructor | src/lib/week2Memory.ts:20-24 | The default memory (no words, no history) satisfies the invariant. |
| Week2Memory.Memory.RecordWordPractice | src/lib/week2Memory.ts:44-63 | Only the practised word's entry changes, and the invariant `correct ≤ encounters` holds for every word. |
| Week2Memory.Studied | src/lib/week2Memory.ts:92-99 | The new record is first. The oldest is dropped only past 20, and a history of at most 20 stays at most 20. |
| Week2Memory.Memory.RecordDocumentStudy | src/lib/week2Memory.ts:86-101 | The history becomes the specified one and the vocabulary is unchanged. |
| Week2Memory.HistoryBounded | src/lib/week2Memory.ts:99 | Any sequence of studies from empty keeps at most 20 records, the latest first. |
| Week2Memory.EntriesOrderSpec | src/lib/week2Memory.ts:70 | `Object.entries` lists every key once: the array-index keys first in ascending numeric order, then the other keys in the order they were stored. |
| Week2Memory.NoIndexKeys | src/lib/week2Memory.ts:70 | Without array-index keys, the keys come in the order they were stored. |
| Week2Memory.RankedPrefixSpec | src/lib/week2Memory.ts:71-79 | The stable mastery sort of any arrangement of the keys, cut to the limit, gives distinct keys, least mastered first, and leaves out no word mastered less than one taken. |
| Week2Memory.Memory.ReviewSpec | src/lib/week2Memory.ts:68-81 | The words are ranked from the `Object.entries` order. At most `limit` words come back, distinct, each a vocabulary key, least mastered first. A word left out is mastered at least as well as every word that comes back. With a large enough limit every word comes back. |
| Week2Memory.IndexKeyFirstOnTie | src/lib/week2Memory.ts:70-78 | On a mastery tie the `Object.entries` order decides: with `乙` stored before `1`, a limit of 1 returns `1`. |
| TypingDrill.HanziCount | src/pages/Week1.tsx:71-72 | The count of characters in U+4E00..U+9FA5 is at most the length. |
| TypingDrill.PinyinDoesNotComplete | src/pages/Week1.tsx:71-77 | Input as long as a Hanzi target but with no Hanzi, such as pinyin, does not finish the test. |
| TypingDrill.FewerHanziDoesNotComplete | src/pages/Week1.tsx:71-77 | Input with fewer Hanzi than the target does not finish the test, whatever its length. |
| TypingDrill.NoHanzi | src/pages/Week1.tsx:75 | For a target without Hanzi, only the length counts. |
| TypingDrill.ErrorsBounded | src/pages/Week1.tsx:228-234 | The error count is at most the shorter of the input and the target: characters past the target are never errors. |
| TypingDrill.NoErrorsIffAgrees | src/pages/Week1.tsx:230-233 | No errors exactly when the input agrees with the target on their common length. |
| TypingDrill.CountErrors | src/pages/Week1.tsx:228-234 | The loop counts exactly the positions below both lengths where the characters differ. |
| TypingDrill.RoundHalfUp | src/pages/Week1.tsx:236 | `Math.round` on a non-negative fraction gives the nearest integer, halves rounded up. |
| TypingDrill.AccuracySpec | src/pages/Week1.tsx:236 | Accuracy lies in 0..100. It is 100 for empty input and when there is no error, and it is within half a point of the exact percentage. |
| TypingDrill.RoundingHidesOneError | src/pages/Week1.tsx:236 | One error in 201 characters still shows 100. |
| TypingDrill.FormatTimeReadsBack | src/pages/Week1.tsx:238-243 | The clock is two digit groups around `:`. The seconds group has two digits and is below 60, the minutes group has at least two. Minutes·60 + seconds is the whole seconds elapsed. |
| TypingDrill.FindLevel | src/pages/Week1.tsx:36 | The first level with the id when there is one, else the first level. |
| TypingDrill.TypingSession.constructor | src/pages/Week1.tsx:10-21 | The initial state satisfies the invariant: level 0, nothing typed, not running, no results. |
| TypingDrill.TypingSession.FinishTest | src/pages/Week1.tsx:82-86 | Stops the timer, finishes, shows the quiz; nothing else changes. |
| TypingDrill.TypingSession.HandleInput | src/pages/Week1.tsx:58-80 | The input is stored. The timer starts only on the first non-empty input while not running and not finished. The test finishes exactly on the completion rule. |
| TypingDrill.TypingSession.Tick | src/pages/Week1.tsx:43-56 | While running with a start time, elapsed becomes now minus start; otherwise nothing changes. |
| TypingDrill.TypingSession.ResetTest | src/pages/Week1.tsx:88-97 | Clears running, finished, quiz view, start time, elapsed, input and results. The level and the memory are kept. |
| TypingDrill.TypingSession.SwitchLevel | src/pages/Week1.tsx:99-105 | Sets the level, drops custom text, quizzes and guidance, then resets. The target becomes the found level's content. |
| TypingDrill.TypingSession.NextLevel | src/pages/Week1.tsx:467 | Switches to `(id + 1) % n` with JavaScript's remainder, so a negative id stays negative and then finds no level, falling back to the first: the custom text, quizzes and guidance are dropped, the timer, elapsed time, input and results are reset, the target becomes that level's content, and the memory is kept. |
| TypingDrill.TypingSession.HandleQuizAnswer | src/pages/Week1.tsx:204-216 | An answered or out-of-range index changes nothing. Otherwise the result is recorded once and the memory records the attempt, keeping the counter balance. The custom quizzes, the guidance and the quiz view are untouched. |
| BlankPractice.NormalizeDigitsSpec | src/pages/Week2.tsx:162 | Every full-width digit becomes the ASCII digit of the same value and every other character is kept; none is left. |
| BlankPractice.NormalizeDigitsIdempotent | src/pages/Week2.tsx:162 | Normalising twice is normalising once. |
| BlankPractice.FindIndex | src/pages/Week2.tsx:159-174 | `find` returns the first blank the rule matches, or nothing when none does. |
| BlankPractice.ResolveBlank | src/pages/Week2.tsx:153-183 | The imperative cascade computes the specified resolution: explicit id, hint as id, exact hint, overlapping hint, then position. |
| BlankPractice.HintAsIdWins | src/pages/Week2.tsx:162-168 | When no blank has the explicit id, a numeric hint (full-width digits allowed) that names a blank resolves to the first blank with that id. |
| BlankPractice.ExactHintWins | src/pages/Week2.tsx:171-172 | When neither id finds a blank, a blank whose hint equals the hint or the normalised hint resolves the part to the first such blank. |
| BlankPractice.OverlapHintWins | src/pages/Week2.tsx:173-174 | When no hint is equal either, the first blank whose hint contains the part's hint or lies inside it is taken. |
| BlankPractice.PositionWhenUnmatched | src/pages/Week2.tsx:179-183 | When every search fails, the blank at the counter is taken, or none past the last blank. |
| BlankPractice.RenderPracticeText | src/pages/Week2.tsx:101-187 | The walk over the parts with its counter renders exactly the specified sequence. |
| BlankPractice.RenderingShape | src/pages/Week2.tsx:185-254 | A plain part renders as its text. A blank-like part renders as a field holding one of the lesson's blanks, or as its own text when unresolved. |
| BlankPractice.ExplicitIdWins | src/pages/Week2.tsx:156-160 | A digit id naming a blank resolves to the first blank with that id, whatever the hint. |
| BlankPractice.PositionFallback | src/pages/Week2.tsx:179-185 | A part with neither id nor hint takes the blank at the number of blank-like parts before it, when in range. |
| BlankPractice.CounterCountsBlankLike | src/pages/Week2.tsx:185 | The counter equals the number of blank-like parts before, matched or not. |
| BlankPractice.SurroundingSpaceIgnored | src/pages/Week2.tsx:189 | An answer padded with whitespace around a trimmed expected answer is correct. |
| BlankPractice.AnswerableIffTrimmed | src/pages/Week2.tsx:189 | A blank can be answered correctly exactly when its expected answer is trimmed. |
| BlankPractice.Check | src/pages/Week2.tsx:625-636 | Nothing changes without data or with a blank input. Otherwise the status is success exactly when some target overlaps the trimmed input, and fail otherwise. |
| BlankPractice.AnyOverlapIff | src/pages/Week2.tsx:630 | `some` is true exactly when a target contains the input or is contained in it. |
| BlankPractice.TargetPasses | src/pages/Week2.tsx:627-632 | Typing a target with surrounding whitespace succeeds. |
| BlankPractice.EmptyTargetAcceptsAll | src/pages/Week2.tsx:630 | An empty target accepts every non-blank input. |
| BlankPractice.DisplayHintSpec | src/pages/Week2.tsx:203-211 | The displayed hint is trimmed and holds no ASCII or full-width parenthesis. |
| BlankPractice.LabelRemoved | src/pages/Week2.tsx:203-211 | For every hint made of an optional opening parenthesis, `提示词` or `提示`, an optional colon, whitespace and a body, the display is the body without a final closing parenthesis, without any parenthesis, trimmed. |
| BlankPractice.PlainHintKept | src/pages/Week2.tsx:203-211 | A hint without label or parentheses is shown trimmed. |
| BlankPractice.LabelledHintA | src/pages/Week2.tsx:205-211 | `（提示词：名词）` is shown as `名词`. |
| BlankPractice.LabelledHintB | src/pages/Week2.tsx:206-211 | `提示：动词` is shown as `动词`. |
| BlankPractice.KeywordsShape | src/pages/Week2.tsx:81 | Every keyword is non-empty and holds no comma, full-width comma or whitespace. |
| BlankPractice.KeywordsKeepText | src/pages/Week2.tsx:81 | The keywords run together are the input with its separators removed. |
| BlankPractice.KeywordsJoin | src/pages/Week2.tsx:81 | Splitting separator-free words joined by commas gives them back. |
| BlankPractice.VocabularyLines | src/pages/Week2.tsx:460-462 | Every custom vocabulary line is non-empty and trimmed. |
| BlankPractice.VocabularyLineKept | src/pages/Week2.tsx:460-462 | Every non-blank line of the file is kept, trimmed, right after the words of the lines before it, and the lines are exactly the pieces between line feeds. |
| BlankPractice.AllWordsSpec | src/pages/Week2.tsx:467-505 | The core pairs come first, one per pair with its colloquial text, followed by the custom words. |
| BlankPractice.CustomWordsSpec | src/pages/Week2.tsx:498-502 | The custom words are distinct and are exactly the words of both lists, in order of first occurrence. |
| Strings.DedupMembers | src/pages/Week2.tsx:498 | `new Set` keeps exactly the elements of its input. |
| Strings.DedupDistinct | src/pages/Week2.tsx:498 | No element appears twice. |
| Strings.DedupOrder | src/pages/Week2.tsx:498 | Elements come in order of first occurrence. |
| ReportDraft.Numeral | src/pages/Week6.tsx:91 | The section number is never empty. |
| ReportDraft.NumeralsDistinct | src/pages/Week6.tsx:91-94 | Different sections get different numbers, and so do different points of a section. |
| ReportDraft.AppendPoints | src/pages/Week6.tsx:93-96 | The inner loop appends exactly the specified points text. |
| ReportDraft.AppendSection | src/pages/Week6.tsx:91-96 | One outer step appends the heading line and the points of one section. |
| ReportDraft.InitialDraft | src/pages/Week6.tsx:87-99 | The nested loops produce exactly the specified draft. |
| ReportDraft.DraftOpens | src/pages/Week6.tsx:86-89 | The draft is empty exactly when there is no outline, which is exactly when the page opens on the perspective tab (the tab rule of line 10). With an outline the draft starts with the title and an empty line. |
| ReportDraft.SectionsInOrder | src/pages/Week6.tsx:90-92 | Sections are written in input order. |
| ReportDraft.PointsInOrder | src/pages/Week6.tsx:93-96 | Points are written in input order. |
| LeadParagraph.Assess | src/pages/Week5.tsx:10-17 | The full text is the three parts joined by single spaces and trimmed, and the count is its length. Each part check is strict (more than 10, 20, 10). The length check includes both 150 and 300. |
| LeadParagraph.CountBounds | src/pages/Week5.tsx:10-11 | The count is at least the parts' non-whitespace characters and at most their lengths plus the two joining spaces. |
| LeadParagraph.ExactCount | src/pages/Week5.tsx:10-11 | With nothing to trim at either end, the count is the part lengths plus 2. |
| LeadParagraph.BlankPartsPass | src/pages/Week5.tsx:14-17 | The part checks count whitespace: all-space parts pass them while the paragraph is empty and fails the length check. |
| AiText.ConfigSelection | src/lib/ai.ts:7-27 | `deepseek` and `gemini` read their own variables, and every other provider gets the openai configuration. |
| AiText.DropChar | src/lib/ai.ts:69 | The removed character is gone, and text without it is unchanged. |
| AiText.DropCharAppend | src/lib/ai.ts:69 | The removal distributes over concatenation, so every other character stays, in order. |
| AiText.DoubleStarRedundant | src/lib/ai.ts:69 | Removing `**` before `*` gives the same result as removing `*` alone. |
| AiText.CleanGeneratedIsClean | src/lib/ai.ts:65-77 | The cleaned text has no `*`, and its lines are trimmed and non-empty, joined by single line feeds, so it has no blank line and no leading or trailing line feed. |
| AiText.CleanKeepsVisible | src/lib/ai.ts:65-77 | Cleanup keeps every non-whitespace character other than `*`, in order. |
| AiText.CleanIdempotent | src/lib/ai.ts:69-77 | Clean non-empty text is returned unchanged. |
| AiText.FallbackShown | src/lib/ai.ts:65 | Missing content gives the fixed fallback message. |
| AiText.GenerateTextSpec | src/lib/ai.ts:29-82 | Without key or endpoint the call fails with the configuration error, whatever the response. With both, a reply gives its cleaned content, an error status an API error carrying that status, and an unreadable response a failed request. A success means a ready configuration, a reply and clean text. |
| AiText.RemoveAll | src/lib/ai.ts:143 | Removing a pattern never lengthens the text. |
| AiText.RemoveAllWithout | src/lib/ai.ts:143 | Text without the pattern is unchanged. |
| AiText.NoFenceAfterRemoval | src/lib/ai.ts:143 | After removing every three-backtick fence, none is left. |
| AiText.RemovalIsOnePass | src/lib/ai.ts:143 | The replacement makes one pass: removing a json fence can join two pieces into a new one, which stays. |
| AiText.FencesStripped | src/lib/ai.ts:143 | A body wrapped in a json code fence comes out as the trimmed body, and backtick-free content as itself trimmed. |
| AiText.NoFenceLeft | src/lib/ai.ts:143 | The text handed to the parser holds no three-backtick fence. |
| AiText.QuizOfReply | src/lib/ai.ts:143-153 | A parsed array is returned as is and an object's `quizzes` array is unwrapped. Anything else, including text that does not parse, gives no quizzes. |
| AiText.QuizOfEmptyReply | src/lib/ai.ts:140 | Missing or empty content is read as `[]`. |

## Left out

- Network calls (`fetch`) are left out. The HTTP response of `generateText` and `generateQuiz` is an input (`AiText.Response`), and `JSON.parse` of the quiz reply is a function parameter. The `console.error` logging of `generateText` and `generateQuiz` is left out, and so is the detail text of their thrown errors: the model keeps the error kind and the HTTP status, not the message string or the error body. All AI-driven page handlers are left out: the article, analysis and scenario generators, and the file-import and AI buttons of the typing page.
- `localStorage` persistence (`loadWeek1Memory`, `saveWeek1Memory`, `loadWeek2Memory`, `saveWeek2Memory`) and the settings context are left out. Memories are values passed in and out, or the `Week2Memory.Memory` object.
- Clocks and randomness are parameters: `Date.now` appears as `now`/`at`/`stamp`. `performance.now` timings, the slow-processing warning, the log list of `importSingleFile` and the random id are not modelled; the id and import time come from the `stamp` input.
- File reading, `TextDecoder` and mammoth are inputs (`FileInput`, `Services`). Only reading the bytes and the Word extractor may throw.
- The regular-expression split that classifies practice-text parts (src/pages/Week2.tsx:106-151) is not modelled. The part list, with each part's id and hint, is an input to the cascade.
- Floating-point scoring is left out: `getWeaknessScores`, `pickWeakPair`, `wpm`, `successRate`, `toFixed`, `meetsTarget`, `formatFileSize`, `formatTimestamp` and the hint widths.
- Week2Memory.Memory.ReviewSpec: the `Math.exp` mastery of `getWordsNeedingReview` is an integer-valued ranking parameter, so the exact floating-point order is not captured.
- Week1Memory.PickDueSpec: the sort key is scaled by 86 400 000 to an exact integer. Floating-point rounding of the day fraction, which could reorder near-ties, is not captured.
- TypingDrill.AccuracySpec: rounding is exact rational half-up. JavaScript rounds the floating-point quotient, which can differ at exact halves.
- TypingDrill.FormatTimeReadsBack: only non-negative times are covered. `FormatTime` models negative values with JavaScript's floor and truncating remainder, but nothing is proved about them.
- TextImport.FilterKeepsMatches: lower-casing maps the capitals of ASCII, Latin-1, basic Greek and Cyrillic and the full-width Latin letters. Other Unicode case pairs and mappings that change the length, such as U+0130, are not captured.
- ID parsing is exact. `parseInt` loses precision beyond 2^53, which is not modelled.
- Only characters of the Basic Multilingual Plane can be written. A surrogate pair is two code units in JavaScript, and that split is not captured.
- React rendering, styling, routing, timers as such (`setInterval`), focus handling and the file-load sequence counter of the typing page are left out. A tick is the `Tick` method.
- The static level, word-pair and scenario tables are not part of this model. They are inputs.
- `importSingleFile`'s progress callback is modelled as the list of values it is called with. The batch's snapshot count per file is the number of those ticks plus two.

Two points where the code does less than one might expect:

- A sentence-final punctuation mark inside a line does not end a paragraph; only the end of a line is tested (`Preprocess.MidLineFullStopKeepsParagraph`).
- After `cleanContent`, an imported text's content need not equal its paragraphs joined by a blank line: cutting `待续` to the end of a line can leave `甲 ` before a kept blank line, and the split trims it. `TextImport.ImportedParagraphs` states what holds: the paragraphs keep every non-whitespace character of the content in order.
