# GPQA scorer: parsing and scoring core

This project models the text-parsing and scoring logic of the C++ GPQA scorer
(`evals/gpqa_cpp/src/gpqa_eval.cpp`). The scorer reads two CSV files. The data file has
one question per row: an id, a subdomain, the question, a cell holding the answer
options, and the answer letter. The predictions file has one predicted letter per id.
The scorer counts how many questions got their answer letter.

The model has six modules:

- `Text`: C-locale `isspace` and `toupper`, and `trim`. The two index scans of the
  source are proved to give the unique slice with no edge space and only space outside.
- `Quoting`: the double-quote convention that both parsers share. `"` flips an
  "inside quotes" flag; `""` inside quotes stands for one literal `"`; a `,` outside
  quotes ends a piece. It is stated once, as a lexer from characters to tokens plus a
  grouping of the tokens into pieces.
- `CsvRow`: `parseCsvRow`. It is a function over the lexer, and the source's
  character loop is proved to compute it. Cell counts, quote handling, length
  accounting, plain-line splitting and a quoted-row round trip are proved.
- `Choices` and `ChoiceLists`: `parseChoicesArray`. This covers trimming and removing one
  bracket pair, the same quote convention, keeping the final piece only when it is
  non-empty before trimming, and removing one pair of wrapping quotes per option. It
  comes with a round trip for lists written as `["a", "b, c", ...]`.
- `Loaders`: the per-line logic of `loadGpqaCsv` and `loadPredictionsCsv`, as pure
  functions over the lines of a file. The header is dropped, empty lines and short
  rows are skipped, fixed columns are taken, and the first letter is uppercased. In
  the prediction map the last row for an id wins. Both loops are proved to compute the
  functions.
- `Scoring`: `evaluate` with its integer counters. The loop is proved to compute the
  function, and `correct` is proved to be the number of matching items.

A blank answer cell leaves the source's `answer` field unassigned. It is modelled as a
missing answer (`Optional.Option<char>` is `None`), and a missing answer never matches
(see Findings).

## Model

| member | source | states |
|---|---|---|
| Text.IsSpace | evals/gpqa_cpp/src/gpqa_eval.cpp:24-26 | the white space both scans skip is exactly the space character and the five control characters from tab to carriage return |
| Text.ToUpper | evals/gpqa_cpp/src/gpqa_eval.cpp:112 | the result is never a lower-case ASCII letter; `a`..`z` move 32 code points down to `A`..`Z`, and every other character is kept |
| Text.SkipSpace | evals/gpqa_cpp/src/gpqa_eval.cpp:23-24 | the forward scan stops at the first index from its start that is not space (or at the end), having passed only space |
| Text.BackSpace | evals/gpqa_cpp/src/gpqa_eval.cpp:25-26 | the backward scan never goes below the start index, passes only space, and stops just after a non-space character unless it reached the start |
| Text.Trim | evals/gpqa_cpp/src/gpqa_eval.cpp:22-28 | the result is no longer than the input and neither starts nor ends with white space; it is empty exactly when the input is all white space |
| Text.TrimIsSlice | evals/gpqa_cpp/src/gpqa_eval.cpp:22-28 | the trimmed text is one contiguous slice of the input, and everything cut on either side of it is white space |
| Text.TrimUnique | evals/gpqa_cpp/src/gpqa_eval.cpp:22-28 | any slice whose ends are not space, with only space outside it, is the trimmed text, so the slice property determines `trim` |
| Text.TrimIdempotent | evals/gpqa_cpp/src/gpqa_eval.cpp:22-28 | trimming twice gives the same text as trimming once |
| Text.TrimScan | evals/gpqa_cpp/src/gpqa_eval.cpp:22-28 | the two-index loop (start moves forward past space, end moves back but never below start) returns the trimmed text |
| Quoting.Lex | evals/gpqa_cpp/src/gpqa_eval.cpp:37-49 | the quote rule of the scan, as a token stream: never more tokens than characters, since each character yields at most one token (`""` inside quotes yields one) |
| Quoting.LexDropsOnlyQuotes | evals/gpqa_cpp/src/gpqa_eval.cpp:37-49 | every non-quote character yields exactly one token; the characters that vanish are all `"`, and each `"` that is kept used up two of them |
| Quoting.LexNoDoubledQuote | evals/gpqa_cpp/src/gpqa_eval.cpp:37-43 | without two adjacent `"` in the text, no `"` is ever copied |
| Quoting.SplitFrom | evals/gpqa_cpp/src/gpqa_eval.cpp:44-51 | grouping yields one piece more than there are separators; the pieces written one after another are exactly the copied characters |
| CsvRow.ParseCsvRow | evals/gpqa_cpp/src/gpqa_eval.cpp:31-53 | the number of cells is 1 plus the number of commas met outside quotes; cell lengths plus one per separator never exceed the line length |
| CsvRow.ParseCsvRowScan | evals/gpqa_cpp/src/gpqa_eval.cpp:31-53 | the character loop with its quote flag and cell accumulator computes exactly the cells of the lexer-based definition |
| CsvRow.EmptyLineHasOneCell | evals/gpqa_cpp/src/gpqa_eval.cpp:51 | an empty line still gives one (empty) cell |
| CsvRow.QuotesInCells | evals/gpqa_cpp/src/gpqa_eval.cpp:37-43 | each `"` in a cell used up two `"` of the line; without a doubled `""` no cell holds a `"` |
| CsvRow.RowLengthAccount | evals/gpqa_cpp/src/gpqa_eval.cpp:35-51 | cell lengths plus one per separator fall short of the line length by exactly the number of `"` dropped |
| CsvRow.PlainRowSplitsOnCommas | evals/gpqa_cpp/src/gpqa_eval.cpp:35-51 | on a line without `"`, joining the cells with commas gives back the line, no cell holds a comma, and there is one cell more than there are commas |
| CsvRow.QuotedRowRoundTrip | evals/gpqa_cpp/src/gpqa_eval.cpp:31-53 | any non-empty row of cells, each written quoted with `"` doubled and joined by commas, parses back into exactly those cells |
| CsvRow.PlainFieldThenRest | evals/gpqa_cpp/src/gpqa_eval.cpp:44-49 | a cell without `"` or `,` followed by a comma becomes one cell, and parsing resumes on the rest of the line |
| CsvRow.QuotedFieldThenRest | evals/gpqa_cpp/src/gpqa_eval.cpp:37-49 | a quoted field followed by a comma becomes exactly its cell, whatever commas or quotes the cell holds, and parsing resumes on the rest of the line |
| CsvRow.QuotedCommaRow | evals/gpqa_cpp/src/gpqa_eval.cpp:31-53 | a plain cell, a quoted cell that may hold commas, and a plain cell give exactly those three cells |
| CsvRow.QuotedWordRow | evals/gpqa_cpp/src/gpqa_eval.cpp:37-43 | a quoted field holding a doubled-quote word, `"p""q""",x`, gives `p"q"` and `x` |
| CsvRow.ExampleQuotedComma | evals/gpqa_cpp/src/gpqa_eval.cpp:44-49 | `a,"b,c",d` gives `a`, `b,c` and `d` |
| CsvRow.ExampleEscapedQuote | evals/gpqa_cpp/src/gpqa_eval.cpp:37-43 | `"He said ""hi""",x` gives `He said "hi"` and `x` |
| Choices.StripBrackets | evals/gpqa_cpp/src/gpqa_eval.cpp:61-63 | exactly one outer bracket pair is removed, and only when the text both starts with `[` and ends with `]`; otherwise the text is kept whole |
| Choices.StripWrappingQuotes | evals/gpqa_cpp/src/gpqa_eval.cpp:84-91 | a text of two or more characters that starts and ends with `"` is exactly `"`, the result, `"`; a lone `"` becomes empty; any other text is kept |
| Choices.Kept | evals/gpqa_cpp/src/gpqa_eval.cpp:75-82 | every comma-closed piece is kept in order; the final piece is dropped exactly when it is empty |
| Choices.Finish | evals/gpqa_cpp/src/gpqa_eval.cpp:76-91 | a kept piece, trimmed when it is pushed and trimmed again before unwrapping, ends up as the once-trimmed piece with one wrapping pair of `"` removed |
| Choices.ParseChoicesArray | evals/gpqa_cpp/src/gpqa_eval.cpp:56-93 | all-space input gives no options; otherwise there is one option per piece of the body, less one when the final piece is empty before trimming, and each option is its piece trimmed and unwrapped |
| Choices.ChoicesCount | evals/gpqa_cpp/src/gpqa_eval.cpp:75-82 | the option count is the number of commas outside quotes in the body, plus one when the final untrimmed piece is non-empty |
| Choices.EmptyChoices | evals/gpqa_cpp/src/gpqa_eval.cpp:58-63 | an empty or all-space cell and `[]` both give no options |
| Choices.BlankFinalPiece | evals/gpqa_cpp/src/gpqa_eval.cpp:82 | `[ ]` gives one empty option, because the final piece is tested before it is trimmed |
| ChoiceLists.ListRoundTrip | evals/gpqa_cpp/src/gpqa_eval.cpp:56-93 | options with no white space at either end and not themselves wrapped in `"`, each written quoted with `"` doubled and joined by `, ` in brackets, parse back into exactly those options; the one exception, a list whose only option is empty, is excluded |
| ChoiceLists.ThreeOptions | evals/gpqa_cpp/src/gpqa_eval.cpp:55-93 | three options without `"`, none with white space at either end, written as `["a", "b", "c"]` come back as `a`, `b`, `c`, even with commas inside them (an option written as ` x` would come back as `x`) |
| ChoiceLists.ExampleChoices | evals/gpqa_cpp/src/gpqa_eval.cpp:55-93 | `["opt1", "opt2, with comma", "opt3"]` gives `opt1`, `opt2, with comma` and `opt3` |
| Loaders.Letter | evals/gpqa_cpp/src/gpqa_eval.cpp:111-112 | the letter is missing exactly when the cell is all white space; otherwise it is the cell's first non-space character in capitals, never lower case |
| Loaders.ItemOfRow | evals/gpqa_cpp/src/gpqa_eval.cpp:104-113 | a row gives an item exactly when the line is non-empty and has at least 5 cells; the id and question are the trimmed cells 0 and 2, the choices come from cell 3, and the answer is missing exactly when cell 4 is blank and otherwise is the first non-space character of cell 4 in capitals |
| Loaders.LoadItems | evals/gpqa_cpp/src/gpqa_eval.cpp:98-115 | a file with only a header (or nothing) gives no items; there are always fewer items than lines |
| Loaders.HeaderIgnored | evals/gpqa_cpp/src/gpqa_eval.cpp:98-99 | whatever the first line holds, the items are those of the remaining rows |
| Loaders.ItemsOfAppend | evals/gpqa_cpp/src/gpqa_eval.cpp:103-114 | the items of two consecutive blocks of rows are those of the first block followed by those of the second, so items keep row order |
| Loaders.ItemsOfMembers | evals/gpqa_cpp/src/gpqa_eval.cpp:103-114 | an item is loaded exactly when some row describes it |
| Loaders.LoadItemsScan | evals/gpqa_cpp/src/gpqa_eval.cpp:95-116 | the line-by-line loop that appends each kept item computes the loaded item list |
| Loaders.PredictionOfRow | evals/gpqa_cpp/src/gpqa_eval.cpp:127-134 | a row predicts exactly when the line is non-empty, has at least 2 cells, and both trimmed id and trimmed choice are non-empty; the letter is the choice's first non-space character in capitals |
| Loaders.LoadPredictions | evals/gpqa_cpp/src/gpqa_eval.cpp:121-136 | a file with only a header (or nothing) gives the empty map |
| Loaders.PredictionsHeaderIgnored | evals/gpqa_cpp/src/gpqa_eval.cpp:121-122 | whatever the first line holds, the map is the one the remaining rows build |
| Loaders.LoadedIds | evals/gpqa_cpp/src/gpqa_eval.cpp:121-135 | an id is in the loaded map exactly when some line after the first predicts a letter for it |
| Loaders.Record | evals/gpqa_cpp/src/gpqa_eval.cpp:133 | a predicting row sets its id to its letter, overwriting any earlier letter; no other id changes, and a row that predicts nothing leaves the map as it was |
| Loaders.PredictionsDomain | evals/gpqa_cpp/src/gpqa_eval.cpp:126-135 | an id is in the map exactly when some row predicts a letter for it |
| Loaders.LastRowWins | evals/gpqa_cpp/src/gpqa_eval.cpp:126-135 | the letter stored for an id is that of the last row predicting for it |
| Loaders.LoadPredictionsScan | evals/gpqa_cpp/src/gpqa_eval.cpp:118-137 | the line-by-line loop that writes each kept row into the map computes the loaded map |
| Scoring.Matches | evals/gpqa_cpp/src/gpqa_eval.cpp:156-157 | an item scores only when its id has a prediction and it has an answer; an item without an answer never scores |
| Scoring.CountCorrect | evals/gpqa_cpp/src/gpqa_eval.cpp:155-160 | the count never exceeds the number of items; it is 0 when nothing matches and the full length when everything matches |
| Scoring.Evaluate | evals/gpqa_cpp/src/gpqa_eval.cpp:152-163 | `total` is the number of items, `0 <= correct <= total`, and an empty prediction map gives `correct = 0` |
| Scoring.CorrectCountsHits | evals/gpqa_cpp/src/gpqa_eval.cpp:155-160 | `correct` is exactly the number of items whose id has a prediction equal to their answer |
| Scoring.AllCorrect | evals/gpqa_cpp/src/gpqa_eval.cpp:154-160 | `correct == total` exactly when every item matches |
| Scoring.NoneCorrect | evals/gpqa_cpp/src/gpqa_eval.cpp:155-160 | `correct == 0` exactly when no item matches |
| Scoring.EvaluateScan | evals/gpqa_cpp/src/gpqa_eval.cpp:152-163 | the loop that adds one per matching item computes the metrics |
| Scoring.ExampleEvaluate | evals/gpqa_cpp/src/gpqa_eval.cpp:152-163 | answers A, B, C against predictions A, X, C score 2 out of 3 |
| Scoring.UnansweredNeverScores | evals/gpqa_cpp/src/gpqa_eval.cpp:155-158 | an item whose answer cell was blank, anywhere in the list, is never among the hits whatever the predictions say, so `correct` is below `total` |
| Scoring.UnansweredScoresAsWritten | evals/gpqa_cpp/src/gpqa_eval.cpp:157 | with the comparison as written, an item with a blank answer scores when the stale byte equals the prediction |

## Left out

- File opening, `std::getline` reading, and the `runtime_error` on a file that cannot be
  opened (`gpqa_eval.cpp:96-97`, `:119-120`). These are I/O. The loaders take the file
  already split into lines. A missing file and an empty file are not told apart.
- `writeRandomPredictions` (`gpqa_eval.cpp:139-148`). It depends on the internals of
  `std::mt19937_64` and `uniform_int_distribution`, and it writes a file.
- The `accuracy` division (`gpqa_eval.cpp:161`) and the percentage printing. These are
  floating point; only the integer counters `correct` and `total` are modelled.
- `main` and `printUsage` (`gpqa_eval.cpp:165-216`). This is command-line plumbing,
  `std::stoull`, and mapping exceptions to exit codes around I/O.
- Scoring.Evaluate: the counters are unbounded naturals. The source's `int` (and the
  `static_cast<int>` of the item count) would overflow beyond 2^31 - 1 items, which is
  not modelled.
- Quoting.Lex: its own contract only bounds the number of tokens. What the tokens are is stated by Quoting.LexDropsOnlyQuotes, Quoting.LexNoDoubledQuote and the four one-step lemmas, which keeps the lexer's contract cheap for the many proofs that unfold it.
- Text.IsSpace and Text.ToUpper follow the "C" locale only. Other locales are not
  modelled, and each `char` stands for one byte.
- `evals/gpqa_cpp/prepare_gpqa.py` and `evals/ifeval/run_ifeval.py` are not part of this
  model. They wrap external dataset and model libraries. The Python writer emits
  single-quoted list reprs, so no round trip with the choices parser is claimed for its
  output.
- "Inputs are not modified" holds by construction: every operation is a pure function
  of immutable values.

## Findings

| source | as written | input that shows it | evidently intended | confidence | as-written member | corrected member |
|---|---|---|---|---|---|---|
| evals/gpqa_cpp/src/gpqa_eval.cpp:107-112, 157 | a blank answer cell leaves `GpqaItem::answer` unassigned, and `evaluate` then compares the prediction with that indeterminate byte | a data row `1,s,q,[],` (blank answer) plus a prediction `1,A`, when the stale byte happens to be `A` | an item without an answer never scores | not executed; reading an indeterminate value is undefined behaviour | Scoring.UnansweredScoresAsWritten | Scoring.UnansweredNeverScores |
