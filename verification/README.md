# NumPy slicing quiz — a Dafny model of its core

The quiz shows a small random matrix of single digits and highlights a region
of it: one row, one column, or a rectangle. The player types a NumPy
expression that selects that region. An embedded Python interpreter computes
the expected answer by printing the region from a program the quiz writes
itself, and keeps the last line of what that program printed. It then runs the
player's code on the same matrix and compares the player's printed output with
that line after normalising the whitespace of both.

This project models that core as pure Dafny functions and proves what it
promises:

- `challenges.dfy` (module `Challenges`, from `CodeRunner.utils.ts`) covers
  the `Challenge` variant, `pickRandomChallenge` and `generateIntegerMatrix`.
  Every `Math.random()` call becomes an explicit integer draw.
- `highlight.dfy` (module `Highlight`, from `MatrixDisplay.tsx`) covers
  `isHighlighted`, the `null` guard around it, the placeholder for an empty
  matrix, and the number of highlighted cells.
- `normalize.dfy` (module `Normalize`, from `useCodeRunner.ts`) covers
  `normalizeOutput` and the textual part of `outputsMatch`. Each global
  regular-expression replacement is modelled by the left-to-right scan that
  performs it.
- `words.dfy` (module `Words`) describes normalisation independently, through
  the words of a text (its maximal runs of non-whitespace characters).
  Normalising writes the words out separated by single spaces, except that no
  space follows a word ending in `[` or precedes a word starting with `]`.
- `json.dfy` (module `Json`) is `JSON.stringify` on a matrix of integers, as
  sections 5 and 6 of RFC 8259 describe arrays and numbers. A parser for that
  subset is its inverse.
- `snippets.dfy` (module `Snippets`, from `useCodeRunner.ts`) covers the
  programs the quiz builds:
  - `buildChallengePrintCode`;
  - the code wrapping in `runPython`;
  - the last-line pick in `runChallengeExpected`.
- `runner.dfy` (module `Runner`, from `useCodeRunner.ts`) covers
  `randomMatrixSize` and the hook's rounds and runs. It is a state machine in
  which every asynchronous callback is a separate completion step. Each step
  carries a ticket with the counter value and the values the callback
  captured.
- `text.dfy` (module `Text`) models the JavaScript string built-ins used
  above: `trim()`, the `\s` class, `startsWith`, `split(/\r?\n/)`,
  `filter(Boolean)` and `join('\n')`.
- `results.dfy` (module `Results`) holds `Option` and `Result`.

The doc comment of `outputsMatch` (useCodeRunner.ts:40-44) says the first
line of the player's output is considered only when the expected text is a
single line. The code (line 52) makes no such check, and the model follows the
code. The difference never shows in the quiz: the answer `outputsMatch`
receives is always one line (`Snippets.ExpectedAnswerShape`).

The submatrix end formula of `pickRandomChallenge` is modelled literally. A
rectangle reaches the last row (or column) only when it also starts there
(`Challenges.LastRowOnlyFromLastStart`). `Challenges.Pickable` describes
exactly the challenges that can be drawn.

## Model

| member | source | states |
|---|---|---|
| Challenges.PickRandomChallenge | src/components/CodeRunner/CodeRunner.utils.ts:17-43 | whatever the draws, the kind draw alone decides whether a row (0), a column (1) or a submatrix comes out, and a submatrix is at least 1 x 1 |
| Challenges.PickInBounds | src/components/CodeRunner/CodeRunner.utils.ts:17-42 | with draws in their ranges, a row index lies in `[0, rows)` once there is a row, a column index lies in `[0, cols)` once there is a column, and a submatrix is a non-empty half-open region inside the matrix |
| Challenges.ClampsChangeNothing | src/components/CodeRunner/CodeRunner.utils.ts:25-41 | the `Math.max(end, start + 1)` clamps never change the end already computed |
| Challenges.LastRowOnlyFromLastStart | src/components/CodeRunner/CodeRunner.utils.ts:28-35 | a submatrix ends at the last row exactly when it starts there, and any earlier start ends by `rows - 1`; the same holds for columns |
| Challenges.PickIsPickable | src/components/CodeRunner/CodeRunner.utils.ts:17-43 | every picked challenge is in the set `Pickable` |
| Challenges.PickableIsPicked | src/components/CodeRunner/CodeRunner.utils.ts:17-43 | every challenge in `Pickable` is picked by some valid draws, so `Pickable` is exactly the set of results |
| Challenges.GenerateIntegerMatrix | src/components/CodeRunner/CodeRunner.utils.ts:48-59 | the matrix has `rows` rows of `cols` entries, and each entry is `min` plus its own cell draw |
| Challenges.GeneratedEntriesWithin | src/components/CodeRunner/CodeRunner.utils.ts:46-56 | with `min <= max` every entry lies in `[min, max]`, both ends included |
| Challenges.EveryMatrixGenerated | src/components/CodeRunner/CodeRunner.utils.ts:48-59 | every `rows` x `cols` matrix with entries in `[min, max]` is produced by some valid draws |
| Highlight.IsHighlighted | src/components/CodeRunner/MatrixDisplay.tsx:5-14 | `isHighlighted` for a row, a column and a submatrix region; `Highlight.RowCountOfRow`, `Highlight.RowCountOfColumn` and `Highlight.RowCountOfSubmatrix` count the cells it selects |
| Highlight.Render | src/components/CodeRunner/MatrixDisplay.tsx:21-45 | nothing is rendered exactly when the matrix has no rows or an empty first row; otherwise every cell keeps its value and is highlighted exactly when a highlight is present and `isHighlighted` holds |
| Highlight.NoHighlightNoCells | src/components/CodeRunner/MatrixDisplay.tsx:37-39 | with no highlight (`null` or absent) no cell is highlighted |
| Highlight.RowCountOfRow | src/components/CodeRunner/MatrixDisplay.tsx:10 | a row region highlights every cell of its own row and none of any other row |
| Highlight.RowCountOfColumn | src/components/CodeRunner/MatrixDisplay.tsx:11 | a column region inside the grid highlights exactly one cell of every row |
| Highlight.RowCountOfSubmatrix | src/components/CodeRunner/MatrixDisplay.tsx:12-13 | a submatrix highlights, in a row it spans, the cells from `colStart` up to but excluding `colEnd` that lie in the grid, and nothing in other rows |
| Highlight.GridCountInBounds | src/components/CodeRunner/MatrixDisplay.tsx:5-14 | an in-bounds challenge highlights exactly `cols`, `rows` or `(rowEnd - rowStart) * (colEnd - colStart)` cells of the grid |
| Highlight.PickedChallengeHighlights | src/components/CodeRunner/MatrixDisplay.tsx:5-14 | a challenge picked for a non-empty matrix highlights that many cells, and always at least one |
| Text.Trim | src/components/CodeRunner/useCodeRunner.ts:229 | `trim()`: the result starts and ends with a non-whitespace character, or is empty, and is no longer than the text; `Text.TrimSlice` pins it down, with `Text.TrimIgnoresPadding` and `Text.TrimEmptyIffBlank` as further partners |
| Text.TrimSlice | src/components/CodeRunner/useCodeRunner.ts:229 | `trim()` returns a slice of the text, and everything cut off before and after that slice is whitespace |
| Text.SplitLines | src/components/CodeRunner/useCodeRunner.ts:216 | `split(/\r?\n/)` gives at least one piece and no piece holds a `\n`; its partner `Text.SplitJoin` says the pieces are the lines |
| Text.NonEmptyLines | src/components/CodeRunner/useCodeRunner.ts:216 | `filter(Boolean)` keeps only non-empty pieces, each one taken from the input, and never more pieces than there were; `Text.NonEmptySnoc` says which ones |
| Text.NonEmptySnoc | src/components/CodeRunner/useCodeRunner.ts:216 | filtering a list with one more piece gives the old result followed by that piece exactly when it is non-empty, so every non-empty piece is kept, in order |
| Text.JoinLines | src/components/CodeRunner/useCodeRunner.ts:239 | `join('\n')`; `Text.SplitJoin` states that splitting undoes it |
| Text.TrimIgnoresPadding | src/components/CodeRunner/useCodeRunner.ts:229 | `trim()` ignores whitespace added around the text |
| Text.TrimEmptyIffBlank | src/components/CodeRunner/useCodeRunner.ts:126-127 | `trim()` gives the empty string exactly when the text is blank |
| Text.SplitJoin | src/components/CodeRunner/useCodeRunner.ts:238 | `split(/\r?\n/)` returns the lines that `join('\n')` put together |
| Text.FirstLineBeforeBreak | src/components/CodeRunner/useCodeRunner.ts:49 | the first piece of `split(/\r?\n/)` is the text before the first `\n`, without a `\r` directly before it |
| Text.LastLineIs | src/components/CodeRunner/useCodeRunner.ts:216-217 | the last piece of `split(/\r?\n/)` is the text after the last `\n`, or the whole text when there is none |
| Normalize.CollapseWhitespace | src/components/CodeRunner/useCodeRunner.ts:34 | `replace(/\s+/g, ' ')`: a text starting with whitespace starts with a space, and otherwise with its own first character; `Normalize.CollapseShape`, `Normalize.CollapseVisible` and `Words.CollapseWords` state the rest |
| Normalize.StripSpaceBeforeClose | src/components/CodeRunner/useCodeRunner.ts:36 | `replace(/\s+\]/g, ']')`: the first character stays or a whitespace run turns into its `]`, and the last character stays |
| Normalize.StripSpaceAfterOpen | src/components/CodeRunner/useCodeRunner.ts:37 | `replace(/\[\s+/g, '[')`: the first character stays, and so does a last character that is not whitespace |
| Normalize.CollapseShape | src/components/CodeRunner/useCodeRunner.ts:34 | after `replace(/\s+/g, ' ')` the only whitespace is single spaces, never two together |
| Normalize.CollapseVisible | src/components/CodeRunner/useCodeRunner.ts:34 | collapsing whitespace keeps every other character, in order |
| Normalize.CloseGuard | src/components/CodeRunner/useCodeRunner.ts:36 | after `replace(/\s+\]/g, ']')` no whitespace comes directly before a `]` |
| Normalize.CloseVisible | src/components/CodeRunner/useCodeRunner.ts:36 | that replacement removes only whitespace |
| Normalize.OpenGuard | src/components/CodeRunner/useCodeRunner.ts:37 | after `replace(/\[\s+/g, '[')` no whitespace comes directly after a `[` |
| Normalize.OpenVisible | src/components/CodeRunner/useCodeRunner.ts:37 | that replacement removes only whitespace |
| Normalize.NormalizeOutput | src/components/CodeRunner/useCodeRunner.ts:32-38 | the result has no whitespace at either end, no whitespace but single spaces, no space after `[` or before `]`, and keeps every other character of the input in order |
| Normalize.NormalIsFixed | src/components/CodeRunner/useCodeRunner.ts:32-38 | text already in that shape is left unchanged |
| Normalize.NormalizeIdempotent | src/components/CodeRunner/useCodeRunner.ts:28-38 | normalising twice is normalising once |
| Normalize.BracketPaddingIgnored | src/components/CodeRunner/useCodeRunner.ts:28-38 | a vector printed with a space just inside its brackets normalises to the spelling without |
| Normalize.FourValues | src/components/CodeRunner/useCodeRunner.ts:29-30 | `[ 6 4 5 9 ]` and `[6 4 5 9]` normalise to the same string, `[6 4 5 9]` |
| Normalize.OutputsMatch | src/components/CodeRunner/useCodeRunner.ts:47-60 | the textual part of `outputsMatch`, with the numeric comparison as a parameter; its partners `Normalize.OutputsMatchSelf`, `Normalize.OutputsMatchIgnoresLaterLines` and `Normalize.TextualMatchSameVisible` state what a match means |
| Words.CollapseWords | src/components/CodeRunner/useCodeRunner.ts:34 | collapsing whitespace keeps the words of the text, in order: no run between two words disappears |
| Words.WordsOfTrim | src/components/CodeRunner/useCodeRunner.ts:35 | trimming keeps the words of the text |
| Words.NormalizeJoinsWords | src/components/CodeRunner/useCodeRunner.ts:32-38 | on text without brackets, the normalised text is its words separated by single spaces |
| Words.NormalizeKeepsWords | src/components/CodeRunner/useCodeRunner.ts:32-38 | on text without brackets, only collapsing and trimming act, and the normalised text has the same words as the text |
| Words.SameNormalIffSameWords | src/components/CodeRunner/useCodeRunner.ts:32-38 | two texts without brackets normalise alike exactly when they have the same words |
| Words.NormalizeJoinsTight | src/components/CodeRunner/useCodeRunner.ts:32-38 | any text, brackets included, normalises to its words with one space between neighbours, and with none after a word ending in `[` or before a word starting with `]` |
| Words.SameWordsSameNormal | src/components/CodeRunner/useCodeRunner.ts:32-38 | texts with the same words normalise alike, brackets or not |
| Words.TrimmedCollapseJoins | src/components/CodeRunner/useCodeRunner.ts:34-35 | collapsing and trimming write the words out separated by single spaces |
| Words.CloseJoins | src/components/CodeRunner/useCodeRunner.ts:36 | on words separated by single spaces, `replace(/\s+\]/g, ']')` drops exactly the spaces before words starting with `]` |
| Words.OpenJoins | src/components/CodeRunner/useCodeRunner.ts:37 | after that, `replace(/\[\s+/g, '[')` drops exactly the spaces after words ending in `[` |
| Normalize.OutputsMatchSelf | src/components/CodeRunner/useCodeRunner.ts:47-52 | every output matches itself |
| Normalize.OutputsMatchPadded | src/components/CodeRunner/useCodeRunner.ts:47-52 | the two NumPy spellings of a vector match each other, in both directions |
| Normalize.OutputsMatchNormalizedExpected | src/components/CodeRunner/useCodeRunner.ts:47-52 | normalising the expected text beforehand changes no verdict |
| Normalize.OutputsMatchIgnoresLaterLines | src/components/CodeRunner/useCodeRunner.ts:47-52 | an output whose first line normalises to the expected text matches, whatever follows the first line break |
| Normalize.TextualMatchSameVisible | src/components/CodeRunner/useCodeRunner.ts:47-52 | a textual match means the expected text and the whole output, or its first line, have the same non-whitespace characters |
| Json.JsonMatrix | src/components/CodeRunner/useCodeRunner.ts:186 | `JSON.stringify(matrix)` starts with `[` and ends with `]`; `Json.ParseJsonMatrix` reads it back |
| Json.JsonMatrixChars | src/components/CodeRunner/useCodeRunner.ts:186 | the JSON of a matrix is made of digits, `-`, `,`, `[` and `]` only, so it has no line break |
| Json.ParseJsonMatrix | src/components/CodeRunner/useCodeRunner.ts:186 | reading the JSON text of a matrix back gives the matrix |
| Json.JsonMatrixInjective | src/components/CodeRunner/useCodeRunner.ts:186 | different matrices are written differently, so the program's `arr` is the shown matrix |
| Snippets.BuildChallengePrintCode | src/components/CodeRunner/useCodeRunner.ts:182-206 | `buildChallengePrintCode`; `Snippets.PrintCodeLines`, `Snippets.PrintCodeShape` and `Snippets.SelectionIsHighlight` state what it writes |
| Snippets.PrintCodeLines | src/components/CodeRunner/useCodeRunner.ts:182-206 | every branch writes `arr = np.array(<JSON>)`, a line break, and a print of `arr[<row axis>, <column axis>]`: `i, :` for a row, `:, j` for a column, and for a submatrix a plain index on each axis of width 1 and a slice `start:end` otherwise |
| Snippets.PrintCodeShape | src/components/CodeRunner/useCodeRunner.ts:186-205 | the program has exactly two lines, the assignment and the print, and contains `print(` exactly once |
| Snippets.SelectionIsHighlight | src/components/CodeRunner/useCodeRunner.ts:187-205 | within the grid, the print statement of the answer program selects a cell exactly when `isHighlighted` does; only the last printed line becomes the answer (see Findings) |
| Snippets.RunProgram | src/components/CodeRunner/useCodeRunner.ts:229-236 | without a matrix the program is the trimmed code; with one it is `arr = np.array(<JSON>)`, an empty line, and then the trimmed code itself when it starts with `print(`, or otherwise that code wrapped as `__result = (<code>)` and `print(__result)` |
| Snippets.RunProgramRoundTrip | src/components/CodeRunner/useCodeRunner.ts:229-236 | the player's trimmed code can be read back from the program, so the prefix and the wrapping change nothing in it |
| Snippets.RunProgramIgnoresPadding | src/components/CodeRunner/useCodeRunner.ts:229 | whitespace around the player's code does not change the program |
| Snippets.WrappedPrintsLast | src/components/CodeRunner/useCodeRunner.ts:230-232 | code not starting with `print(` becomes an expression whose value is printed by the program's last line, `print(__result)` |
| Snippets.ChallengeProgramRunsAsBuilt | src/components/CodeRunner/useCodeRunner.ts:213-214 | the answer program runs exactly as built: it gets no matrix and is already trimmed |
| Snippets.ExpectedFromRun | src/components/CodeRunner/useCodeRunner.ts:214-218 | the answer is an error exactly when the run reports a non-empty error message, and the error carries that message |
| Snippets.ExpectedIsLastLine | src/components/CodeRunner/useCodeRunner.ts:216-217 | without an error the answer is the last line of the trimmed output; dropping empty lines never changes which line that is |
| Snippets.ExpectedAnswerShape | src/components/CodeRunner/useCodeRunner.ts:216-217 | the answer is the text after the last line break of the trimmed output, so it contains no line break |
| Snippets.ExpectedEmptyIffBlank | src/components/CodeRunner/useCodeRunner.ts:216-217 | the answer is empty exactly when the output is blank |
| Snippets.ExpectedOfPrintedLine | src/components/CodeRunner/useCodeRunner.ts:214-218 | when the last printed line is trimmed and non-empty, the answer is that line, whatever came before |
| Snippets.ExpectedOfOutputLines | src/components/CodeRunner/useCodeRunner.ts:237-238 | for output captured as lines joined with `\n`, the answer is the last line when it is trimmed and non-empty |
| Snippets.TwoRowAnswerIsLastRow | src/components/CodeRunner/useCodeRunner.ts:214-218 | the answer read off a two-row selection printed as `[[1 2]`, a line break and ` [3 4]]` is ` [3 4]]`, its last row alone |
| Snippets.ExpectedWholeOutput | src/components/CodeRunner/useCodeRunner.ts:214-218 | the corrected answer: an error exactly when the run reports a non-empty error message, carrying that message |
| Snippets.WholeAnswerIffOneLine | src/components/CodeRunner/useCodeRunner.ts:216-217 | the corrected answer equals the answer the code reads exactly when the trimmed output is a single line |
| Snippets.WholeAnswerEmptyIffBlank | src/components/CodeRunner/useCodeRunner.ts:216-217 | the corrected answer is empty exactly when the output is blank |
| Runner.RandomMatrixSize | src/components/CodeRunner/useCodeRunner.ts:11-16 | `randomMatrixSize()` with its draw as a parameter; `Runner.MatrixSizeRange` states its range |
| Runner.MatrixSizeRange | src/components/CodeRunner/useCodeRunner.ts:8-16 | a size drawn from `[0, 3]` lies in `[2, 5]`, and every size in `[2, 5]` has a draw |
| Runner.Initial | src/components/CodeRunner/useCodeRunner.ts:63-71 | the hook starts with the initial matrix, no challenge, no answer, nothing running and both counters at zero |
| Runner.StartNewRound | src/components/CodeRunner/useCodeRunner.ts:73-93 | a new round moves the round counter on by one and issues its ticket; it clears the challenge, answer, code, output and feedback; the run counter and the running flag are kept; a drawn matrix is shown and a given one leaves the shown matrix alone |
| Runner.CompleteRound | src/components/CodeRunner/useCodeRunner.ts:94-103 | a stale completion changes nothing; only the challenge and the answer ever change; the latest round becomes ready exactly when it brings a non-empty answer, and then shows its own challenge; a failure clears the answer and changes nothing else |
| Runner.DrawnRoundFits | src/components/CodeRunner/useCodeRunner.ts:73-82 | a drawn round shows a matrix of the drawn size with single-digit entries, and its challenge lies inside that matrix |
| Runner.FirstRoundFits | src/components/CodeRunner/useCodeRunner.ts:74-82 | the first round, given the shown matrix, keeps showing it, and its challenge lies inside it |
| Runner.EarlierRoundIgnored | src/components/CodeRunner/useCodeRunner.ts:84-103 | once a newer round has started, an older round's completion changes nothing |
| Runner.RoundReadyIff | src/components/CodeRunner/useCodeRunner.ts:94-103 | a waiting round becomes ready exactly when its own completion brings a non-empty answer, and then the challenge is the one that answer belongs to |
| Runner.RunCode | src/components/CodeRunner/useCodeRunner.ts:110-115 | a run is a no-op exactly when the round is not ready (`isRoundReady`, line 156); otherwise it clears output and feedback, marks the run as running, moves the run counter on by one, changes nothing else, and captures code, matrix and answer |
| Runner.CompleteRun | src/components/CodeRunner/useCodeRunner.ts:116-143 | a stale completion changes nothing; the latest one changes only output and feedback, stops the run, and starts the next round exactly when the feedback is `Correct!` |
| Runner.RunJudged | src/components/CodeRunner/useCodeRunner.ts:126-134 | an error-free run is correct exactly when its trimmed output matches the trimmed captured answer; the output is shown as printed unless it is blank, which shows `(no output)` |
| Runner.ErrorsAreWrong | src/components/CodeRunner/useCodeRunner.ts:121-140 | a reported error or an interpreter failure shows `Error: ` followed by its message, with `Not quite`, and never advances |
| Runner.EarlierRunIgnored | src/components/CodeRunner/useCodeRunner.ts:115-143 | once a newer run has started, an older run's completion changes nothing and does not stop the newer run |
| Runner.RunOutlivesRound | src/components/CodeRunner/useCodeRunner.ts:84-142 | a new round does not move the run counter, so a run started before it is still applied afterwards |
| Runner.RunUsesCapturedAnswer | src/components/CodeRunner/useCodeRunner.ts:129-144 | a run is judged against the answer it captured: printing exactly that answer is correct |
| Runner.TwoRowPrintDoesNotMatch | src/components/CodeRunner/useCodeRunner.ts:47-52 | printing the whole two-row selection does not match its last row: the whole output, its first line and the answer differ in their second visible character |
| Runner.TwoRowRoundRejectsItsOwnOutput | src/components/CodeRunner/useCodeRunner.ts:94-134 | as written, a round whose answer program printed the two-row selection becomes ready, yet a run printing exactly that selection is judged wrong |
| Runner.WholeAnswerRoundAcceptsItsOwnOutput | src/components/CodeRunner/useCodeRunner.ts:94-134 | with the corrected answer a round is ready exactly when its program printed something, and then a run printing exactly what it printed is judged correct, whatever its number of lines |
| Runner.CompleteRunAsWritten | src/components/CodeRunner/useCodeRunner.ts:129-140 | as written, a completion whose play recording returned is exactly `Runner.CompleteRun`, and recording can only take an advance away, never add one |
| Runner.RecordThrowLosesCorrectRun | src/lib/playCount.ts:5-19 | as written, a run judged correct whose `recordPlayCount()` throws from `getAnonymousId()` shows `Error: <message>` with `Not quite` and does not advance |
| Runner.CompleteRunNonBlocking | src/lib/playCount.ts:14-18 | with fire-and-forget recording, a completion whose recording returned is the same as written |
| Runner.RecordingNeverBlocks | src/lib/playCount.ts:14-18 | with fire-and-forget recording, a latest error-free run advances exactly when its output matches the captured answer, whatever recording did |
| Runner.SetCode | src/components/CodeRunner/useCodeRunner.ts:66 | editing the code changes nothing else |

## Findings

| source | as written | input that shows it | evidently intended | confidence | as-written member | corrected member |
|---|---|---|---|---|---|---|
| src/components/CodeRunner/useCodeRunner.ts:216-217 | the expected answer is the last non-empty line of the answer program's trimmed output | a submatrix of at least two rows, which NumPy prints over several lines, e.g. `[[1 2]`, a line break, ` [3 4]]`: the answer is ` [3 4]]`, and a player printing exactly the selection is judged wrong | the answer is the whole trimmed output, so printing the selection the region shows is correct | medium, not executed; it depends on NumPy printing a 2-D array over several lines and on an interpreter preamble that is not part of this model | Runner.TwoRowRoundRejectsItsOwnOutput | Runner.WholeAnswerRoundAcceptsItsOwnOutput |
| src/components/CodeRunner/useCodeRunner.ts:131-140 | `recordPlayCount()` is called inside the run's `.then`, after the feedback is set to `Correct!`, and its synchronous `getAnonymousId()` can throw | a correct run in a browser that refuses `localStorage`, or on a page without `crypto.randomUUID`: the throw reaches the run's `.catch`, which shows `Error: <message>` and `Not quite`, and no next round is scheduled | recording a play is fire-and-forget (src/lib/playCount.ts:14-15), so the run stays correct and the next round follows | medium, not executed; it depends on the browser throwing from `localStorage` or `crypto.randomUUID` | Runner.RecordThrowLosesCorrectRun | Runner.RecordingNeverBlocks |
The corrected answer is `Snippets.ExpectedWholeOutput`. The rest of the model
keeps the round's answer as a parameter of `Runner.CompleteRound`, so it
accepts either definition; `Snippets.WholeAnswerIffOneLine` says the two agree
exactly on single-line output. The rest of the model completes a run with
`Runner.CompleteRun`, which is `Runner.CompleteRunNonBlocking`: recording a
play never changes the verdict. `Runner.CompleteRunAsWritten` keeps the
throwing path.

## Left out

- Loading and running the Python interpreter is not modelled. This covers `getPyodide`, `loadPyodide`, `runPythonAsync` and the `setStdout`/`setStderr` hooks. A run's standard output and error message are inputs, and so is the outcome of the answer program.
- The numeric branch of `outputsMatch` is not modelled. It uses JavaScript `Number()` parsing and a floating-point tolerance of `1e-10`. It is the parameter `numericClose`, applied to the same normalised texts. Its symmetry and tolerance bound are therefore not proved.
- `Math.random()` is not modelled: every call is an integer draw given as a parameter, with the range the call allows.
- The 900 ms `setTimeout` before the next round is not modelled. `Runner.CompleteRun` reports through `advance` that the next round is due, and the next round is a separate `Runner.StartNewRound` step.
- The Supabase requests that `recordPlayCount` sends, and the leaderboard, are network I/O and are not modelled. The synchronous start of `recordPlayCount`, `getAnonymousId` with `localStorage` and `crypto.randomUUID`, is modelled only by how it ended: the `Runner.Recording` parameter.
- Runner.CompleteRun: assumes that `recordPlayCount()` returns normally. When it throws (src/lib/playCount.ts:5-19), the source's `.catch` (useCodeRunner.ts:136-140) shows `Error: <message>` with `Not quite`, and no next round is scheduled. That path is `Runner.CompleteRunAsWritten`, listed under Findings.
- Runner.RunJudged: assumes, like `Runner.CompleteRun`, that `recordPlayCount()` returns normally. When it throws, a matching run does not advance (`Runner.RecordThrowLosesCorrectRun`).
- The JSX, styling and the remaining React plumbing (`useState`, `useCallback`, `useEffect`) are not modelled. The effect that starts the first round with the module-level `INITIAL_MATRIX` is `Runner.StartNewRound` with `Some(matrix)`.
- Runner.StartNewRound: requires a given matrix to have a row. The source reads `matrixToUse[0].length`, which throws on an empty array, and it only ever passes `INITIAL_MATRIX`, which has at least two rows.
- Json.IntToString: writes every integer in plain digits. `JSON.stringify` switches to exponent form from `1e21` on, and the quiz's entries are single digits. `-0` is not a value of Dafny's `int`.
- Snippets.SelectionIsHighlight: speaks of non-negative positions inside the grid only. NumPy's negative and out-of-range indices never occur in the programs the quiz writes for in-bounds challenges.
- Unicode handling beyond single code points is not modelled: strings are sequences of characters, and `\s` and `trim()` are both the ECMAScript whitespace set.
