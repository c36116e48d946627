# Fractal vulnerability analyzer: the integer core

The analyzer takes source code as text and computes a "vulnerability score"
from four metrics over the code's blocks. This project models the parts of
that pipeline that are not floating point, and proves what they compute:

- **Block splitter** (`parse_code_into_blocks`, module `BlockSplitter`). The
  text is cut at every match of the pattern `\n\s*\n|\n\s*def `. Each piece is
  stripped, and pieces that strip to nothing are dropped. The regular
  expression is modelled as Python's engine runs it. The scan goes left to
  right and resumes after each match. At a line feed, `\s*` first takes the
  longest whitespace run. The blank-line alternative is tried first: it backs
  off to the last line feed in that run. Only when the run holds no line feed
  is `def ` after the run tried. Whitespace is Python's `\s` / `str.strip()`
  set (module `PyText`).
- **Line counter** (`calculate_complexity`, module `Complexity`). Each block
  counts as `len(block.split('\n'))` lines, and the counts are summed.
- **Box-counting loop** of `enhanced_fractal_dimension` (module
  `BoxCounting`). This is imperative Dafny with the source's nested loops and
  the `covered` set. Every per-scale count is the number of distinct blocks.
  The model stops at the arguments of the `log` calls on line 40. Each of the
  four terms is `c / c` with `c > 0`, over a scale ratio of exactly one half.
  An empty block list raises `ZeroDivisionError`.
- **Keyword tally** of `interdisciplinary_fractal_analysis` (module
  `KeywordScore`). This is a loop that updates the `scores` map. Each category
  counts the blocks that contain its keyword. The sum equals the number of
  (block, keyword) pairs with a hit. It is order-independent and at most three
  per block.
- **`assess_vulnerabilities`** up to its floating-point steps (module
  `Analysis`). This module also proves worked examples: a `def` after a blank
  line and after a single line feed, and the two-function input.

Three consequences of `main.py` as written:

- For an empty block list, both counts on line 40 are 0, so `counts[0] /
  counts[1]` raises `ZeroDivisionError` and `assess_vulnerabilities` stops at
  line 76. `FractalDimensionTerms` returns that error exactly for the empty
  list. The `else 0` on line 41 is unreachable, because there are always four
  terms.
- `"def a():\n    pass\n\ndef b():\n    pass"` is split at the blank line,
  because the blank-line alternative matches first. Both blocks keep their
  `def` header and have two lines each, so the complexity is 4
  (`Analysis.TwoFunctions`, `Analysis.TwoFunctionsComplexity`).
- For any non-empty block list, every count ratio on line 40 is 1. The
  fractal dimension is then `0.0`, and so is the final score.

## Model

| member | source | states |
|---|---|---|
| PyText.IsSpace | main.py:13-14 | Python's whitespace set, shared by `\s` in the pattern and by `str.strip()`; its partners RunEndMaximal and Strip state what the run and the strip are in its terms |
| PyText.Strip | main.py:14 | `str.strip()`: the result is the input with only whitespace removed before and after it; it is empty exactly when the input is all whitespace, and otherwise starts and ends with a non-space character |
| PyText.StripFixed | main.py:14 | text that neither starts nor ends with whitespace is its own strip |
| PyText.StripIdempotent | main.py:14 | stripping twice is stripping once |
| PyText.Contains | main.py:59-63 | Python's `in` on strings as a left-to-right search; its partner ContainsIff states that it is true exactly when the keyword occurs at some position |
| PyText.ContainsIff | main.py:59-63 | the `in` test on strings is true exactly when the keyword occurs at some position of the block |
| PyText.MissingFirstChar | main.py:59-63 | a keyword whose first character is absent from the block is not in it |
| PyText.SplitOn | main.py:21 | `block.split('\n')`: at least one part; its partners SplitOnLength and SplitOnRejoins give the number of parts and the round trip |
| PyText.SplitOnLength | main.py:21 | `block.split('\n')` has one part more than the block has line feeds |
| PyText.SplitOnRejoins | main.py:21 | no part of `split('\n')` holds a line feed, and joining the parts with line feeds gives back the block |
| BlockSplitter.RunEndMaximal | main.py:13 | greedy `\s*`: the run after the line feed is all whitespace and cannot be extended |
| BlockSplitter.LastNewlineIsLast | main.py:13 | the first alternative backs the greedy run off to its last line feed, and fails only when the run holds none |
| BlockSplitter.MatchAt | main.py:13 | the end of the pattern's match at one position, if any, always past that position; MatchAtSound, MatchAtComplete and MatchAtPrefersLongestBlankLine relate it to the two alternatives |
| BlockSplitter.MatchAfterRun | main.py:13 | the match after the line feed, given the greedy whitespace run: backing off to the run's last line feed, or `def ` after the run; it always ends past the line feed |
| BlockSplitter.MatchAtSound | main.py:13 | every match of the pattern spans a blank-line separator or a `def` separator |
| BlockSplitter.MatchAtComplete | main.py:13 | wherever a separator of either kind starts, the pattern matches there |
| BlockSplitter.MatchAtPrefersLongestBlankLine | main.py:13 | alternation order and greediness: where a blank-line separator starts, the match is a blank-line separator reaching at least as far |
| BlockSplitter.MatchAtDrop | main.py:13 | the match at a position depends only on the text from there on |
| BlockSplitter.SplitFrom | main.py:13 | the scan of `re.split` from one position, cutting a piece at each match and resuming after it; SplitFromRejoins and SplitFromPiecesClean state that it loses nothing and leaves no separator in a piece |
| BlockSplitter.SplitCode | main.py:13 | `re.split(pattern, code)`, the scan from the start; SplitCodeRejoins, SplitCodePiecesClean and SplitCodeOnePieceIff are its partners |
| BlockSplitter.SplitFromDrop | main.py:13 | resuming the scan after a match splits the rest of the text as if it stood alone |
| BlockSplitter.SplitCodeRejoins | main.py:13 | `re.split` loses nothing: the pieces and the matched separators, interleaved, give back the text, and there is one piece more than separators |
| BlockSplitter.SplitCodePiecesClean | main.py:13 | the split is exhaustive: no piece contains a separator |
| BlockSplitter.SplitCodeOnePieceIff | main.py:13 | the text comes back as the only piece exactly when it holds no separator |
| BlockSplitter.NoNewlineNoSeparator | main.py:13 | text without a line feed holds no separator |
| BlockSplitter.SplitAfterBlankLine | main.py:13 | a trimmed separator-free block, a blank line and text starting with a non-space character split into that block followed by the split of the rest |
| BlockSplitter.KeepStripped | main.py:14 | the comprehension keeps at most one block per piece, each non-empty with no whitespace at either end |
| BlockSplitter.KeepStrippedAllSpace | main.py:14 | all-whitespace pieces yield no block |
| BlockSplitter.KeepStrippedClean | main.py:14 | stripping pieces without a separator keeps only trimmed, separator-free blocks |
| BlockSplitter.ParseCodeIntoBlocks | main.py:13-14 | every block is non-empty and equal to its own strip; empty or all-whitespace text gives no block |
| BlockSplitter.ParseWithoutSeparator | main.py:13-14 | text without a separator gives `[code.strip()]`, or `[]` when that is empty |
| BlockSplitter.ParseGivesCleanBlocks | main.py:13-14 | every block is trimmed and contains no separator |
| BlockSplitter.ParseJoinedBlocks | main.py:13-14 | trimmed, separator-free blocks joined by blank lines parse back to the same blocks |
| BlockSplitter.ParseJoinParse | main.py:13-14 | writing the blocks out with blank lines between them and parsing again gives the same blocks |
| Complexity.LineCount | main.py:21 | a block's line count is its number of line feeds plus one |
| Complexity.CalculateComplexity | main.py:17-21 | the complexity is at least the number of blocks, and zero exactly for no blocks |
| Complexity.ComplexityCountsNewlines | main.py:21 | the complexity is the number of blocks plus the number of line feeds in all of them |
| Complexity.ComplexityAppend | main.py:21 | the complexity adds up over consecutive runs of blocks |
| BoxCounting.DistinctBounds | main.py:35-37 | a block list has at most as many distinct values as entries, and none only when it is empty |
| BoxCounting.CoverWindow | main.py:34-37 | the inner loop over one window counts each not-yet-seen block once and marks it seen, visiting the window's positions in order |
| BoxCounting.CountAtScale | main.py:31-37 | at any scale the windows visit the positions `0 .. len - 1` once each, in order, and the count is the number of distinct blocks |
| BoxCounting.BoxCounts | main.py:28-38 | `counts` has five entries, all equal to the number of distinct blocks |
| BoxCounting.TermsFrom | main.py:40 | the `dimensions` comprehension evaluated left to right: a term divides the counts and then takes the `log` of the quotient, so the first zero count raises `ZeroDivisionError` unless a zero count before a non-zero one has already made `log` raise `ValueError`; without either, one term per adjacent pair of scales, with their counts and scales as log arguments |
| BoxCounting.LogOfZeroRatio | main.py:40 | a zero first count followed by a non-zero one raises `ValueError` from `log` |
| BoxCounting.FractalDimensionTerms | main.py:24-41 | `ZeroDivisionError` exactly for an empty block list and terms otherwise, never `ValueError`; four terms, each with count ratio `c / c`, `c > 0`, and scale ratio one half |
| KeywordScore.BlocksContaining | main.py:59-64 | one category's count: the blocks that contain its keyword, at most one per block; InterdisciplinaryScores and TallyByCategory tie it to the loop and the total |
| KeywordScore.Hits | main.py:59-64 | a block adds to at most three categories, and to none exactly when it contains none of the keywords |
| KeywordScore.Tally | main.py:57-66 | the tally is at most three per block |
| KeywordScore.InterdisciplinaryScores | main.py:57-66 | the loop leaves exactly the three categories, each holding the number of blocks that contain its keyword, and their sum is the tally of (block, keyword) hits |
| KeywordScore.TallyByCategory | main.py:57-66 | the tally is the sum over the three keywords of the blocks that contain it |
| KeywordScore.TallyAppend | main.py:58-64 | the tally adds up over consecutive runs of blocks |
| KeywordScore.TallyPermutation | main.py:58-64 | reordering the blocks does not change the tally |
| KeywordScore.TallyZeroIff | main.py:58-64 | the tally is zero exactly when no block contains any keyword |
| Analysis.AssessInputs | main.py:70-78 | the assessment raises `ZeroDivisionError` at the fractal dimension exactly when there is no block, so for all-whitespace text, and never reaches the keyword score then; otherwise it yields the blocks, their complexity (at least one per block), four `log` terms `c / c` over one half, and the keyword tally (at most three per block) |
| Analysis.BlankLineBeforeDef | main.py:13-14 | a block, a blank line and `def name` give two blocks, the second keeping its `def` |
| Analysis.DefAfterSingleNewline | main.py:13-14 | in `"x\ndef f"` the separator consumes `def `, giving the blocks `x` and `f` |
| Analysis.DefOnlyGivesNoBlock | main.py:13-14 | `"\ndef "` is not all whitespace, yet gives no block: the separator consumes every non-space character |
| Analysis.FunctionBlockClean | main.py:13 | a `def f():` / `    pass` block is trimmed and holds no separator |
| Analysis.FunctionBlockLines | main.py:21 | such a block has two lines |
| Analysis.TwoFunctions | main.py:13-14 | two such functions separated by a blank line parse into exactly those two blocks |
| Analysis.TwoFunctionsComplexity | main.py:21 | their complexity is four |
| Analysis.TwoKeywordsOneBlock | main.py:58-64 | a block naming an ecosystem and then a market adds one to each of two categories |

## Left out

- The Flask application, the `/analyze` route, JSON request and response handling and `app.run` (main.py:1,5,85-96) are web input and output, outside the computation.
- Floating-point arithmetic is not modelled: the `log` ratios and their average (main.py:40-41), `dynamic_scaling_factor` (main.py:44-49), the division on main.py:67 and the combined score on main.py:81. Line 40 is modelled only as far as its log arguments, as integer pairs, and the `ZeroDivisionError` and `ValueError` it can raise.
- `dynamic_scaling_factor` (main.py:44-49) is floating point throughout and is not modelled. For an empty block list its `log(0)` would raise too, but line 76 raises before it is called, which `Analysis.AssessInputs` does model.
- BoxCounting.FractalDimensionTerms: the ensures states the arguments of each `log`, not the value of the average. With every count ratio equal to 1, that value is 0.0.
- No general regular-expression engine is modelled. The pattern of main.py:13 is written out by hand as a function on strings.
- Strings are sequences of Unicode scalar values, so Python strings holding lone surrogates are not represented.
- BlockSplitter.ParseCodeIntoBlocks: "empty or all-whitespace text gives no block" is stated in one direction only, because it holds only that way. Text such as `"\ndef "` also gives no block, since its only non-space characters are consumed by the separator (`Analysis.DefOnlyGivesNoBlock`).
