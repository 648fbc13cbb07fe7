# Verified model of three string utilities of an AI coding assistant

This Dafny project models the non-UI logic found beside the chat interface of
an AI coding assistant (an editor extension with a web-view front end):

- **The budget-constrained line truncator** (`truncateIfNeeded`). A tool's
  output may use a fifth of the model's context window, estimated at three
  characters per token and rounded up. A character here is what
  JavaScript's `length` counts: a UTF-16 code unit, so a character outside
  the Basic Multilingual Plane (an emoji, say) counts twice. Text that fits is returned unchanged.
  Otherwise the greedy loop `computeLinesToKeep` keeps the longest run of
  leading lines whose summed estimates fit. The result is a notice giving
  both line counts, a blank line, and the kept lines joined again
  (module `Truncation`, file `truncate.dfy`).
- **The Mermaid syntax auto-fixer** (`MermaidSyntaxFixer`). The
  deterministic fix turns every HTML-escaped arrow `--&gt;` back into
  `-->`. `autoFixSyntax` then loops: fix, validate, stop on success,
  otherwise ask the language model for a fix. It makes at most two
  requests and returns the best code reached (module
  `MermaidSyntaxFixer`, file `mermaid.dfy`).
- **The model-id pretty-printer** (`prettyModelName`). It turns
  `anthropic/claude-3-opus:beta` into `Claude 3 Opus (Beta)` (module
  `ModelName`, file `model_name.dfy`).

Module `Text` (`text.dfy`) holds what the three share: JavaScript's
`split` and `join` for a one-character separator, with their round trips,
the UTF-16 length of a string, and the decimal rendering of the line
counts in the notice.

How the model is built:

- `computeLinesToKeep` is a loop in the source, so `ComputeLinesToKeep` is a
  method with a `while` loop. It is proved equal to `LinesToKeep`, a
  recursive function that takes lines while their estimate fits in what is
  left of the budget. Lemmas about `LinesToKeep` show that it is the longest
  prefix that fits, and that the greedy conditions determine it.
- `autoFixSyntax` is a method with the source's `while (true)` loop. The
  Mermaid parser is a parameter `validate: string -> Validation`. The model
  is a parameter `llm(i, code, error)`: the reply to the `i`-th request sent
  with that code and error. A ghost out-parameter records every code that
  was validated. The postconditions pin down the whole result: success,
  fixed code, error text and attempt count.
- `applyDeterministicFixes` and `prettyModelName` are pure, so they are
  functions with lemmas.

One consequence of the code is worth knowing. The whole-text estimate counts
newlines, but the per-line estimates do not, and each line is rounded up on
its own. So the whole text can be over budget while every line fits,
whenever its newlines tip it over: `"abc\ndef"` at window 10 estimates to 3
tokens against a budget of 2, yet its lines cost 1 + 1, so the output says
"truncated from 2 lines to 2 lines" and keeps the whole text. The extreme
case is a text of newlines only: four newlines at window 5 give "truncated
from 5 lines to 5 lines", and the body is the whole text
(`Truncation.NewlinesOnlyKeepEveryLine`). `Truncation.TruncatedOutput`
covers these cases too.

The model follows the code where a test disagrees with it. The test at
`src/core/tools/kilocode/__tests__/truncateIfNeeded.test.ts:192-201` expects
61 characters at window 100 to be returned unchanged, as if the estimate
were rounded down. The code rounds up (`truncateIfNeeded.ts:6`): 61
characters estimate to 21 tokens, over the budget of 20. So that test would
fail against the code. `Truncation.ExamplesOnOneLine` proves the truncation the
code performs.

## Model

| member | source | states |
|---|---|---|
| `Text.Split` | src/core/tools/kilocode/truncateIfNeeded.ts:29 | splitting gives one more piece than there are separators (so `""` gives one line), and no piece contains the separator |
| `Text.JoinSplit` | src/core/tools/kilocode/truncateIfNeeded.ts:29-35 | joining the split lines with `"\n"` gives back the original text |
| `Text.SplitJoin` | src/core/tools/kilocode/truncateIfNeeded.ts:35 | splitting a join of separator-free parts gives back exactly those parts |
| `Text.Join` | src/core/tools/kilocode/truncateIfNeeded.ts:35 | no parts join to the empty string; otherwise the join starts with the first part and is at least one separator per gap long |
| `Text.SplitWithoutSeparator` | src/core/tools/kilocode/truncateIfNeeded.ts:29 | a text without a newline is a single line |
| `Text.SplitAtFirstSeparator` | webview-ui/src/utils/prettyModelName.ts:5 | the first piece is the text before the first separator; the rest is the split of what follows it |
| `Text.FirstPiece` | webview-ui/src/utils/prettyModelName.ts:5 | the first piece is the separator-free text up to the first separator, whatever comes after |
| `Text.JoinAppend` | src/core/tools/kilocode/truncateIfNeeded.ts:35 | joining two non-empty runs of lines puts exactly one separator between them |
| `Text.JoinPrefix` | src/core/tools/kilocode/truncateIfNeeded.ts:35 | the join of the first `n` lines is a prefix of the join of all lines |
| `Text.JoinFirstTwo` | src/core/tools/kilocode/truncateIfNeeded.ts:35 | the join of two lines is the first, the separator, then the second |
| `Text.JoinKeepsOut` | webview-ui/src/utils/prettyModelName.ts:16 | a character in neither the parts nor the separator is not in the join |
| `Text.NatToString` | src/core/tools/kilocode/truncateIfNeeded.ts:36 | a line count prints as at least one decimal digit with no leading zero |
| `Text.ParseNatToString` | src/core/tools/kilocode/truncateIfNeeded.ts:36 | the printed count reads back as the same number, so the notice shows the counts exactly |
| `Text.NatToStringInjective` | src/core/tools/kilocode/truncateIfNeeded.ts:36 | different counts print differently |
| `Text.Utf16Length` | src/core/tools/kilocode/truncateIfNeeded.ts:6 | `text.length`: one code unit per character of the Basic Multilingual Plane and two (a surrogate pair) per character beyond it, so between the character count and twice it |
| `Text.Utf16LengthOfBmp` | src/core/tools/kilocode/truncateIfNeeded.ts:6 | the UTF-16 length equals the character count exactly when every character is in the Basic Multilingual Plane |
| `Text.Utf16LengthAppend` | src/core/tools/kilocode/truncateIfNeeded.ts:6 | the UTF-16 length of a concatenation is the sum of the lengths |
| `Truncation.TokenEstimate` | src/core/tools/kilocode/truncateIfNeeded.ts:3-7 | the estimate is the ceiling of the UTF-16 length over 3: the fewest tokens whose three code units each cover the text |
| `Truncation.TokenEstimateMonotone` | src/core/tools/kilocode/truncateIfNeeded.ts:3-7 | a text never has a smaller estimate than its prefixes |
| `Truncation.MaxTokens` | src/core/tools/kilocode/truncateIfNeeded.ts:24 | the budget is `floor(0.2 * contextWindow)`: the largest integer `b` with `5b <= contextWindow` |
| `Truncation.LinesToKeep` | src/core/tools/kilocode/truncateIfNeeded.ts:8-21 | the kept count is at most the line count; the kept lines' summed estimates fit (or none are kept); and if a line is dropped, adding it would pass the budget |
| `Truncation.ComputeLinesToKeep` | src/core/tools/kilocode/truncateIfNeeded.ts:8-21 | the loop returns the greedy count: it fits, and every longer prefix is over budget |
| `Truncation.SumSnoc` | src/core/tools/kilocode/truncateIfNeeded.ts:17 | the running total grows by exactly the estimate of the line taken |
| `Truncation.SumMonotone` | src/core/tools/kilocode/truncateIfNeeded.ts:11-19 | running totals never shrink as lines are added |
| `Truncation.LinesToKeepIsLongestFit` | src/core/tools/kilocode/truncateIfNeeded.ts:8-21 | every prefix longer than the kept one is over budget: the greedy prefix is maximal, with no backfilling of later lines |
| `Truncation.LinesToKeepUnique` | src/core/tools/kilocode/truncateIfNeeded.ts:8-21 | any count that fits and whose next line does not fit equals the greedy count |
| `Truncation.LinesToKeepUniform` | src/core/tools/kilocode/truncateIfNeeded.ts:8-21 | for lines of equal positive estimate `e`, with room for exactly `k` of them, the loop keeps `k` lines (or all, if there are fewer) |
| `Truncation.Notice` | src/core/tools/kilocode/truncateIfNeeded.ts:36-38 | the notice starts "**Important:** The output below was truncated from "; otherwise a definition (the counts and the fixed wording) |
| `Truncation.TruncateIfNeeded` | src/core/tools/kilocode/truncateIfNeeded.ts:23-27 | a text whose estimate fits the budget is returned unchanged |
| `Truncation.NoticeDeterminesCounts` | src/core/tools/kilocode/truncateIfNeeded.ts:36 | two notices are equal only when they report the same original and kept counts: the printed counts are read back unambiguously |
| `Truncation.CountThenSpace` | src/core/tools/kilocode/truncateIfNeeded.ts:36 | a printed count followed by a space determines the count and the text after it |
| `Truncation.TruncatedOutput` | src/core/tools/kilocode/truncateIfNeeded.ts:29-38 | over budget, with `n` the number of newlines plus one and `k` the greedy kept count (`k <= n`), the output is `Notice(n, k)`, then `"\n\n"`, then a body that is a prefix of the text; the body is empty when `k = 0`, and otherwise splits into exactly the first `k` lines of the text |
| `Truncation.KeptBodyIsWholeLinePrefix` | src/core/tools/kilocode/truncateIfNeeded.ts:29-35 | the kept body is a prefix of the original text and splits back into exactly the kept lines |
| `Truncation.SingleLineOverBudget` | src/core/tools/kilocode/truncateIfNeeded.ts:29-38 | a single line over budget gives the notice "from 1 lines to 0 lines" followed by `"\n\n"` and nothing else |
| `Truncation.EqualLinesOverBudget` | src/core/tools/kilocode/truncateIfNeeded.ts:29-38 | equal-width lines over budget, with room for `k` of them, give the notice and the first `k` lines |
| `Truncation.ExamplesThatFit` | src/core/tools/kilocode/__tests__/truncateIfNeeded.test.ts:14-214 | up to 600 characters of the Basic Multilingual Plane fit at window 1000 and up to 60 at window 100 ("Hello world", "", "a", four newlines, 60 characters at 100, 600 at 1000): the text comes back unchanged |
| `Truncation.ExamplesOnOneLine` | src/core/tools/kilocode/__tests__/truncateIfNeeded.test.ts:47-225 | one line of Basic Multilingual Plane characters, 11 of them at window 0 or 1, 61, 300 or 600 at window 100, or 603 at window 1000 keeps 0 of 1 lines and ends in `"\n\n"` |
| `Truncation.ExampleSurrogatePairs` | src/core/tools/kilocode/truncateIfNeeded.ts:6 | two characters outside the Basic Multilingual Plane count as four code units: at window 5 the line is truncated to nothing, at window 10 it is returned unchanged |
| `Truncation.ExampleFiveLinesKeepTwo` | src/core/tools/kilocode/__tests__/truncateIfNeeded.test.ts:59-80 | five 30-character lines at window 100 give "from 5 lines to 2 lines" and exactly the first two lines, joined by one newline |
| `Truncation.ExampleTenLinesKeepFive` | src/core/tools/kilocode/__tests__/truncateIfNeeded.test.ts:168-176 | ten 60-character lines at window 500 give "from 10 lines to 5 lines" and the first five lines; the test checks these counts in the `console.warn` message, which prints the same two counts as the notice |
| `Truncation.ExampleShortLinesKeepAll` | src/core/tools/kilocode/truncateIfNeeded.ts:3-38 | two 3-character lines at window 10 (such as `"abc\ndef"`) are over budget as a whole (3 tokens against 2) while each line costs 1, so the output says "from 2 lines to 2 lines" and keeps the whole text |
| `Truncation.NewlinesOnlyKeepEveryLine` | src/core/tools/kilocode/truncateIfNeeded.ts:25-38 | a text of newlines only that is over a non-negative budget keeps all `n + 1` lines, and its body is the whole text |
| `MermaidSyntaxFixer.ApplyDeterministicFixes` | webview-ui/src/services/mermaidSyntaxFixer.ts:25-28 | the fix never makes the code longer |
| `MermaidSyntaxFixer.FixLeavesCleanCodeUnchanged` | webview-ui/src/services/mermaidSyntaxFixer.ts:27 | code without `--&gt;` is left as it is |
| `MermaidSyntaxFixer.FixReplacesEveryOccurrence` | webview-ui/src/services/mermaidSyntaxFixer.ts:27 | each `--&gt;` becomes `-->`, and the text on either side is fixed on its own |
| `MermaidSyntaxFixer.FixRemovesEveryEscapedArrow` | webview-ui/src/services/mermaidSyntaxFixer.ts:27 | the fixed code contains no `--&gt;`, including none formed around a replacement |
| `MermaidSyntaxFixer.FixIsIdempotent` | webview-ui/src/services/mermaidSyntaxFixer.ts:25-28 | fixing twice is the same as fixing once |
| `MermaidSyntaxFixer.LastError` | webview-ui/src/services/mermaidSyntaxFixer.ts:109 | the error is never empty: a non-empty validator message is passed on exactly, and any other validation gives "Unknown syntax error" |
| `MermaidSyntaxFixer.ExhaustedError` | webview-ui/src/services/mermaidSyntaxFixer.ts:113 | the give-up message ends in the last error |
| `MermaidSyntaxFixer.Usable` | webview-ui/src/services/mermaidSyntaxFixer.ts:121 | a definition: the reply carries non-empty code |
| `MermaidSyntaxFixer.RequestError` | webview-ui/src/services/mermaidSyntaxFixer.ts:122-128 | a thrown `Error` gives its message; the error is empty only for a thrown `Error` with an empty message |
| `MermaidSyntaxFixer.AutoFixSyntax` | webview-ui/src/services/mermaidSyntaxFixer.ts:91-139 | the codes validated are the fixed input, then the fixed usable reply of each failed attempt in turn. At most `MAX_FIX_ATTEMPTS + 1` = 3 codes are validated. The returned code is the last one validated and contains no `--&gt;`. `success` holds exactly when that code is valid, and then there is no error. After 2 failed requests the error is "Failed to fix syntax after 2 attempts. Last error: …". After a missing or empty reply the error is "LLM failed to provide a fix". After a thrown request the error is its message, or "Fix request failed". `attempts` counts the requests made. Valid fixed input means success with no request |
| `MermaidSyntaxFixer.ExtendRun` | webview-ui/src/services/mermaidSyntaxFixer.ts:117-126 | a failed validation followed by a usable reply extends the run by the fixed reply |
| `ModelName.Capitalize` | webview-ui/src/utils/prettyModelName.ts:15-20 | the word keeps its length and every character after the first; a lower-case ASCII first letter becomes its upper-case form, any other first character is kept, and the first character is never a lower-case letter afterwards |
| `ModelName.Words` | webview-ui/src/utils/prettyModelName.ts:13-14 | the words are non-empty and contain no `-`; with `NonEmpty` and `FormatHyphenPieces` they are exactly the non-empty `-` pieces, in order |
| `ModelName.FormatName` | webview-ui/src/utils/prettyModelName.ts:12-16 | the formatted name contains no `-`; `FormatHyphenPieces` gives its value for every name |
| `ModelName.NonEmpty` | webview-ui/src/utils/prettyModelName.ts:14 | a word is kept exactly when it is in the input and non-empty, and none is added; with `NonEmptyAppend` and `NonEmptyOfNonEmpty` this fixes the filter, order included |
| `ModelName.CapitalizeAll` | webview-ui/src/utils/prettyModelName.ts:15 | every word is mapped to its capitalised form, one for one |
| `ModelName.PrettyModelName` | webview-ui/src/utils/prettyModelName.ts:2-4 | an empty id gives the empty string |
| `ModelName.NamePart` | webview-ui/src/utils/prettyModelName.ts:9 | with a `/` in the id the name part contains no `/`; without one it is the whole id |
| `ModelName.UntaggedId` | webview-ui/src/utils/prettyModelName.ts:5-25 | an id without `:` is just its formatted name part |
| `ModelName.TaggedId` | webview-ui/src/utils/prettyModelName.ts:5-22 | for `mainId:tag` followed by nothing or more `:` pieces, the result is the formatted name plus `" (" + Capitalised(tag) + ")"` when the tag is non-empty, and the name alone when it is empty (as for `"x:"`) |
| `ModelName.NameAfterSlash` | webview-ui/src/utils/prettyModelName.ts:9 | the name part of `owner/name/...` is `name`; an id without `/` is its own name part |
| `ModelName.NameOfOwnerAndWords` | webview-ui/src/utils/prettyModelName.ts:9 | the name part of `owner/` plus hyphen-joined words is those words, and such an id has no `:` |
| `ModelName.FormatHyphenPieces` | webview-ui/src/utils/prettyModelName.ts:12-16 | any name, written as its hyphen-free pieces joined by `-` (some possibly empty), comes out as the non-empty pieces capitalised and joined by single spaces: leading, trailing and doubled hyphens leave nothing, and the empty name gives `""` |
| `ModelName.FormatJoinedWords` | webview-ui/src/utils/prettyModelName.ts:12-16 | non-empty hyphen-free words joined by `-` come out capitalised and joined by single spaces |
| `ModelName.WordsAroundHyphen` | webview-ui/src/utils/prettyModelName.ts:13-14 | a `-` separates the words before it from those after it, and contributes no empty word |
| `ModelName.NonEmptyAppend` | webview-ui/src/utils/prettyModelName.ts:14 | filtering out empty words distributes over concatenation |
| `ModelName.NonEmptyOfNonEmpty` | webview-ui/src/utils/prettyModelName.ts:14 | filtering words that are all non-empty changes nothing |
| `ModelName.OwnerWithoutName` | webview-ui/src/utils/prettyModelName.ts:1-25 | an owner with nothing after its `/` (such as `openai/`) has the empty name part and reads as `""` |
| `ModelName.OwnerWordsAndTag` | webview-ui/src/utils/prettyModelName.ts:1-26 | `owner/word-…-word:tag` reads as the capitalised words joined by spaces, then the capitalised tag in parentheses (e.g. `anthropic/claude-3-opus:beta` gives `Claude 3 Opus (Beta)`) |

## Left out

- The `console.warn` diagnostic in `truncateIfNeeded` is not modelled. It is
  logging only.
- `MermaidSyntaxFixer.validateSyntax` calls the Mermaid library's parser.
  That parser is not part of this model; the validator is a parameter. Its
  error message, or the fallback text when the message is empty, is kept.
- `MermaidSyntaxFixer.requestLLMFix` is not modelled. It sends an async
  message to the editor host, with a random request id, a 30-second
  timeout (`FIX_TIMEOUT`) and window listeners. Its outcome is the oracle
  `llm`. A timeout or a failed response is a thrown `Error` with a message.
- AutoFixSyntax: the validator is a function, so validating the same code
  twice gives the same answer. A parser with hidden state is not modelled.
- `contextWindow` is an integer. Non-integer windows and the floating-point
  detail of `0.2 * contextWindow` are not modelled.
- A JavaScript string may hold an unpaired surrogate, which `length`
  counts as one code unit. A Dafny string is a sequence of Unicode scalar
  values and cannot hold one, so such texts are outside the model.
- Capitalisation upper-cases ASCII `a`–`z` only. The Unicode case mapping
  of `toUpperCase` is not modelled, including characters whose upper case
  is longer than one character.
- `prettyModelName` takes a string. A `null` or `undefined` id is not
  modelled: the TypeScript type excludes it.
- The React components (`BottomControls.tsx`, `QueueManager.tsx`,
  `ModelSelector.tsx`) and the Storybook stories are not modelled. They are
  UI and host-message code.
- The test at
  `src/core/tools/kilocode/__tests__/truncateIfNeeded.test.ts:192-201` is not
  asserted. The model follows the code's rounded-up estimate instead.
- The console-spy test at `truncateIfNeeded.test.ts:156-166` checks the
  text of the `console.warn` message and is not modelled. The counts that
  the test at `truncateIfNeeded.test.ts:168-176` expects in that message
  are the counts of the notice, which `Truncation.ExampleTenLinesKeepFive`
  states.
