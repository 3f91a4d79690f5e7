# Multiple-choice prompting script, modelled in Dafny

`LR1_prompt_engineering/main.py` is a script that puts a table of
multiple-choice questions to a local language model. For each row it does
four things:

- It turns the raw `options` cell, a list of single-quoted strings, into numbered lines (`format_options`).
- It fills a system prompt with the row's category and a user prompt with the question and the numbered options.
- It sends both prompts to the model.
- It reads the chosen option number back from the reply (`extract_answer`).

Rows before `START_IDX` get the placeholder answer 0. Every answer is
stored in a new `answer` column.

The model is split into modules that follow the script:

- `Wrappers` (`wrappers.dfy`): the `Option` type, which stands in for Python's `None`.
- `Text` (`text.dfy`): the string primitives the script relies on:
  - Python's `str.isspace` character class, with the full set of code points that `\s` and `str.strip()` use;
  - ASCII digits;
  - `int()` of a digit run and `f"{n}"` of a non-negative integer;
  - `str.strip()`;
  - `"\n".join` and its inverse `split("\n")`.
- `OptionFormatting` (`options.dfy`): `format_options`. The regular expression `'([^']*)'` is written as a scan that pairs the quote characters 1st with 2nd, 3rd with 4th, and so on. It is proved equal to a declarative description: the slices between the pairs of quote positions.
- `AnswerExtraction` (`extraction.dfy`): `extract_answer`. It is written as an executable leftmost search for `ответ\s*:\s*(\d+)`, with the keyword compared case-insensitively. It is proved equal to a declarative description of the leftmost match.
- `Prompts` (`prompts.dfy`): the two prompt templates and the two-message conversation built from them. `str.format` substitutes each field once and never re-reads what it inserted, so filling a template is concatenation of its fixed pieces with the field values.
- `Evaluation` (`evaluation.dfy`): the loop of `main` that builds the answer column. The language model is a function parameter. It receives the row index and the conversation, so two rows may get different replies to the same prompt: sampling at temperature 0.2 allows that.

## Model

| member | source | states |
|---|---|---|
| Text.IsSpace | LR1_prompt_engineering/main.py:52 | `str.strip()` and `\s` (line 41) treat space, tab, newline and carriage return as whitespace, and never a digit, a colon, a quote or a full stop |
| Text.DecimalValue | LR1_prompt_engineering/main.py:43 | `int()` of a run of `k` digits is below `10^k`, and at least `10^(k-1)` when the run does not start with `0` |
| Text.NatToString | LR1_prompt_engineering/main.py:54 | `f"{i}"` prints a non-empty digit string without a leading zero whose decimal value is `i` |
| Text.NatToStringOfValue | LR1_prompt_engineering/main.py:54 | printing the value of a canonical digit string gives that string back, so printing is a bijection onto canonical digit strings |
| Text.LeadingZero | LR1_prompt_engineering/main.py:43 | `int()` of a digit run ignores a leading zero |
| Text.Strip | LR1_prompt_engineering/main.py:52 | `str.strip()` returns the slice between the first and last non-whitespace characters; it is empty exactly when the input is all whitespace |
| Text.StrippedOfUnique | LR1_prompt_engineering/main.py:52 | only one slice fits that description of a stripped string |
| Text.StripIdempotent | LR1_prompt_engineering/main.py:52 | stripping twice gives the same as stripping once |
| Text.JoinSplit | LR1_prompt_engineering/main.py:59 | splitting at newlines and joining with `"\n"` gives the string back |
| Text.JoinLines | LR1_prompt_engineering/main.py:59 | the `"\n"` join starts with the first line, and splitting the join of newline-free lines at newlines gives the lines back |
| OptionFormatting.QuotesFromAscending | LR1_prompt_engineering/main.py:48 | the recorded quote positions strictly ascend |
| OptionFormatting.QuotesFromComplete | LR1_prompt_engineering/main.py:48 | every quote character at or after the start is among the recorded positions |
| OptionFormatting.Segments | LR1_prompt_engineering/main.py:48 | the `findall` segments are exactly the slices strictly between quotes 1 and 2, 3 and 4, …, in order; a last odd quote contributes nothing |
| OptionFormatting.QuotedListRoundTrip | LR1_prompt_engineering/main.py:48 | a cell written as a bracketed list of quoted options yields exactly those options, as long as neither the options nor the separator hold a quote |
| OptionFormatting.Survivors | LR1_prompt_engineering/main.py:51-53 | the kept indices are in range, strictly increasing, and each one's segment is not all whitespace |
| OptionFormatting.SurvivorsComplete | LR1_prompt_engineering/main.py:53 | every segment that is not all whitespace is kept |
| OptionFormatting.Label | LR1_prompt_engineering/main.py:54 | an option line reads back as its number and its text: the digit run before the first `". "` is worth `i` and has no leading zero, and the rest is the text |
| OptionFormatting.LabelUnique | LR1_prompt_engineering/main.py:54 | a line that reads back as `i` and `text` with a number without leading zeros is the option line `f"{i}. {text}"`, so the label is the only such line |
| OptionFormatting.OptionLines | LR1_prompt_engineering/main.py:51-54 | the loop emits one line per kept segment, in order: the label of the segment's index among all segments, empty ones included, with the stripped segment |
| OptionFormatting.FormatOptions | LR1_prompt_engineering/main.py:56-59 | the result is never empty and starts with a digit: a label is always present |
| OptionFormatting.FormatOptionsJoinsExpectedLines | LR1_prompt_engineering/main.py:47-59 | the result is the `"\n"` join of the labelled kept segments, or of the single fallback line when none is kept |
| OptionFormatting.FormatOptionsLines | LR1_prompt_engineering/main.py:47-59 | for a cell without newlines, splitting the result at newlines gives back exactly those lines |
| OptionFormatting.FallbackWhenNothingSurvives | LR1_prompt_engineering/main.py:56-57 | when every segment strips to nothing, the result is `"0. "` followed by the stripped input |
| OptionFormatting.FallbackWithoutQuotes | LR1_prompt_engineering/main.py:56-57 | a cell without quotes becomes `"0. "` followed by the stripped cell |
| OptionFormatting.BlankInputGivesBareLabel | LR1_prompt_engineering/main.py:56-57 | an empty or all-whitespace cell becomes exactly `"0. "` |
| AnswerExtraction.FoldCase | LR1_prompt_engineering/main.py:41 | the case-insensitive comparison leaves the keyword's own letters alone and maps any other character either to itself or to a keyword letter; no whitespace, digit or colon is ever folded |
| AnswerExtraction.ExtractAnswer | LR1_prompt_engineering/main.py:40-44 | `None` exactly when the pattern matches at no position; otherwise the number read at a matching position with no match before it |
| AnswerExtraction.MatchAtSpec | LR1_prompt_engineering/main.py:41 | the attempt at one position finds `n` exactly when the pattern matches there with a maximal digit run worth `n`, and finds nothing exactly when it does not match there |
| AnswerExtraction.LeftmostAnswerUnique | LR1_prompt_engineering/main.py:41-43 | the leftmost match determines the number |
| AnswerExtraction.ExtractAnswerSpec | LR1_prompt_engineering/main.py:40-44 | `extract_answer` returns `n` exactly when `n` is the value read at the leftmost match, and `None` exactly when the pattern matches nowhere |
| AnswerExtraction.ExtractAnswerIgnoresCase | LR1_prompt_engineering/main.py:41 | texts that agree once the keyword letters are lower-cased give the same answer |
| AnswerExtraction.ExtractAnswerOfFolded | LR1_prompt_engineering/main.py:41 | lower-casing the keyword letters of a reply never changes its answer |
| AnswerExtraction.CapitalKeywordAnswer | LR1_prompt_engineering/main.py:41 | `"ОТВЕТ"` followed by any text gives the same answer as `"ответ"` followed by that text |
| AnswerExtraction.AnswerAfterKeyword | LR1_prompt_engineering/main.py:41-43 | `"ответ: "`, then a digit run, then anything not starting with a digit, gives the value of the digit run |
| AnswerExtraction.LeadingZeroAnswer | LR1_prompt_engineering/main.py:43 | a leading zero on the digit run does not change the answer |
| AnswerExtraction.NoDigitNoAnswer | LR1_prompt_engineering/main.py:41-44 | a text without any digit gives `None` |
| AnswerExtraction.NonSpaceAfterKeywordBlocks | LR1_prompt_engineering/main.py:41 | a keyword followed by a character that is neither whitespace nor a colon does not match at that position |
| Prompts.SystemPrompt | LR1_prompt_engineering/main.py:19-22 | the filled system prompt gives its category back when read with the template |
| Prompts.CategoryOfIsInverse | LR1_prompt_engineering/main.py:19-22 | every text read as an instance of the template is the system prompt of the category read from it |
| Prompts.SystemPromptInjective | LR1_prompt_engineering/main.py:19-22 | different categories give different system prompts |
| Prompts.UserPrompt | LR1_prompt_engineering/main.py:24-35 | the user prompt is the question header, the question, the options header, the options and the answer-format footer, in that order, and nothing else |
| Prompts.UserPromptInjective | LR1_prompt_engineering/main.py:24-35 | given the question's length, the user prompt determines both the question and the options |
| Prompts.DirectiveHasNoAnswer | LR1_prompt_engineering/main.py:33 | a reply that only echoes the line `ответ: <номер варианта>` yields no answer |
| Prompts.FilledDirectiveRoundTrip | LR1_prompt_engineering/main.py:40-44 | filling the placeholder of the answer-format line with `f"{n}"`, followed by anything not starting with a digit, is read back as `n` |
| Prompts.Conversation | LR1_prompt_engineering/main.py:93-109 | two messages: a system message whose category reads back as the row's category, then a user message made of the question header, the question, the options header, the options and the answer-format footer, each at its template position |
| Prompts.FooterHoldsDirective | LR1_prompt_engineering/main.py:32-35 | the answer-format footer holds the line `ответ: <номер варианта>` between its header and the closing blank line |
| Prompts.UserMessageAsksForDirective | LR1_prompt_engineering/main.py:24-35 | every user message ends with the footer that asks for the answer as `ответ: <номер варианта>` |
| Evaluation.RowConversation | LR1_prompt_engineering/main.py:89-98 | the conversation for a row has the system message for the row's category, then the user message: the question header, the row's question, the options header, the row's options cell formatted by `format_options`, and the answer-format footer |
| Evaluation.AnswerFor | LR1_prompt_engineering/main.py:120-124 | the recorded answer is the extracted number, or 0 when extraction gives `None` |
| Evaluation.AnswerForSpec | LR1_prompt_engineering/main.py:120-124 | the recorded answer is the number at the leftmost match, or 0 when nothing matches |
| Evaluation.AnswerForFilledDirective | LR1_prompt_engineering/main.py:120-124 | a reply in the requested format is recorded as the option number it names |
| Evaluation.AnswerForWithoutDigits | LR1_prompt_engineering/main.py:120-124 | a reply without digits is recorded as 0 |
| Evaluation.AnswerColumn | LR1_prompt_engineering/main.py:77-129 | assigning the column succeeds exactly when the start index is at most the number of rows or the table has no rows; the column then has one entry per row (`start` entries for a table without rows), 0 before the start, and from the start on the answer computed for that row |
| Evaluation.Evaluate | LR1_prompt_engineering/main.py:77-129 | with `START_IDX = 0` (line 17), every row's answer is the model's reply to that row's conversation read with `extract_answer` (0 on `None`), and the column has one entry per row |

## Left out

- The language model: loading `Llama` and calling `create_chat_completion` (lines 67-72 and 105-115) are calls into a foreign library. The model's reply is a function parameter of `Evaluate`, which hands `AnswerColumn` the answer read from it for each row. Nothing is assumed about what the model returns.
- Reading the input CSV, writing the output CSV, and the pandas DataFrame itself (lines 75, 129 and 132). The model produces the answer column as a sequence. Assigning a list of the wrong length to a table with rows raises an error, which is the `None` result of `AnswerColumn`. A table without rows instead takes the length of the list, so it gets `START_IDX` rows of answer 0.
- Progress bars, `print` logging and the command-line argument check (lines 83, 85-88, 100-103, 117-118, 123, 126, 131, 134 and 137-142). They have no effect on the answers. The row id in column 0 (line 101) is only printed, so it is not part of `Row`.
- The inference settings `N_CTX`, `MAX_TOKENS`, `TEMPERATURE` and `TOP_P` and the model path (lines 10-15). They only parameterise the foreign call.
- Table cells that are not strings, such as a missing cell that pandas reads as a float NaN. Every `Row` field is a string.
- AnswerExtraction.ExtractAnswer: `\d` in a Python str pattern also matches non-ASCII decimal digits, such as Arabic-Indic digits, which `int()` accepts too. The model reads ASCII digits only, because Unicode digit tables are out of scope. On CPython 3.11 and later (and the 3.10.7 and 3.9.14 security releases), `int()` also raises `ValueError` for a run of more than 4300 digits (the `sys.get_int_max_str_digits()` default), which ends the run; the model reads a digit run of any length.
- AnswerExtraction.FoldCase: Python's case-insensitive matching also treats a few historic Cyrillic letter forms as equal to letters of the keyword: U+1C80 (в), U+1C82 (о), and U+1C84 and U+1C85 (т). The model folds only the upper-case letters О, Т, В and Е.
- Evaluation.AnswerFor: a failed extraction is recorded as 0, the same value as a reply that names option 0. That is the script's behaviour. The model keeps it, and AnswerForSpec states both cases.
