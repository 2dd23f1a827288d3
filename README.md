# Quiz tool: extractor and quiz server, modelled in Dafny

The tool has two halves.

- **The extractor** (`parser.py`) reads a document of numbered questions and an
  answer-key file, and writes a JSON question bank.
  - It splits each question span into a prompt and a list of options.
  - It reads each key line `N<number> <answer>` into a dictionary.
  - It joins the two by question number, in the order the questions were first seen.
- **The quiz server** (`app.py`) loads that bank and serves a test.
  - It draws up to 50 questions for a session and stores the submitted answers.
  - It grades each question as `correct`, `incorrect` or `unanswered`, and counts the score.

The project models both halves:

- `wrappers.dfy` — `Option`.
- `strings.dfy` — the Python string operations used: `isspace`, `strip`, `split`, `join`, and decimal digits.
- `sorting.dfy` — `sorted()` on integer lists, with the fact grading relies on: two lists sort equal exactly when they are permutations of each other.
- `lists.dfy` — generic folds. A flat map; a dictionary filled in order where later keys win; distinct elements in first-occurrence order; filtering by a key set; all-or-nothing mapping.
- `bank.dfy` — the bank record.
- `extractor.dfy` — `parser.py`:
  - the option-splitting loop;
  - the two whitespace rewrites;
  - `parse_answer_string`;
  - the per-line answer-key parse and its loop;
  - the `OrderedDict` of questions, as the class `QuestionTable`;
  - the assembly loop of `main`.
- `quiz_app.dfy` — `app.py`:
  - `get_question_by_id`;
  - the grading functions;
  - a `Server` class whose two fields are the session keys `question_ids` and `answers`, with one method per handler.

The loops of the source are methods with loop invariants. Each method is proved equal to a function, and the promised properties are proved as lemmas about those functions.

Where the code and other descriptions of the tool disagree, the model follows the code. Some descriptions call a record `single` exactly when it has one index. The code (parser.py:109) tags a record `multiple` only when it has more than one index, so an empty answer is also `single`, and so is the model.

The second whitespace rewrite also joins lines. A whitespace character right before a newline makes `\s{2,}` match both, so the next line is appended to the one before. When the next line is an option line, its option becomes part of the prompt (`NormaliseJoinsLines`).

## Model

| member | source | states |
|---|---|---|
| Strings.Strip | parser.py:14 | `str.strip()`: the result has no whitespace at either end, and it is empty exactly when the input is all whitespace |
| Strings.IsSpace | parser.py:14 | the characters Python's `str.isspace()` and the regex `\s` accept |
| Strings.TrimLeft | parser.py:14 | `str.lstrip()`: the result does not start with whitespace, and what is removed is a whitespace prefix (with `TrimLeftIsSuffix`) |
| Strings.TrimRight | parser.py:14 | `str.rstrip()`: the result does not end with whitespace, and what is removed is a whitespace suffix (with `TrimRightIsPrefix`) |
| Strings.Split | parser.py:8 | `str.split(sep)`: never empty and no part contains `sep`; inverse of `Join` by `JoinSplit` and `SplitJoin` |
| Strings.Join | parser.py:19 | `sep.join(parts)`; inverse of `Split` by `JoinSplit` and `SplitJoin` |
| Strings.StripIsSlice | parser.py:19 | what `strip` removes is whitespace at the two ends and nothing else |
| Strings.JoinSplit | parser.py:8 | joining the lines of a split with `'\n'` gives back the text |
| Strings.SplitJoin | parser.py:19 | splitting a join of newline-free lines gives back the lines |
| Strings.DecimalRoundTrip | parser.py:84 | `int(str(n)) == n` for the ASCII digit strings the key file holds |
| Extractor.DigitRun | parser.py:82-84 | the leading `\d+` run: all digits, and the next character is not a digit |
| Extractor.IsOptionLine | parser.py:13 | `re.match(r'^\s*\d+[).]\s*\S+', line)`, read left to right; its meaning is stated by `OptionLineMeaning` |
| Extractor.IsOptionNumber | parser.py:13 | the part of the option pattern after the first digit: more digits, `)` or `.`, then a visible character; its meaning is stated by `OptionLineMeaning` |
| Extractor.OptionLineMeaning | parser.py:13 | a line is an option line exactly when it starts with whitespace, at least one digit and `)` or `.`, and has a non-whitespace character after the delimiter |
| Extractor.OptionTail | parser.py:14 | the substitution of the head of the pattern at parser.py:14: the tail is exactly what follows the whitespace, the digits and the delimiter at the start of the line, and it has a visible character |
| Extractor.NumberTail | parser.py:14 | after the first digit, the tail is what follows the remaining digits and the delimiter |
| Extractor.OptionText | parser.py:13-14 | the option text is the stripped rest of the line after its `\s*\d+[).]` head; it is non-empty and has no surrounding whitespace (the `\S+` of the match) |
| Extractor.FirstOption | parser.py:12-17 | the position of the first option line, at most the number of lines; its meaning is stated by `FirstOptionIsFirst` |
| Extractor.FirstOptionIsFirst | parser.py:12-17 | no line before the first option line matches the option pattern, and the line at that position does |
| Extractor.Options | parser.py:12-15 | the options of the lines, one per option line in line order; stated by `OptionsEmptyIff`, `OptionsAround` and `OptionsNonEmpty` |
| Extractor.Prompt | parser.py:16-19 | the stripped join of the lines before the first option line; stated by `PrefixWithoutOptions` and `NoOptionLines` |
| Extractor.ExtractQuestionOptions | parser.py:7-20 | the loop returns `Prompt` and `Options` of the text's lines: every matching line contributes its text in order, and the prompt is the stripped join of the lines before the first option line |
| Extractor.PrefixWithoutOptions | parser.py:16-17 | `not options` holds after `i` lines exactly when none of them is an option line, so later non-option lines never join the prompt |
| Extractor.OptionsNonEmpty | parser.py:13-15 | no recorded option is empty |
| Extractor.LineOption | parser.py:13-15 | one line adds at most one option; it adds one exactly when it is an option line, and that option is non-empty and stripped |
| Extractor.OptionsAtMostOnePerLine | parser.py:12-15 | there are at most as many options as lines |
| Extractor.OptionsEmptyIff | parser.py:12-15 | there are no options exactly when no line matches the option pattern |
| Extractor.OptionsAround | parser.py:12-15 | the options keep the order of their lines: those of the lines before line `i`, then line `i`'s, then those after |
| Extractor.NoOptionLines | parser.py:12-20 | a text without option lines gives no options, and its whole stripped text as the prompt |
| Extractor.BareNumberIsNotOption | parser.py:13 | `1)` alone is not an option: the pattern needs a visible character after the number |
| Extractor.OptionLineExample | parser.py:13-14 | `1) A` is an option line with text `A` |
| Extractor.CollapseIndents | parser.py:58 | `re.sub(r'\n\s+', '\n', …)`: no newline in the result is followed by whitespace, and the first character is kept; its whole effect is stated by `CollapseIndentsGaps` and `CollapseIndentsKeepsVisible` |
| Extractor.CollapseSpaces | parser.py:59 | `re.sub(r'\s{2,}', ' ', …)`: the result has no two adjacent whitespace characters; its whole effect is stated by `CollapseSpacesGaps` and `CollapseSpacesKeepsVisible` |
| Extractor.Normalise | parser.py:58-59 | the two rewrites in source order; stated run by run by `CollapseIndentsGaps` and `CollapseSpacesGaps`, and by `NormalisedIsFixed`, `NormaliseIdempotent`, the keeps-visible lemmas and `NormaliseJoinsLines` |
| Extractor.SpanText | parser.py:56-59 | the span body stripped, then normalised, as handed to `extract_question_options` |
| Extractor.NormalisedIsFixed | parser.py:58-59 | a text without adjacent whitespace is left unchanged by both rewrites |
| Extractor.NormaliseIdempotent | parser.py:58-59 | applying the two rewrites twice gives what applying them once gives |
| Extractor.CollapseIndentsKeepsVisible | parser.py:58 | the first rewrite keeps every non-whitespace character, in order |
| Extractor.CollapseSpacesKeepsVisible | parser.py:59 | the second rewrite keeps every non-whitespace character, in order |
| Extractor.Gaps | parser.py:58-59 | the whitespace runs of a text, one before each visible character and one at the end |
| Extractor.MapGaps | parser.py:58-59 | a rewrite applied to every run: same number of runs, each rewritten |
| Extractor.GapsDetermine | parser.py:58-59 | a text is fixed by its visible characters and its whitespace runs, so the Gaps lemmas and the keeps-visible lemmas together determine what each rewrite returns |
| Extractor.CollapseSpacesGaps | parser.py:59 | the second rewrite turns every whitespace run of two or more characters into one space and leaves every other run alone |
| Extractor.CollapseIndentsGaps | parser.py:58 | the first rewrite cuts every whitespace run short after its first newline when more whitespace follows that newline, and leaves every other run alone |
| Extractor.LineJoin | parser.py:58-59 | a space right before a newline makes the second rewrite replace both with one space: the two lines become one |
| Extractor.NormaliseJoinsLines | parser.py:58-59 | `"Q \n1) A"` normalises to `"Q 1) A"`, which holds no option line: the option is lost to the prompt |
| Extractor.KeepDigitsAndCommas | parser.py:30 | `re.sub(r'[^\d,]', '', s)` leaves only digits and commas; with `KeepAppend`, `KeepDigitsAndCommasUnchanged` and `KeepDropsOthers` it keeps every digit and comma in order and deletes everything else |
| Extractor.KeepDigitsAndCommasUnchanged | parser.py:30 | digits and commas pass the filter unchanged |
| Extractor.KeepDropsOthers | parser.py:30 | every other character is deleted, not rewritten |
| Extractor.KeepAppend | parser.py:30 | the filter works character by character: it distributes over concatenation |
| Extractor.KeepSpaces | parser.py:25-30 | whitespace is removed entirely by the filter |
| Extractor.TokenIndices | parser.py:37 | at most one index per comma token, each at least `-1` (token `0` gives `-1`); its values are stated by `TokenIndicesOfDigits`, `TokenIndicesSkips` and `TokenIndicesAppend` |
| Extractor.TokenIndicesOfDigits | parser.py:37 | a list of digit tokens gives one index per token, `int(t) - 1`, in token order |
| Extractor.TokenIndicesSkips | parser.py:37 | a token that fails `isdigit()` gives nothing |
| Extractor.TokenIndicesAppend | parser.py:37 | the comprehension reads the tokens one at a time: the indices of a concatenation are the concatenated indices |
| Extractor.ParseAnswerString | parser.py:23-39 | `parse_answer_string`; stated by `ParseAnswerStringFilters` (the indices of the digit tokens of the filtered text), the filter lemmas `KeepDropsOthers` and `KeepDigitsAndCommasUnchanged`, the token lemmas `TokenIndicesOfDigits` and `TokenIndicesSkips`, `NoDigitsNoIndices` and `AnswerStringRoundTrip` |
| Extractor.ParseAnswerStringFilters | parser.py:25-37 | the strip and the two early `return []` never change the result: it is the indices of the digit tokens of the filtered text |
| Extractor.KeepOfStrip | parser.py:25-30 | stripping before filtering makes no difference |
| Extractor.NoDigitsNoIndices | parser.py:23-37 | an answer without digits gives no indices |
| Extractor.AnswerStringRoundTrip | parser.py:23-39 | writing 0-based indices as a 1-based comma list and parsing it gives them back |
| Extractor.AnswerStringExample | parser.py:23-37 | `"1,3"` gives `[0, 2]` |
| Extractor.AnswerStringSpaceQuirk | parser.py:30-37 | `"1 3"` gives `[12]`: the space is removed and the digits merge |
| Extractor.LeadingCommaIgnored | parser.py:37 | a leading comma only adds an empty token, which is skipped |
| Extractor.AnswerStringEmptyTokens | parser.py:37 | `",,2"` gives `[1]` |
| Extractor.AnswerStringTwo | parser.py:23-37 | `"2"` gives `[1]` |
| Extractor.AnswerStringZero | parser.py:37 | `"0"` gives `[-1]` |
| Extractor.IsSeparator | parser.py:82 | the class `[\s°]`: whitespace or the degree sign |
| Extractor.SeparatorRun | parser.py:82 | the greedy `[\s°]*` run: every character before its end is a separator, and the next one is not |
| Extractor.PrefixEnd | parser.py:82 | where the key prefix (`N`, `№` or `\d+`, then `[\s°]*`, then `\d+`) ends, backtracking included: every end it gives is the end of a match (a group `N`, `№` or digits, then separators, then at least one digit); by `PrefixEndLongest` it is the longest match |
| Extractor.PrefixEndLongest | parser.py:82-85 | every match of the key prefix ends at or before the end `PrefixEnd` gives, as the greedy quantifiers of the regex find it |
| Extractor.PrefixEndComplete | parser.py:82 | whenever the line starts with a match of the key prefix, `PrefixEnd` finds one, so a matching line is never skipped |
| Extractor.FirstDigits | parser.py:84 | `re.search(r'\d+', line).group()`: empty exactly when the line has no digit; otherwise the first maximal run of digits, with no digit before it and a non-digit or the end after it |
| Extractor.ParseAnswerLine | parser.py:77-86 | one key line: strip, skip blanks, and read the number and the rest when the prefix matches; stated by `ParseAnswerLineFacts` and `KeyLineRoundTrip` |
| Extractor.ReadStrippedLine | parser.py:79-86 | the same on a line already stripped; stated by `ParseAnswerLineFacts`, which gives the answer after the longest match of the prefix |
| Extractor.ParseAnswerLineFacts | parser.py:77-86 | a blank line is skipped; a line is read exactly when its stripped text starts with a match of the key prefix; the answer is the stripped rest after the longest such match; the number is the value of the first digit run |
| Extractor.KeyLineRoundTrip | parser.py:78-86 | the line `№<n> <answer>` reads back as `(n, answer)` for every stripped answer, the empty one included |
| Extractor.BareNumberLineQuirk | parser.py:82-86 | `"12 3"` reads as question 12 with an empty answer: the pattern takes `12`, the space and `3` as its prefix |
| Extractor.BareNumberAnswerQuirk | parser.py:82-86 | `"12 1,3"` reads as question 12 with answer `",3"`, which names option 3 only: the bare-number form swallows the first answer digit |
| Extractor.PrefixQuirk | parser.py:82-84 | in `"12 3"` the prefix ends after the `3` and the number is `12` |
| Extractor.SingleDigitLineSkipped | parser.py:82 | a line holding one digit does not match: `\d+` backtracks but still needs a second digit |
| Extractor.AnswerKey | parser.py:74-90 | the dictionary the key lines give, later lines winning; stated by `AnswerKeyDomain` and `AnswerKeyLastWins` |
| Extractor.ParseAnswers | parser.py:74-90 | the loop builds exactly `AnswerKey` of the lines |
| Extractor.AnswerKeyDomain | parser.py:77-86 | a number has an answer exactly when some line declares it |
| Extractor.AnswerKeyLastWins | parser.py:86 | the answer kept for a number is the one on the last line that declares it |
| Extractor.QuestionTable.constructor | parser.py:43 | a new `OrderedDict` has no keys |
| Extractor.QuestionTable.Put | parser.py:64-67 | assignment appends a new key at the end, leaves the order of an existing key alone, and replaces its value |
| Extractor.ParseQuestions | parser.py:53-67 | the loop builds a table whose key order and entries are `QuestionOrder` and `QuestionEntries` of the spans, each span normalised and split |
| Extractor.QuestionOrder | parser.py:43-64 | the `OrderedDict` key order; stated by `QuestionOrderByFirstSpan` and `QuestionKeys` |
| Extractor.QuestionEntries | parser.py:53-67 | the `OrderedDict` values; stated by `QuestionEntryFromLastSpan` and `QuestionKeys` |
| Extractor.SpanEntry | parser.py:56-67 | the entry of one span: a stripped question text and options that are never empty |
| Extractor.SpanPair | parser.py:55-64 | a span always yields a key, its own number |
| Extractor.Numbers | parser.py:53-55 | the numbers of the spans, one per span, in order |
| Extractor.NumbersStep | parser.py:53-55 | one more span adds its number at the end |
| Extractor.QuestionKeys | parser.py:53-67 | a number has an entry exactly when it is in the key order, exactly when some span names it |
| Extractor.QuestionOrderByFirstSpan | parser.py:43-64 | the key order has no repeats and follows each number's first span |
| Extractor.QuestionEntryFromLastSpan | parser.py:56-67 | the entry of a number is the prompt and options of its last span |
| Extractor.MakeRecord | parser.py:103-110 | id, question and options are copied, the answer is the parsed index list, and the type is `multiple` exactly when there is more than one index |
| Extractor.AssembledBank | parser.py:100-112 | the records of the loop in `main`; stated by `BankIds` and `BankRecords` |
| Extractor.Ids | parser.py:105 | the ids of the records, one per record, in order |
| Extractor.IdsAppend | parser.py:104 | appending records appends their ids |
| Extractor.BankIds | parser.py:100-112 | the bank lists exactly the table keys that have an answer, in table order |
| Extractor.BankRecords | parser.py:101-110 | every record is made from the table entry and the answer of its own number |
| Extractor.BankStep | parser.py:101-112 | one more table key adds its record when it has an answer and nothing otherwise |
| Extractor.AssembleBank | parser.py:100-112 | the loop over `questions.items()` builds exactly `AssembledBank` of the table |
| Extractor.TableKeys | parser.py:101 | every key in the table order has an entry |
| Extractor.BuildBank | parser.py:93-112 | `main` composes the three loops into `QuestionBank` of the spans and key lines |
| Extractor.QuestionBank | parser.py:93-112 | the bank `main` writes; stated by `QuestionBankIds` and `QuestionBankRecord` |
| Extractor.QuestionBankIds | parser.py:64-112 | a number gets a record exactly when some span names it and some key line declares it; the records come once each, in table order |
| Extractor.QuestionBankRecord | parser.py:64-110 | each record carries the prompt and options of the last span with its number and the indices of the last key line for it |
| Sorting.Sort | app.py:98-101 | `sorted()` on index lists; stated by `SortPermutes`, `SortOrders` and `SortEqualIffPermutation` |
| Sorting.SortPermutes | app.py:98 | `sorted()` returns a permutation of its input |
| Sorting.SortOrders | app.py:98 | `sorted()` returns an ordered list |
| Sorting.SortedUnique | app.py:98-107 | two ordered lists with the same elements are equal |
| Sorting.SortEqualIffPermutation | app.py:98-107 | two lists sort equal exactly when they hold the same elements the same number of times |
| QuizApp.QuestionById | app.py:18-20 | a found record belongs to the bank and has the id asked for |
| QuizApp.QuestionByIdNone | app.py:18-20 | the lookup gives `None` exactly when no record has the id |
| QuizApp.QuestionByIdFirst | app.py:18-20 | the lookup gives the first record with the id |
| QuizApp.QuestionByIdOfUnique | app.py:18-20 | with unique ids, looking up a record's id gives that record |
| QuizApp.BuiltBankUnique | parser.py:100-112 | a bank built by the extractor has unique ids |
| QuizApp.IsDraw | app.py:33 | what `random.sample` may draw: `min(50, n)` distinct bank positions |
| QuizApp.SampleIds | app.py:32-33 | the ids at the drawn positions, in draw order; stated by `SampleFacts` |
| QuizApp.SampleFacts | app.py:32-35 | a test has `min(50, bank size)` questions, each found by the lookup, none twice when the bank's ids are unique |
| QuizApp.FormKey | app.py:59 | the field name `q<id>`; stated by `FormKeyInjective` |
| QuizApp.FormKeyInjective | app.py:59 | different questions have different form fields `q<id>` |
| QuizApp.ParseInt | app.py:66 | Python's `int()` on a form value; stated by `ParseIntRoundTrip` |
| QuizApp.DigitsStripped | app.py:66 | a digit string has nothing for `int()` to strip |
| QuizApp.ParseIntRoundTrip | app.py:66 | `int(str(i)) == i` for every integer |
| QuizApp.NonNegativeRoundTrip | app.py:66 | `int(str(n)) == n` for every natural number |
| QuizApp.NegativeRoundTrip | app.py:66 | `int("-" + str(m)) == -m` for every positive `m` |
| QuizApp.ConvertAll | app.py:65-68 | the comprehension inside `try`; stated by `ConvertAllMeaning` |
| QuizApp.ConvertAllMeaning | app.py:64-68 | the conversion succeeds exactly when every value converts, and keeps every value in order |
| QuizApp.Recorded | app.py:59-68 | what `submit` records for one question; stated by `SubmittedMeaning` |
| QuizApp.Submitted | app.py:52-79 | the answers map `submit` builds; stated by `SubmittedMeaning` |
| QuizApp.SubmittedMeaning | app.py:52-79 | a question is recorded exactly when it is in the session, its field carries a non-empty list and every value converts; what is stored is the whole converted list, never empty |
| QuizApp.StatusOf | app.py:98-107 | the status of one question; stated by `StatusOfMeaning` |
| QuizApp.StatusOfMeaning | app.py:98-107 | `unanswered` exactly when nothing is stored; `correct` exactly when the stored indices are the key's up to order; `incorrect` otherwise |
| QuizApp.PyIndex | app.py:118-119 | Python's `options[i]`, negative indices counting from the end: the result is one of the options |
| QuizApp.Texts | app.py:118-119 | the options shown for a list of indices: one per index, each one of the question's options |
| QuizApp.SortInRange | app.py:118-119 | sorting keeps every index within range of the options |
| QuizApp.ResultOf | app.py:98-120 | the entry of one question; stated by `ResultOfShows` and `StatusOfMeaning` |
| QuizApp.ResultOfShows | app.py:113-120 | an entry copies id, question and options; it shows the key's options and the user's options in ascending index order, or the single `Нет ответа` when nothing was chosen |
| QuizApp.ResultEntries | app.py:91-121 | the entries of the results page, one per session id in order; stated by `ResultForId` and `ResultStep` |
| QuizApp.Lookup | app.py:101-106 | `user_answers.get` and `in`: a stored answer exactly when the id has one, and then that answer |
| QuizApp.ResultFor | app.py:96-120 | the entry of one session id copies the id, question and options of the looked-up question |
| QuizApp.ResultForId | app.py:97-114 | the entry of a session id is about the question with that id |
| QuizApp.CountCorrect | app.py:109-110 | the score is at most the number of entries |
| QuizApp.ScoreFull | app.py:109-110 | the score equals the number of entries exactly when every entry is correct |
| QuizApp.ScoreAtMostAnswered | app.py:105-110 | an unanswered question never scores: the score is at most the number of answered questions |
| QuizApp.NothingStoredScoresZero | app.py:105-110 | with nothing stored, as right after a start, every question is unanswered and the score is 0 |
| QuizApp.CountAnsweredNone | app.py:101-106 | with no stored answers, no session question counts as answered |
| QuizApp.ZeroKeyShowsLastOption | app.py:119 | a key of `0`, read as index `-1`, shows the last option as the correct answer |
| QuizApp.ResultStep | app.py:96-121 | one more session question adds its entry at the end of the results |
| QuizApp.Server.constructor | app.py:11-15 | the server starts with the loaded bank, which must hold at least one question, and an empty session |
| QuizApp.Server.Index | app.py:23-26 | `index` clears both session keys |
| QuizApp.Server.StartTest | app.py:29-37 | `start_test` stores the ids at the drawn positions and an empty answers map |
| QuizApp.Server.TestPage | app.py:40-47 | `test_page` redirects exactly when no test has started; otherwise it lists the looked-up question of every session id, in session order |
| QuizApp.Server.Submit | app.py:50-81 | `submit` keeps the session ids and replaces the answers with the map built from the form alone; the session stays valid, with answers only for session questions and never empty |
| QuizApp.Server.Results | app.py:84-129 | `results` redirects when either session key is missing; otherwise it gives one entry per session id in order, the count of correct entries as score, and the number of ids as total |

## Left out

- Flask and web plumbing are not modelled: routing, templates, `redirect`/`url_for`, the gevent server and the secret key (app.py:1-9, 131-133). Pages are values of `ResultsPage` and `Option`.
- The session cookie's serialisation and its 40-minute expiry are left out; the session is the two fields of `Server`.
- QuizApp.Server: answers are keyed by question number throughout. `submit` stores integer keys and `results` reads `str(id)` after the cookie's JSON round trip, which names the same question because `str` is injective on numbers.
- QuizApp.Server.StartTest: the random draw is a parameter. It is any sequence of distinct bank positions of length `min(50, bank size)`; the distribution of `random.sample` is not modelled.
- Reading the PDF, the answer file and the JSON bank is not modelled (parser.py:44-48, 76, 114-115; app.py:12-13). The key file is a sequence of lines, the bank a sequence of records.
- The command-line checks of `sys.argv` and `os.path.exists` are not modelled.
- The marker regex of `parse_pdf_questions` (parser.py:50-51) is not modelled. It relies on case-insensitive Cyrillic matching and on a lazy match with lookahead. The extractor starts from its matches as `Span(number, body)` values.
- All other `print` logging is left out, including the warning for a question without an answer (parser.py:112), which the model treats as a skipped question.
- `\d` and `int()` are modelled on ASCII digits only; Python also accepts other Unicode decimal digits and underscores between digits.
- Extractor.ParseAnswerString: CPython 3.11 and later (and the 3.7.14, 3.8.14, 3.9.14 and 3.10.7 security releases) refuse `int()` of a string of more than 4300 digits with `ValueError`. The model has no such limit. On a token that long it gives the token's value, where the source's bare `except` (parser.py:38-39) returns `[]`; this is the only input that reaches that `except`.
- Extractor.ParseAnswerLine: under the same limit, a key line whose first digit run is longer than 4300 digits is skipped by the `except` at parser.py:87-88; the model reads it.
- Extractor.ParseQuestions: under the same limit, a span whose number is longer than 4300 digits is skipped by the `except` at parser.py:68-69; the model keeps it. Apart from this limit, with ASCII digits the `try` blocks at parser.py:35-39, 54-69 and 83-88 cannot raise, and the model has no other error path for them.
- QuizApp.ParseInt: under the same limit, `int(v)` of a form value longer than 4300 digits raises `ValueError`, caught at app.py:67; the model converts it.
- QuizApp.Server.constructor: requires a non-empty bank. Loading prints `ALL_QUESTIONS[0]` (app.py:15), which raises `IndexError` on an empty bank, so the server never starts.
- The `elif` branch of `submit` (app.py:71-77) is not modelled. `to_dict(flat=False)` has the same keys as the form, so the branch is never taken.
- QuizApp.Server.Submit: requires that a test has started; without `question_ids` the source raises `KeyError` (app.py:58).
- QuizApp.Server.Results: requires every session id to be in the bank, and every key and stored index to be within Python's range for its options. Otherwise the source raises at app.py:97 or app.py:118-119.
