# MyAutoGen interview session and image input, modelled in Dafny

This project models the two pieces of the MyAutoGen scripts that have their own logic.
Everything around them is Streamlit widgets, console I/O, and calls to LLM agents and web
APIs.

* **The mock-interview session of `AI-Interview.py`.** The web page keeps one record in
  its session state:
  * the conversation history;
  * the number of questions asked;
  * the list of scores and their running total;
  * the `interview_active` and `waiting_for_answer` flags;
  * the current question;
  * whether the agents are ready.

  Four buttons change the record: *Start Interview*, *Submit Answer*, *End Interview*
  and *Reset All*.
  * `Interview.Session` is a class with these fields and one method per button. Each
    method is specified by a step function on a value copy of the record (`StartStep`,
    `SubmitStep`, built from `EvaluateStep` and `AdvanceStep`, and `EndStep`). The
    properties of the handlers are lemmas about those step functions.
  * The replies of the three agents (Interviewer, Coach and Scorer) are parameters.
    `None` stands for a `generate_reply` call that raised.
  * The requested number of questions is also a parameter of each step. The page re-reads
    it from the sidebar on every rerun.
* **Score extraction** (`Scoring`):
  1. Find the first line of the Scorer's reply whose upper-cased text contains `SCORE:`.
  2. Keep the text before its first `/`.
  3. Keep what follows the last `:` of that.
  4. Strip whitespace and read the rest as a number.

  Any failure along the way records the default score 7.0. `Scoring` also holds the
  average and the performance band of the completion screen.
* **`MyMultimodel-ImageRecognition.py`** (`ImageInput`):
  * `get_mime_type`: the library's guess, or a fallback table keyed on the lower-cased
    file suffix, defaulting to `image/png`.
  * The cleaning of the typed path: whitespace, then double quotes, then single quotes
    are stripped, and an empty result is rejected.

Supporting modules:
* `Text` models the Python string operations the scripts use: `str.strip`, `str.split`
  with one separator character, `str.upper`/`str.lower` and the substring test.
* `Decimal` models the part of `float()` that a score token goes through.
* `Wrappers` holds `Option`.

The code does not roll back a submission whose remote call raises, and the model follows
it:
* The Candidate's answer is appended before the `try` (AI-Interview.py:320-324).
* Any Coach or Scorer entry appended before the failure stays.
* A failing request for the next question comes after the score was kept
  (AI-Interview.py:357-368).

The following record invariant holds from every Start and Reset on:
* the total is the sum of the scores;
* the question count is the number of Interviewer entries;
* there is one score per Scorer entry;
* while an answer is awaited, the current question is the last one asked;
* an active interview that awaits no answer has asked no question (only a failed first
  request leaves one).

It does not say that there is one score per question, because a failed next-question
request keeps the score without asking a question.

## Model

| member | source | states |
|---|---|---|
| Text.Strip | AI-Interview.py:359 | `str.strip()`/`str.strip(c)`: the result neither starts nor ends with a stripped character |
| Text.StripFramed | MyMultimodel-ImageRecognition.py:125 | what a strip removes is a run of stripped characters on each side; the result is the infix in between |
| Text.BlankIffStripEmpty | AI-Interview.py:318 | `not answer.strip()` holds exactly when the answer is all whitespace |
| Text.IsBlank | AI-Interview.py:318 | an answer made only of whitespace, which `answer.strip()` turns into the empty, false string |
| Text.StripWrapped | MyMultimodel-ImageRecognition.py:125 | stripping a text surrounded by stripped characters, whose own ends are not stripped, gives that text |
| Text.StripUnchanged | MyMultimodel-ImageRecognition.py:125 | a text whose ends are not stripped is left as it is |
| Text.StripKeeps | MyMultimodel-ImageRecognition.py:125-127 | a character that is not stripped survives the strip |
| Text.SkipStartIs | AI-Interview.py:359 | the first kept index of a strip is the first index not in the stripped class |
| Text.SkipEndIs | AI-Interview.py:359 | the end of a strip is just past the last character not in the stripped class |
| Text.IndexOf | AI-Interview.py:359 | the first occurrence of a character, with none before it |
| Text.LastIndexOf | MyMultimodel-ImageRecognition.py:27 | the last occurrence of a character, with none after it |
| Text.Split | AI-Interview.py:358 | `s.split(sep)` is never empty, no part holds the separator, and joining the parts gives `s` back |
| Text.SplitJoin | AI-Interview.py:358 | splitting a join of separator-free parts gives the parts back |
| Text.JoinConcat | AI-Interview.py:358 | joining two lists of parts joins their joins with one separator |
| Text.SplitConcat | AI-Interview.py:358-359 | a separator splits the text into the parts on either side of it |
| Text.PartIsInfix | AI-Interview.py:358 | every part of a split occurs in the text |
| Text.Upper | AI-Interview.py:358 | `line.upper()` keeps the length, leaves no lower-case letter, and each character equals the original one up to case |
| Text.Lower | MyMultimodel-ImageRecognition.py:27 | `suffix.lower()` keeps the length, leaves no upper-case letter, and each character equals the original one up to case |
| Text.ContainsInInfix | AI-Interview.py:358 | a substring of a piece of a text is a substring of the text |
| Decimal.ParseUnsigned | AI-Interview.py:359 | an accepted unsigned token is non-empty and made of digits and at most one point, and reads as a non-negative value |
| Decimal.ParseDecimal | AI-Interview.py:359 | `float(token)` (`None` is the `ValueError`): an accepted token is non-empty, digits and at most one point after an optional sign |
| Decimal.Value | AI-Interview.py:359 | the number a string of decimal digits denotes, most significant digit first |
| Decimal.PointValue | AI-Interview.py:359 | the value of `whole.frac`: the whole part plus the fraction's digits over ten to their count |
| Decimal.UnsignedNumeral | AI-Interview.py:359 | the tokens `float` reads without a sign: digits and at most one point, with at least one digit |
| Decimal.Numeral | AI-Interview.py:359 | the same with an optional leading `+` or `-` |
| Decimal.UnsignedAccepted | AI-Interview.py:359 | an unsigned token is accepted exactly when it is such a numeral |
| Decimal.ParseAcceptsNumerals | AI-Interview.py:359 | `float(token)` succeeds exactly on numerals with an optional sign, so `8.5`, `7.` and `.5` are accepted and `.`, `1.2.3` and `[X]` are not |
| Decimal.ValueConcat | AI-Interview.py:359 | digits `w` followed by digits `f` denote `w·10^|f| + f` |
| Decimal.PointValueIs | AI-Interview.py:359 | the value of `w.f` equals all its digits, taken as one number, over ten to the number of decimals |
| Decimal.ParseWhole | AI-Interview.py:359 | a token of digits reads as the number they denote |
| Decimal.PointSplits | AI-Interview.py:359 | a token `w.f` is split at its point into a whole and a fractional part |
| Decimal.ParsePointed | AI-Interview.py:359 | a token `w.f` reads as all its digits, taken as one number, over ten to the number of decimals: `8.5` is 85/10 |
| Decimal.ParseSigned | AI-Interview.py:359 | a leading `+` keeps the value of an unsigned token and a leading `-` negates it; both keep a rejection |
| Decimal.ValueOfDigits | AI-Interview.py:359 | printing a natural number and reading the digits back gives the number |
| Decimal.ParseDigits | AI-Interview.py:359 | a whole-number token reads as that number |
| Decimal.ParseNegative | AI-Interview.py:359 | a leading minus negates the value, so negative scores are read as such |
| Scoring.FirstScoreLine | AI-Interview.py:358 | the index taken by `[...][0]`: a line with the marker and none before it, or `None` when no line has one |
| Scoring.IsScoreLine | AI-Interview.py:358 | the filter `'SCORE:' in line.upper()` |
| Scoring.ScoreToken | AI-Interview.py:359 | `line.split('/')[0].split(':')[-1].strip()` |
| Scoring.ExtractScore | AI-Interview.py:357-364 | a score other than the default 7.0 is the parsed token of a line carrying the marker |
| Scoring.MarkerInLineIsInText | AI-Interview.py:358 | a marker found in one line is found in the whole upper-cased reply |
| Scoring.NoMarkerGivesDefault | AI-Interview.py:357-364 | a reply without `SCORE:` in any letter case scores 7.0, and nothing is raised |
| Scoring.SkipUnmarkedLine | AI-Interview.py:358 | a leading line without the marker does not change the score |
| Scoring.UpperIsMarker | AI-Interview.py:358 | a text that upper-cases to `SCORE:` is six characters long, ends in its only `:`, and has no `/` and no line break |
| Scoring.ScoreFromLine | AI-Interview.py:358-364 | when the first line holds the marker, a token and a `/`, the score is the stripped token read as a number, or 7.0 when it does not read as one |
| Scoring.ScoreFromMarkedLine | AI-Interview.py:358-364 | the same for a first line already known to be a score line whose marker has the shape of `SCORE:` |
| Scoring.FirstLine | AI-Interview.py:358 | a text without line breaks, followed by a line break or nothing, is the first line |
| Scoring.MarkedLine | AI-Interview.py:358 | a line holding the marker in any letter case is a score line |
| Scoring.MarkerInInfix | AI-Interview.py:358 | a score line inside a text puts the marker in the upper-cased text |
| Scoring.TokenOfLine | AI-Interview.py:359 | the token is what lies between the marker's `:` and the first `/` |
| Scoring.UpperSlice | AI-Interview.py:358 | upper-casing commutes with slicing |
| Scoring.ScoreOfFormattedLine | AI-Interview.py:359-361 | the prescribed line `SCORE: n/10` yields exactly `n`, whatever `n` is, so the value is not clamped to 1..10 |
| Scoring.NumeralToken | AI-Interview.py:359 | a space-prefixed numeral strips and reads as its number |
| Scoring.ExampleSeven | AI-Interview.py:357-361 | the reply `📊 SCORE: 7/10` scores 7.0 |
| Scoring.ScoreOfFractionLine | AI-Interview.py:357-361 | the prescribed line with a fractional score `w.f` yields exactly `wf/10^|f|`, so fractional scores are kept rather than defaulted |
| Scoring.FractionToken | AI-Interview.py:359 | a space-prefixed `w.f` strips and reads as `wf/10^|f|` |
| Scoring.ExampleEightAndAHalf | AI-Interview.py:357-361 | the reply `📊 SCORE: 8.5/10` scores 8.5 |
| Scoring.MarkerCaseInsensitive | AI-Interview.py:358 | `score:` is read like `SCORE:` |
| Scoring.PlaceholderGivesDefault | AI-Interview.py:362-364 | the unfilled template `SCORE: [X]/10` scores the default 7.0, and nothing is raised |
| Scoring.PlaceholderToken | AI-Interview.py:359 | ` [X]` is not a number |
| Scoring.SumAppend | AI-Interview.py:360-361 | appending a score adds it to the sum |
| Scoring.Sum | AI-Interview.py:360-364 | the total the running `total_score` accumulates: the sum of the kept scores |
| Scoring.Average | AI-Interview.py:407 | `total / count if count else 0` |
| Scoring.SumAtLeast | AI-Interview.py:407 | `n` scores all at least `lo` sum to at least `n·lo` |
| Scoring.SumAtMost | AI-Interview.py:407 | `n` scores all at most `hi` sum to at most `n·hi` |
| Scoring.AverageAtLeast | AI-Interview.py:407 | the average of scores all at least `lo` is at least `lo` |
| Scoring.AverageAtMost | AI-Interview.py:407 | the average of scores all at most `hi` is at most `hi` |
| Scoring.AverageWithin | AI-Interview.py:407 | the average of scores all within `[lo, hi]` lies within `[lo, hi]` |
| Scoring.Rate | AI-Interview.py:411 | the band: Excellent from 8 on, Good from 6, Needs Improvement below |
| Scoring.Label | AI-Interview.py:411 | the text shown for each band |
| Scoring.PerformanceLabel | AI-Interview.py:411 | the text shown is "Excellent" exactly from 8 on, "Good" exactly from 6 below 8, and "Needs Improvement" exactly below 6 |
| Scoring.AllHighIsExcellent | AI-Interview.py:407-411 | scores all at least 8 are rated "Excellent" |
| Scoring.AllDefaultIsGood | AI-Interview.py:362-364 | replies that all fell back to the default score are rated "Good" |
| Interview.CountRole | AI-Interview.py:320-324 | the number of entries with a role is at most the length of the history |
| Interview.LastQuestionAsked | AI-Interview.py:375-380 | the last question is an Interviewer entry of the history, and there is none exactly when no question was asked |
| Interview.AppendMessage | AI-Interview.py:195-199 | an append adds one to the count of its role only, and an appended question becomes the last one |
| Interview.LastQuestion | AI-Interview.py:375-380 | the content of the most recent Interviewer entry, if any |
| Interview.Consistent | AI-Interview.py:171-384 | the record invariant: the total is the sum of the scores, the count is the number of Interviewer entries, one score per Scorer entry, and an awaited answer belongs to an active interview whose last question is the current one |
| Interview.IdleBeforeFirstQuestion | AI-Interview.py:184-201 | an active interview that awaits no answer has asked no question |
| Interview.StartStep | AI-Interview.py:171-206 | Start: without a key only the error; otherwise the record is cleared and the flag raised before the first question is requested, which on success is asked, counted and awaited |
| Interview.EvaluateStep | AI-Interview.py:320-364 | the answer, then each reply as it arrives, is appended, and the extracted score is kept when both arrived; the outcome names the call that raised |
| Interview.AdvanceStep | AI-Interview.py:366-384 | below the requested number the next question is asked and counted; at it both flags drop |
| Interview.SubmitStep | AI-Interview.py:305-392 | Submit: a blank answer only warns; otherwise evaluation and, if both replies arrived, the advance |
| Interview.EndStep | AI-Interview.py:208-211 | End: only the two flags drop |
| Interview.Evaluated | AI-Interview.py:318-364 | a non-blank answer whose two evaluations both arrived |
| Interview.StartKeepsConsistent | AI-Interview.py:171-206 | Start, offered while no interview is active, keeps the record invariant |
| Interview.StartEffects | AI-Interview.py:173-201 | without an API key nothing changes; a successful Start leaves one Interviewer entry, equal to the current question, no scores, total 0, count 1, and both flags set; a failed first request leaves an active interview with an empty history and count 0 |
| Interview.AppendKeepsConsistent | AI-Interview.py:320-340 | appending the answer or the coaching keeps the record invariant |
| Interview.ScoreKeepsConsistent | AI-Interview.py:350-364 | appending the evaluation together with its score keeps the record invariant |
| Interview.AskKeepsConsistent | AI-Interview.py:375-381 | asking and counting one more question keeps the record invariant |
| Interview.EvaluateKeepsConsistent | AI-Interview.py:320-364 | the evaluation part of a submit keeps the record invariant, whichever call raises |
| Interview.EvaluateEffects | AI-Interview.py:320-364 | the evaluation only appends the answer and then each reply that arrived, in order; one score, read from the Scorer's text, is kept exactly when both replies arrived; nothing else changes |
| Interview.AdvanceKeepsConsistent | AI-Interview.py:366-384 | the advance part keeps the record invariant and never lets the count pass the requested number |
| Interview.AdvanceEffects | AI-Interview.py:366-384 | below the requested number exactly one question is appended, made current and counted; at it nothing is appended, nothing is awaited, the count has reached the requested number and the interview is inactive; a raising request changes nothing more |
| Interview.SubmitKeepsConsistent | AI-Interview.py:305-392 | a submit keeps the record invariant and the count at most the requested number |
| Interview.SubmitBlankChangesNothing | AI-Interview.py:318 | a blank answer, and only a blank answer, leaves the whole record unchanged with a warning |
| Interview.SubmitNoRollback | AI-Interview.py:320-389 | after a raising call the answer stays appended after the earlier entries, while count, current question and flags are unchanged |
| Interview.SubmitScores | AI-Interview.py:357-364 | exactly when both evaluations of a non-blank answer arrived, one score (the extracted one) is appended and added to the total; otherwise both stay |
| Interview.SubmitAdvances | AI-Interview.py:366-384 | after both evaluations, the next question is asked exactly when the count is below the requested number and the request succeeds, and the interview finishes exactly when the count has reached it |
| Interview.ScoresOf | AI-Interview.py:357-364 | one extracted score per round, in order |
| Interview.RoundInRoleOrder | AI-Interview.py:320-380 | a round of Candidate, Coach, Scorer (and Interviewer) entries keeps the history in role order |
| Interview.SuccessfulRound | AI-Interview.py:320-384 | a round in which every call succeeds appends the three entries (and a question below the requested number) and one score |
| Interview.Play | AI-Interview.py:320-384 | the record after submitting the given rounds one after another, every call succeeding |
| Interview.PlayFinishes | AI-Interview.py:320-384 | successful rounds up to the requested number finish the interview (inactive, nothing awaited, count at the requested number) with one score per round and the history in role order |
| Interview.PlayNextRound | AI-Interview.py:366-381 | the same when the first round still asks a next question |
| Interview.FullInterview | AI-Interview.py:171-201 | a Start followed by `n` successful submits leaves `4n` entries in the order Interviewer, Candidate, Coach, Scorer, `n` questions, the `n` extracted scores, nothing awaited and an inactive interview; the test at line 395 then holds, but the completion screen as written is not shown |
| Interview.CountReached | AI-Interview.py:395 | the test of the completion block taken alone: no answer awaited and the count at least the requested number |
| Interview.CompletionShown | AI-Interview.py:236-395 | the guard of the completion block as nested: that test, inside the branch taken only while an interview is active |
| Interview.Handle | AI-Interview.py:171-305 | one press of Start (on the page while no interview is active, line 171), End (while one is, line 208), Reset (always, line 213) or one submission of the answer form (while an answer is awaited and the count is at most the requested number, line 305) |
| Interview.Run | AI-Interview.py:171-305 | the record after a session's events, one after another |
| Interview.SubmitKeepsIdleBeforeFirstQuestion | AI-Interview.py:366-389 | a submit made while an answer is awaited leaves an answer awaited or the interview inactive |
| Interview.HandleKeepsInvariant | AI-Interview.py:171-216 | Start (offered while inactive), Submit (offered while an answer is awaited and the count is at most the requested number), End (offered while active) and Reset keep the record invariant, including that an active interview awaiting nothing has asked no question |
| Interview.RunKeepsInvariant | AI-Interview.py:171-216 | any sequence of these events keeps the record invariant |
| Interview.CompletionScreenUnreachable | AI-Interview.py:236-395 | from the initial record, after any events and for any requested number of at least 1, the completion block as nested at line 395 is never reached |
| Interview.FinalAverageIsMean | AI-Interview.py:407-411 | in a consistent record the average times the count is the sum of the scores; with no scores the average is 0 and rated "Needs Improvement" |
| Interview.FinalAverage | AI-Interview.py:407 | the completion screen's average of the record: total over the number of scores, 0 with none |
| Interview.Session.constructor | AI-Interview.py:53-62 | the initialisation block's values, which satisfy the record invariant |
| Interview.Session.Reset | AI-Interview.py:213-216 | after deleting every key the initialisation values are back |
| Interview.Session.AppendEntry | AI-Interview.py:195-199 | one entry is appended to the history |
| Interview.Session.Start | AI-Interview.py:171-206 | the record changes as `StartStep` says, and the invariant holds |
| Interview.Session.End | AI-Interview.py:208-211 | only the two flags drop, and the invariant holds |
| Interview.Session.SubmitAnswer | AI-Interview.py:305-392 | the record changes as `SubmitStep` says, and the invariant holds |
| Interview.Session.Evaluate | AI-Interview.py:320-364 | the record changes as `EvaluateStep` says |
| Interview.Session.Advance | AI-Interview.py:366-384 | the record changes as `AdvanceStep` says, and the invariant holds |
| Interview.Session.AverageScore | AI-Interview.py:407 | the average times the number of scores is their sum; 0 with no scores |
| ImageInput.LastNamed | MyMultimodel-ImageRecognition.py:27 | the name is a non-empty component other than `.`, or empty |
| ImageInput.Name | MyMultimodel-ImageRecognition.py:27 | `Path(p).name` contains no separator and is never `.` |
| ImageInput.Suffix | MyMultimodel-ImageRecognition.py:27 | `Path(p).suffix` is empty or a proper ending of the name made of a dot and at least one more character, none a dot |
| ImageInput.MimeType | MyMultimodel-ImageRecognition.py:21-38 | a guess is returned unchanged; without one the result is the table's entry for the lower-cased suffix, or `image/png`, so always one of the five image types |
| ImageInput.SuffixOfDotted | MyMultimodel-ImageRecognition.py:27 | `stem.ext` has suffix `.ext` |
| ImageInput.NoSuffix | MyMultimodel-ImageRecognition.py:27 | a dot file such as `.bashrc`, or a name without a dot, has no suffix |
| ImageInput.UnknownSuffixIsPng | MyMultimodel-ImageRecognition.py:36 | without a guess such a file is sent as `image/png` |
| ImageInput.NameOfBare | MyMultimodel-ImageRecognition.py:27 | a bare file name names itself |
| ImageInput.NameOfFileIn | MyMultimodel-ImageRecognition.py:27 | the directory part does not change the name |
| ImageInput.TableKeys | MyMultimodel-ImageRecognition.py:28-35 | every key of the table is a dot followed by lower-case letters |
| ImageInput.LowerKeeps | MyMultimodel-ImageRecognition.py:27 | lower-casing leaves such a key unchanged |
| ImageInput.LowerOfUpper | MyMultimodel-ImageRecognition.py:27 | lower-casing after upper-casing is lower-casing |
| ImageInput.UpperOfDotted | MyMultimodel-ImageRecognition.py:27 | upper-casing keeps the dot and every non-letter |
| ImageInput.KnownSuffix | MyMultimodel-ImageRecognition.py:28-36 | `.jpg` and `.jpeg` give `image/jpeg`; `.png`, `.gif`, `.webp` and `.bmp` give their image types |
| ImageInput.SuffixCaseIgnored | MyMultimodel-ImageRecognition.py:27 | `photo.JPG` gives the same type as `photo.jpg` |
| ImageInput.CleanPath | MyMultimodel-ImageRecognition.py:125 | the cleaned path is a piece of the typed line that neither starts nor ends with a single quote |
| ImageInput.StripIsInfix | MyMultimodel-ImageRecognition.py:125 | a stripped text is a piece of the original |
| ImageInput.ContainsTrans | MyMultimodel-ImageRecognition.py:125 | a piece of a piece is a piece |
| ImageInput.ReadImagePath | MyMultimodel-ImageRecognition.py:125-129 | an accepted path is non-empty and a piece of the typed line |
| ImageInput.BlankLineRejected | MyMultimodel-ImageRecognition.py:127-129 | a blank line prints "No path provided." and stops |
| ImageInput.SignificantCharKept | MyMultimodel-ImageRecognition.py:125-129 | a character that is neither whitespace nor a quote survives cleaning, so its line is accepted |
| ImageInput.DoubleQuotedPath | MyMultimodel-ImageRecognition.py:125 | a path pasted in double quotes, with spaces around, comes out bare |
| ImageInput.SingleQuotedPath | MyMultimodel-ImageRecognition.py:125 | a path pasted in single quotes, with spaces around, comes out bare |
| ImageInput.EmptyQuotesRejected | MyMultimodel-ImageRecognition.py:125-129 | a line holding only `""` is rejected |

## Findings

| source | as written | input that shows it | evidently intended | confidence | as-written member | corrected member |
|---|---|---|---|---|---|---|
| AI-Interview.py:394-395 | The completion block (the "Interview Completed!" message, final average, performance, breakdown and report) is nested in the `else:` at line 258 of `if not st.session_state.interview_active:` at line 236, so it runs only while an interview is active. The only transitions that clear `waiting_for_answer` (lines 382-384, and End at lines 208-210) also clear `interview_active`; a failed first request leaves an active interview with nothing awaited but a count of 0. | Start with an API key and a first question, then submit one non-blank answer per requested question with every call succeeding. The last submission leaves `interview_active` and `waiting_for_answer` false and the count at the requested number. The next run shows the start page, never the completion screen. | The block runs after a finished interview, under the test at line 395 alone (outside the `else:`). | not executed | Interview.CompletionScreenUnreachable | Interview.FullInterview |

`Interview.CompletionShown` is the guard as written and `Interview.CountReached` is the
test at line 395 alone. The finished-interview lemmas (`Interview.AdvanceEffects`,
`Interview.SubmitAdvances`, `Interview.PlayFinishes`, `Interview.FullInterview`) are
stated with `CountReached`. `Interview.FinalAverage` and `Scoring.Rate` model the
completion screen as it is evidently meant to appear.

## Left out

- The Streamlit page is not modelled: page setup, styling, widgets, charts, the score breakdown and the report download (AI-Interview.py:9-50, 146-170, 218-300, 413-446). It is presentation only.
- Agent construction and the `generate_reply` calls are not modelled (AI-Interview.py:64-143, 190, 329, 343, 368). Their replies are parameters, and `None` stands for a call that raised.
- An exception from `create_agents` is not modelled. It would leave the record untouched, as a missing API key does.
- Reset does not model the deletion of the agent objects and the `initialized` key. The record the initialisation block rebuilds is modelled.
- `datetime.now()` timestamps and the JSON report are not modelled. They are clock I/O and serialisation.
- Decimal.ParseDecimal: reads only a sign, decimal digits and at most one point. Python's `float` also accepts exponents, `inf`/`nan`, underscores between digits and non-ASCII digits. For such tokens the model records the default 7.0 where the script records the parsed number.
- Scores are exact reals rather than binary floating point. The `:.1f`/`:.2f` formatting is not modelled.
- Text.Upper: maps ASCII letters only. Python's Unicode case mapping, such as `ſ` upper-casing to `S`, is not modelled.
- Text.Lower: maps ASCII letters only, like `Text.Upper`.
- ImageInput.Suffix: follows `pathlib` as of CPython 3.13 and earlier (a dot that starts or ends the name gives no suffix). It models the POSIX path flavour only, not Windows drive letters or backslashes.
- `mimetypes.guess_type` is not modelled: its result comes in as a parameter of `ImageInput.MimeType`. It reads the platform's type tables.
- The rest of `analyze_image` is not modelled: path expansion, existence checks, file reading, base64 encoding and the remote analysis (MyMultimodel-ImageRecognition.py:41-116). These are filesystem and network I/O.
- The other scripts (`Single-Multi-Agent-andChat.py`, `MyWeather-AnyCity.py`, `MySimpleAutogen.py`) are not part of this model. They are console loops around remote calls.
