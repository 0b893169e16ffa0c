# TT-Quiz-bot core in Dafny

This project models the core of a Telegram quiz bot.
- An admin sends a test as plain text: numbered questions, the correct answer marked with `*`, wrong answers on the following lines.
- The bot parses that text and stores it in a database, with the options of each question shuffled and labelled `A`, `B`, `C`, ….
- Users take a test through inline buttons, one question at a time.
- When a user finishes, the result is saved. It counts towards a global leaderboard (total correct answers) and a monthly one (the month's sum of scores).

The model has six modules.
- `Text` (text.dfy): the Python string operations the core relies on. This covers `str.strip` with Python's whitespace set, `str.split` on one character, `str.startswith`, `int()` and `str()` on integers.
- `QuizParser` (parser.dfy): `parse_text_to_quiz`.
  - The loop is a method proved equal to a declarative reading of the text.
  - That reading works on blocks: a question line with the lines that follow it.
- `OptionCodec` (options.dfy): one question's stored form. This is the labelled option map and the correct label written by `save_test_to_db`, and read back by `get_test_questions_from_db`.
- `Ranking` (ranking.dfy): stable insertion by decreasing score. Both leaderboards are built with it.
- `Storage` (db.dfy): the four tables as a `Database` object, with one method per database function.
  - Database invariant: test names are unique and ids are fresh.
  - Ledger invariant: every user's global total equals the sum of their saved scores.
- `QuizBot` (bot.dfy): `user_quiz_state` as a map from user id to session, inside a `Bot` object, with one method per handler.

Randomness is a parameter.
- `random.shuffle` becomes a function argument `shuffle`.
- The predicate `Shuffles(shuffle)` requires it to return a reordering of every list it is given.
- So every property holds whatever permutation is drawn.

Other things outside the program are parameters too:
- Whether a database session could be opened is a `dbUp` flag.
- The current month `"%Y-%m"` is a `month` string.
- An unexpected exception while saving a test is a `saveFault` flag.

## Model

| member | source | states |
|---|---|---|
| Text.LStrip | parser.py:11 | `str.lstrip()`: the result is a suffix of the input that is empty or does not start with Python whitespace |
| Text.RStrip | parser.py:11 | `str.rstrip()`: the result is a prefix of the input that is empty or does not end with Python whitespace |
| Text.LStripDropsOnlySpace | parser.py:11 | everything `lstrip` drops is whitespace |
| Text.RStripDropsOnlySpace | parser.py:11 | everything `rstrip` drops is whitespace |
| Text.Strip | parser.py:11 | `str.strip()`: the result is no longer than the input and has no Python whitespace at either end |
| Text.StripEmptyIff | parser.py:11 | `line.strip()` is empty exactly when the line is all whitespace, which is the filter of the line comprehension |
| Text.SplitOn | parser.py:11 | `str.split(c)`: never empty, no part contains `c`, and joining the parts with `c` gives back the input |
| Text.IntLStrip | bot.py:195 | the leading whitespace `int()` skips: a suffix of the input that does not start with `\t`, `\n`, `\v`, `\f`, `\r`, space or non-ASCII whitespace; `IntLStripDropsOnlySpace` shows only such characters are dropped |
| Text.IntRStrip | bot.py:195 | the trailing whitespace `int()` skips: a prefix of the input that does not end with such a character; `IntRStripDropsOnlySpace` shows only such characters are dropped |
| Text.IntLStripDropsOnlySpace | bot.py:195 | everything `int()` skips at the front is its own whitespace, never U+001C..U+001F |
| Text.IntRStripDropsOnlySpace | bot.py:195 | everything `int()` skips at the back is its own whitespace, never U+001C..U+001F |
| Text.ParseInt | bot.py:195 | `int()` on a string: a number only if something is left after `str.strip()` and the string holds no information separator U+001C..U+001F, which `str.strip()` drops but `int()` rejects |
| Text.ParseIntViaStrip | bot.py:195 | `int()` fails on any string holding U+001C..U+001F, and on every other string reads what `str.strip()` leaves as an optional sign and decimal digits |
| Text.IntToString | bot.py:160 | `str(i)`: non-empty, no whitespace at either end and no `_`, so the `_` split at bot.py:194 keeps it whole; `IntRoundTrip` reads it back |
| Text.IntRoundTrip | bot.py:160 | `int(str(i)) == i` for every integer, negative ones included |
| QuizParser.NonBlank | parser.py:11 | the kept lines are stripped and non-empty, and there are no more of them than raw lines |
| QuizParser.DigitRunIsLongest | parser.py:17 | the `\d+` of the question pattern matches the longest run of leading digits |
| QuizParser.AnswerLineIsNoQuestionStart | parser.py:20-35 | a `*` line never starts a question, so the order of the two tests does not matter |
| QuizParser.PreambleIsBeforeFirstQuestion | parser.py:19-41 | the lines before the first question line contain no question start |
| QuizParser.PreambleIgnored | parser.py:19-41 | lines before the first question are dropped: they change no question |
| QuizParser.BlocksCount | parser.py:22-34 | one question is opened per question line |
| QuizParser.BlocksFlatten | parser.py:19-41 | the questions' header and body lines are exactly the lines from the first question on, in order |
| QuizParser.BodiesComeFromLines | parser.py:35-41 | every answer or option line of a question is a line of the text |
| QuizParser.ExtendBodies | parser.py:35-41 | reading one more line adds only that line to a question's lines |
| QuizParser.AnswerExistsIff | parser.py:35-38 | a question has a correct answer if and only if one of its lines starts with `*` |
| QuizParser.LastAnswerWins | parser.py:38 | with several `*` lines the last one sets the correct answer, stripped of the `*` |
| QuizParser.SecondAnswerKeepsDistractors | parser.py:35-41 | a later `*` line replaces the answer and does not become a wrong option |
| QuizParser.DistractorsAfterFirstAnswer | parser.py:39-41 | the wrong options are exactly the non-`*` lines after the first `*` line; lines before it are dropped |
| QuizParser.DistractorsNeedAnswer | parser.py:39 | a question has wrong options only if it has a correct answer |
| QuizParser.Committed | parser.py:24-48 | every returned question has a non-empty answer; every one but possibly the final block has at least one wrong option |
| QuizParser.KeptPositions | parser.py:24-48 | which questions are kept: a non-final block needs a wrong option, the final one only an answer, and both a non-empty answer |
| QuizParser.CommittedAreKeptBlocks | parser.py:24-48 | the result is, in order, exactly the kept questions, each read from its own block |
| QuizParser.ParseAtMostOnePerQuestion | parser.py:19-48 | never more questions than question lines |
| QuizParser.ParseWithoutQuestionStart | parser.py:19-48 | text without a numbered line parses to nothing |
| QuizParser.ParseWithoutAnswerLine | parser.py:19-48 | text without a `*` line parses to nothing |
| QuizParser.UnansweredBlocksGiveNothing | parser.py:44-48 | questions that never got an answer are not returned |
| QuizParser.ClosedDraftsAnswered | parser.py:24-27 | committing each question when the next one starts keeps exactly those with a wrong option and a non-empty answer |
| QuizParser.DraftSnoc | parser.py:35-41 | the per-line update of the open question: a `*` line sets the answer, another line is appended once an answer exists, otherwise dropped |
| QuizParser.ExtendOpensQuestion | parser.py:22-34 | a question line closes the open question and opens a fresh one with no options and no answer |
| QuizParser.ExtendContinuesQuestion | parser.py:35-41 | any other line only changes the open question, or nothing before the first question |
| QuizParser.FinalCommit | parser.py:43-48 | after the last line the open question is added only if it has an answer, and empty answers are filtered out |
| QuizParser.ReadLine | parser.py:19-41 | one pass of the loop: a question line commits the open question only if it has a wrong option and opens a new one; afterwards the open question and the committed list are those of the blocks with the line added |
| QuizParser.Parse | parser.py:5-48 | the declarative parse: lines, then blocks, then the kept blocks as records. Every returned answer is non-empty, and every question but the last has a wrong option |
| QuizParser.ParseTwoQuestions | parser.py:19-48 | worked example: for lines shaped `1. Q?`, `*A`, `B`, `2. R?`, `*C`, the result is question `Q?` with answer `A` and wrong option `B`, then question `R?` with answer `C` and no wrong option. The last question is kept without one |
| QuizParser.ParseTextToQuiz | parser.py:5-48 | the loop returns exactly the declarative parse of the text, and every returned answer is non-empty |
| OptionCodec.OptionsMapShape | db_manager.py:152 | option `i` gets label `chr(65+i)`, labels are distinct, and the texts are the options in shuffled order |
| OptionCodec.FirstMatch | db_manager.py:155 | `next(...)` picks the first entry whose text equals the answer, or finds none |
| OptionCodec.CorrectPosition | db_manager.py:149-155 | the correct answer is always in the shuffled options, and the label chosen is that of its first occurrence |
| OptionCodec.EncodeQuestion | db_manager.py:147-162 | a stored question has the test id and question text, one labelled option per pool entry with the pool's texts, and a correct label that looks up the correct answer |
| OptionCodec.RemoveFirstMultiset | db_manager.py:181 | dropping the first copy of the answer removes exactly one copy |
| OptionCodec.OtherTextsAt | db_manager.py:181 | the options whose key is not the correct label are all the texts but the one at that label's position |
| OptionCodec.LookupAt | db_manager.py:182 | looking up a label gives the text stored under it |
| OptionCodec.DecodeQuestion | db_manager.py:177-183 | reading one stored row: the question text, the texts under every key but the correct label, and the text under the correct label. `DecodeKeepsTexts` and `RoundTrip` state what it gives back |
| OptionCodec.DecodeKeepsTexts | db_manager.py:178-182 | reading back a question splits its texts into the correct answer and all the others, nothing lost |
| OptionCodec.RoundTrip | db_manager.py:147-182 | save then read gives back the question and correct answer, with the wrong options reordered as the shuffle left them: the same multiset, one copy of the answer removed |
| Ranking.InsertKeepsSorted | db_manager.py:135 | inserting keeps a board sorted by decreasing score |
| Ranking.InsertElements | db_manager.py:135 | inserting adds one entry and keeps all the others |
| Ranking.InsertKeepsDistinct | db_manager.py:122-133 | an entry for a new user keeps one entry per user |
| Storage.DisplayName | db_manager.py:131 | the name shown on the monthly board is never empty: the username, or `ID:` and the id |
| Storage.FindTest | db_manager.py:170-172 | a test is found only by its own name, and not found only when no row has that name |
| Storage.EncodeAll | db_manager.py:146-162 | one row per parsed question, each under the new test id and well labelled |
| Storage.EncodeRows | db_manager.py:147-162 | the save loop builds exactly `EncodeAll` of the parsed questions: one encoded row per question, in order |
| Storage.SaveKeepsTablesValid | db_manager.py:140-166 | saving a test under a new name with fresh ids keeps names unique and ids fresh |
| Storage.ResultRowAdds | db_manager.py:85-122 | one saved result adds its score to its user's total, and to the month's sum when its month matches |
| Storage.TotalScoreWithoutRows | db_manager.py:27 | a user with no results has total 0 |
| Storage.MonthScoreWithoutRows | db_manager.py:119-122 | a user with no rows that month has sum 0 |
| Storage.SavedTestReadsBack | db_manager.py:140-185 | after a test is saved, looking up its name finds it, and its questions read back as the parsed ones |
| Storage.QuestionsOf | db_manager.py:174-184 | the test's rows decoded, in table order, at most one per row; `QuestionsOfAppend` and `EncodeAllReadsBack` state what a save reads back as |
| Storage.QuestionsOfAppend | db_manager.py:174 | the questions of a test are read in table order, so appended rows come after the earlier ones |
| Storage.EncodeAllReadsBack | db_manager.py:146-183 | the questions of one save read back, in order, as the parsed questions |
| Storage.TopTen | db_manager.py:115 | the first ten of a complete sorted list form a valid global board |
| Storage.GlobalStep | db_manager.py:115 | adding one user to the partial global list keeps it sorted, one entry per user, and listing exactly the users seen |
| Storage.MonthlyStep | db_manager.py:125-135 | adding one user's monthly sum keeps the partial monthly board sorted and correct |
| Storage.MonthlyDone | db_manager.py:125-137 | when every user with a month row is handled, the list is a valid monthly board |
| Storage.Database.constructor | db_manager.py:59-61 | empty tables satisfy the database and ledger invariants |
| Storage.Database.GetOrCreateUser | db_manager.py:71-83 | an existing user is returned unchanged; otherwise a user with total 0 is added; other tables are unchanged; the ledger holds |
| Storage.Database.UpdateGlobalScore | db_manager.py:85-90 | a known user's total grows by the count; for an unknown user nothing changes |
| Storage.Database.SaveQuizResult | db_manager.py:92-109 | one result row is appended and the user's total grows by the score; for a known user the ledger is kept |
| Storage.Database.SaveTest | db_manager.py:140-166 | a taken name changes nothing and is reported; otherwise the test gets the next id, its questions are appended encoded, and the invariant is kept |
| Storage.Database.GetTestQuestions | db_manager.py:168-185 | an unknown name gives `(None, None)`; otherwise the test's id and its questions, decoded, in table order |
| Storage.Database.MonthSums | db_manager.py:119-122 | the month's `GROUP BY user_id` sums: a user has an entry if and only if they have a row that month, and the entry is their sum |
| Storage.Database.GlobalBoard | db_manager.py:115 | at most ten entries, sorted by decreasing total, one per user, and no user left off has a higher total than any listed user |
| Storage.Database.MonthlyBoard | db_manager.py:118-135 | known users with results this month, each with that month's sum and display name, one entry each, sorted by decreasing score |
| Storage.Database.GetLeaderboards | db_manager.py:111-137 | both boards are valid; under the ledger every global total is the user's sum of saved scores |
| QuizBot.AnswerCallback | bot.py:160 | the answer button's callback `ans_next_{n}_{flag}`; `AnswerCallbackRoundTrip` proves `DecodeAnswer` inverts it |
| QuizBot.DecodeAnswer | bot.py:194-196 | `split('_')`, `int(parts[2])` and `parts[3] == 'True'`. A missing field or a bad number gives no answer, where Python raises. `AnswerCallbackRoundTrip` proves it inverts `AnswerCallback` |
| QuizBot.AnswerCallbackRoundTrip | bot.py:160-196 | the answer callback starts with `ans_next_` and decodes to its index and flag, for every integer index |
| QuizBot.TakeCallback | bot.py:97 | the menu callback starts with `take_` and the rest is the test name |
| QuizBot.TakeName | bot.py:115 | `split("take_")[1]` is the part of the data right after the leading `take_`, up to the next `take_` |
| QuizBot.TakeCallbackRoundTrip | bot.py:97-115 | a test name comes back out of `take_{name}` exactly when it does not itself contain `take_` |
| QuizBot.Menu | bot.py:97 | one `take_` button per stored test, in table order; `MenuSelectsItsTest` proves each selects its own test |
| QuizBot.MenuSelectsItsTest | bot.py:90-117 | with unique names, choosing the menu button of a name without `take_` looks up that test |
| QuizBot.PresentQuestion | bot.py:149-162 | at most four buttons: the first ones of the shuffled pool, labelled A, B, …, each flagged correct when its text is the correct answer |
| QuizBot.Buttons | bot.py:156-162 | one button per shown option, labelled in order; `ButtonsDecode` proves each callback decodes to the next index and to whether that option is the correct answer |
| QuizBot.ButtonsDecode | bot.py:156-196 | each button's callback decodes to the next index and to whether its text is the correct answer |
| QuizBot.CorrectShownWhenFewOptions | bot.py:150-153 | with four options or fewer, the correct answer is on a button |
| QuizBot.CorrectCanBeCutOff | bot.py:150-153 | with five options, a shuffle can leave the correct answer off all four buttons |
| QuizBot.Outcome | bot.py:190-220 | an answer goes on exactly when it decodes and its index can be read from the questions, and then moves to that index. It finishes exactly when it decodes and the index is past the last question. Otherwise the exception path is taken |
| QuizBot.Counted | bot.py:201-206 | counting an answer changes only the correct and incorrect counters of the session; `AnswerCountsOnce` proves exactly the counter the flag names grows by one |
| QuizBot.AnswerCountsOnce | bot.py:194-206 | an accepted answer counts once, in the counter its flag names, and keeps the test and questions |
| QuizBot.AnswerIgnoresCurrentIndex | bot.py:198-214 | the outcome of an answer does not depend on the stored current index |
| QuizBot.ReplayedCallbackCountsTwice | bot.py:192-211 | pressing the same button twice counts the answer twice |
| QuizBot.HonestAnswerKeepsCount | bot.py:160-214 | answering the question on screen keeps answers counted equal to its index; the last answer finishes with one answer per question |
| QuizBot.AnswerKeepsSessionOk | bot.py:209-220 | a quiz that goes on has an index Python can read the questions at |
| QuizBot.Bot.constructor | bot.py:11 | the bot starts with no sessions |
| QuizBot.Bot.AddTestCommand | bot.py:22-29 | a non-admin is refused with nothing changed; the admin's slot becomes "awaiting name" |
| QuizBot.Bot.HandleAdminMessage | bot.py:32-79 | name step: the stripped name is kept and the tables are unchanged. Content step: as `ContentReceived` says. Any other message changes nothing. Users and results never change |
| QuizBot.Bot.ReceiveTestName | bot.py:38-48 | the name step: the admin's slot now waits for the content under the stripped name, the reply asks for the content, and no table changes |
| QuizBot.Bot.ReceiveTestContent | bot.py:50-79 | the content step (`ContentReceived`): an empty parse or no database keeps the slot and the tables. Otherwise the slot is deleted. The test is then saved under the next id, which then advances by one, or refused as a duplicate, or fails with nothing saved |
| QuizBot.Bot.SaveContent | bot.py:65-79 | the save attempt: a failing save changes no table and a taken name is refused, otherwise one test row with the next id and its encoded questions are added and the id advances; in every case the admin's slot is deleted and users and results are unchanged |
| QuizBot.Bot.TakeQuizCommand | bot.py:83-100 | no database gives no reply, no tests gives a message, otherwise one `take_` button per test; nothing changes |
| QuizBot.Bot.StartQuizSelection | bot.py:103-138 | an unknown or empty test changes nothing. Otherwise a user without a users row gets one with total 0, and no other user changes. The slot becomes a fresh quiz over a reordering of the test's questions, with counters 0. Question 0 is shown as `Shows` says. Tests, questions, results and the next id never change |
| QuizBot.Bot.BeginQuiz | bot.py:123-138 | a user without a users row gets one with total 0 and no other user changes; the slot becomes a fresh quiz over a reordering of the given questions, at question 0 with both counters 0, and question 0 is shown as `Shows` says; tests, questions, results and the next id never change |
| QuizBot.Bot.ShowCurrent | bot.py:141-172 | (`Shows`) the question shown is the one at the stored index; negative indexes count from the end. The buttons are exactly those `PresentQuestion` builds from the first four entries of the shuffled pool |
| QuizBot.Bot.ShowLeaderboard | bot.py:289-303 | without a database an error reply; otherwise both boards, valid |
| QuizBot.Bot.AnswerCallbackQuery | bot.py:175-220 | not in a quiz, or not an answer callback: nothing changes. Otherwise the slot moves on, finishes, or is deleted on an exception, as `StepApplied` says for the decoded answer. Tests, questions and the next id never change |
| QuizBot.Bot.ApplyStep | bot.py:209-220 | (`StepApplied`) after an exception the slot is deleted with no table changed. A quiz that goes on replaces the slot and shows the next question as `Shows` says. A finished quiz deletes the slot and, with a database, appends its result and adds the score to exactly that user's total |
| QuizBot.Bot.FinalizeQuiz | bot.py:222-246 | score = correct answers, total = all answers. Both are saved and reported, and the slot is deleted. The user's global total grows by the score and no other user changes. Without a database nothing is saved and the slot is still deleted. Tests, questions and the next id never change |

## Left out

- Telegram I/O: the reply texts, Markdown/HTML rendering, message editing and `query.answer()` are not modelled. A reply is a datatype naming which message would be sent.
- Async handling and concurrency: each handler is one atomic step on the state.
- `format_question_for_db` (parser.py:50-55) is not modelled. It has no body.
- `start_command` and `list_tests_command` (bot.py:250-272, 316-338) are not modelled. They only read tables and reply; `start_command` calls `get_or_create_user`, which is modelled.
- `main`, the handler registration and the `config` module are not modelled. The admin filter (bot.py:355) shows up as `HandleAdminMessage` acting on `adminId` only.
- The callback dispatch (bot.py:180-188) is not one method. It is the three methods `StartQuizSelection`, `ShowLeaderboard` and `AnswerCallbackQuery`, and `AnswerCallbackQuery` requires that the data is neither a `take_` callback nor `show_leaderboard`. All three take the same `dbUp` flag for the separate sessions opened at bot.py:108, 180 and 296.
- SQLAlchemy sessions, flush, commit and rollback are not modelled. A failing save changes no table, as if the unfinished transaction were discarded when the session closes.
- The `date_taken`, `description`, `Question.id` and `QuizResult.id` columns are not modelled. No code in the core reads or writes them.
- JSON encoding of the options map (db_manager.py:160,178) is not modelled: a labelled entry list is stored as is. Labels are code points (`65 + i`), not one-character strings.
- Clock: `datetime.utcnow().strftime("%Y-%m")` is the `month` parameter.
- Randomness: each `random.shuffle` is a function argument that may return any reordering of its input. Two shuffles of equal lists therefore give equal results.
- Storage.Database.GetTestQuestions: row order is table order. SQL without `ORDER BY` promises no order.
- QuizParser: `\d` in Python also matches non-ASCII digits. The model's question pattern accepts ASCII digits only.
- Text.ParseInt: Python's `int()` also accepts non-ASCII digits, and underscores between digits. The model accepts ASCII digits only. Underscores never matter here, because the text it reads was split at `_`.
- Integer widths: ids, scores and totals are unbounded. The `BigInteger` and `Integer` column limits are not modelled.
- The 64-byte limit Telegram puts on callback data is not modelled, so very long test names are not rejected.
- The model keeps these behaviours of the code, which a reader may not expect:
  - With several `*` lines the last one wins.
  - A question that is not the last one is kept only if it has a wrong option.
  - The button pool is cut to four without keeping the correct answer (see `CorrectCanBeCutOff`).
  - An answer callback is not checked against the question on screen (see `AnswerIgnoresCurrentIndex` and `ReplayedCallbackCountsTwice`).
- Storage.Database.GlobalBoard and Storage.Database.MonthlyBoard: the order among equal scores is not stated. The boards are built over the users as a set, so the database's tie order is not modelled.
