# kwikquiz in Dafny

A model of the core of kwikquiz, a Go quiz server with two small browser
scripts, together with proofs about that model. A host builds a quiz out of
questions and answers and opens a lobby. Players join the lobby with a pin,
pick usernames and answer timed questions. They earn points for correct
answers, the fastest earning 1000, and a leaderboard ranks them.

The repository holds several generations of the same packages, which do not
compile together. Each source file is modelled on its own terms, one Dafny
module per file:

| source | module |
|---|---|
| internal/game/common.go, round.go, game.go, repository.go | `GameCommon`, `GameRound`, `GameGame`, `GameRepository` |
| internal/quiz/models.go, respository.go | `QuizModels`, `QuizMemoryRepository` |
| internal/quiz/routes.go (the form reader) | `QuizForm` |
| static/js/quiz.js, static/js/quiz-update.js | `QuizCreateScript`, `QuizUpdateScript` |
| internal/quiz/repository.go (gorm), sqlite.go | `QuizGormRepository`, `QuizSqlite` |
| internal/lobbies/templates.go, user.go, models.go, lobby.go, repository.go, events.go | `LobbiesTemplates`, `LobbiesUser`, `LobbiesModels`, `LobbiesLobby`, `LobbiesRepository`, `LobbiesEvents` |
| internal/lobby/templates.go, lobby.go, repository.go, events.go | `LobbyTemplates`, `LobbyLobby`, `LobbyRepository`, `LobbyEvents` |
| internal/common/game.go | `CommonGame` |
| internal/config/config.go, internal/env/env.go | `Config`, `EnvFile` |

The support modules are:

- `Wrappers`: `Option` and `Result`.
- `Decimal`: `strconv.Atoi` and the `%d` verb of `fmt.Sscanf`, which skips leading white space and reads an optional sign and the digits 0-9.
- `GoTime`: instants and `Time.Sub`.
- `MapEnum`: Go's unordered walk over a map.
- `Sorting`: a selection sort standing in for `sort.Sort`, `sort.Slice` and `slices.SortFunc`.

The model follows each file's form:

- Objects whose fields the source updates become classes: rounds, games, repositories, lobbies, the page's DOM, the process environment.
- Loops that update them become methods with loop invariants. Each method is proved against a specification function on the whole state.
- A Go `for range` over a map visits keys in an unspecified order. It is modelled as a walk over any enumeration of the keys. The results are proved not to depend on that order.
- A browser page is modelled as its sequence of question blocks: the names and values of the inputs, and the visibility of the delete buttons.
- A form request is modelled as a map from field name to values, plus the set of fields carrying a file.
- Form field names are a structured datatype (`question-i`, `answer-i-j`, `correct-answer-i-j` and the rest), so a name is never built as text.
- Lobby users that Go shares by reference are modelled as a table keyed by client id. The host and the players refer into that table, so a record shared between host and players stays shared.

The model proves these properties:

- **The form round trip.** What each script puts in the form, `parseQuizForm` reads back as the same questions and answers. The script's correctness toggle writes `"true"` or `"false"`, while the server accepts only `"Correct"`. So no answer submitted from either page is ever read as correct.
- **Repository error rules and reconciliation.** The error rules of every repository hold. The gorm `UpdateQuiz` reconciliation updates matching rows, creates new ones and deletes missing ones. The sqlite writes fail for a question without answers, since an empty multi-row insert is an error. The sqlite `Get` as written merges all the questions of a quiz into one, because its grouping key is never filled; the corrected grouping gives every question with exactly its own answers.
- **The lobby event handlers.**
  - An invariant that every handler keeps:
    - the host and the players are in the user table;
    - players' usernames are distinct;
    - `PlayersAnswering` counts exactly the players who have not answered.
  - From that invariant, the timer is cancelled exactly when the last player answers.
  - The leaderboard lists each player once, highest score first.

## Model

| member | source | states |
|---|---|---|
| GameCommon.IsValid | internal/game/common.go:7-29 | no username is ever valid; the error is "username is empty" exactly for the empty name and "username is too long" exactly above 40 bytes; otherwise the loop's first rune decides: a space gives "tabs not allowed", anything else "whitespaces not allowed" |
| GameRound.Round.constructor | internal/game/round.go:29-41 | the round's players are exactly the listed names; no answers; neither started nor ended; the question and settings are the given ones |
| GameRound.Round.Start | internal/game/round.go:43-55 | a started round answers "Round already started", an ended one "Round already ended"; otherwise the start instant is set to now; it succeeds exactly when neither was set, and nothing else changes |
| GameRound.Round.FinishRound | internal/game/round.go:91-100 | the end instant is set once; a second call answers "Round already ended" and changes nothing |
| GameRound.Round.FinishEarly | internal/game/round.go:83-89 | ends the round like `finishRound`, whether or not it started |
| GameRound.Round.TimerFired | internal/game/round.go:57-71 | after reading time plus answer time, the timer ends a round that nobody ended before; an earlier end is kept |
| GameRound.Round.SubmitAnswer | internal/game/round.go:119-168 | the error is the first failing check in source order (invalid index, not a player, not started, before reading time is over, already ended, already answered); only success records the answer; the round ends, at that instant, exactly when every player has answered; the round stays valid |
| GameRound.Round.GetResults | internal/game/round.go:170-197 | an unended round gives "round has not ended"; otherwise exactly one entry per player, 0 for a missing or wrong answer, 1000 for a right answer within 500 ms, and the defined points for the rest |
| GameRound.AllAnsweredIffSameSize | internal/game/round.go:159-160 | for answers that only players give, equal counts mean every player has answered, and conversely |
| GameGame.Game.constructor | internal/game/game.go:57-70 | a new game has no players and no round, is neither started nor ended, and carries the given settings and quiz (the settings update cannot fail) |
| GameGame.Game.UpdateSettings | internal/game/game.go:79-90 | refused with ErrGameAlreadyStarted once the game started; otherwise settings and quiz become the new ones |
| GameGame.Game.AddPlayer | internal/game/game.go:110-131 | after the start it answers ErrGameAlreadyStarted, before it ErrInvalidUsername with `IsValid`'s reason; so it never adds a player and the points table never changes |
| GameGame.Game.ChangeUsername | internal/game/game.go:133-159 | the same name is a successful no-op; a missing old name, a taken new name and an invalid new name are refused in that order; the points table never changes |
| GameGame.Game.RemovePlayer | internal/game/game.go:161-175 | succeeds exactly before the start for a present name, and then removes only that name |
| GameGame.Game.Players | internal/game/game.go:333-350 | every player exactly once |
| GameGame.Game.StartRound | internal/game/game.go:261-295 | for any index: refused while the current round runs, after the end, without players, or without question `num` (a negative index included), in that order, changing nothing; it succeeds exactly when none of these holds, and then a fresh round for exactly the current players, with the quiz's question and the round settings, is started now and becomes round `num` |
| GameGame.Game.Start | internal/game/game.go:177-195 | once only, refused after the end, and otherwise exactly `startRound(0)`'s refusals (round running, no players, no question 0) in that order, changing nothing; succeeds exactly when none applies, and then round 0 runs for the current players with question 0, the round settings, started now and no answers, and the game is stamped as started now |
| GameGame.Game.StartNextRound | internal/game/game.go:197-218 | refused after the end, before the start, while the round runs, past the last question, or when the quiz has no such question, in that order; it succeeds exactly when every guard passes, and then round `roundNum + 1` runs for the current players with that question, started now |
| GameGame.Game.Finish | internal/game/game.go:220-230 | the end instant is set once; a second call answers ErrGameFinished |
| GameGame.Game.RoundNum | internal/game/game.go:352-360 | -1 before the start, afterwards the current round's number |
| GameGame.Game.Leaderboard | internal/game/game.go:368-384 | twice as many entries as players: `len(points)` zero scores plus one score per player, as a multiset, sorted by non-decreasing points |
| GameGame.CollectScores | internal/game/game.go:371-377 | the collected slice is the zero scores followed by one score per listed player, in listing order |
| GameGame.SortByPoints | internal/game/game.go:378-381 | the sorted slice is a permutation of its input ordered by non-decreasing points |
| GameGame.Game.SubmitAnswer | internal/game/game.go:394-401 | without a round, "Not in round"; otherwise the round's own verdict: on success the answer is recorded and the round ends at `now` exactly when every player has now answered; a refusal leaves the answers and the end unchanged; the round's players, start, question and settings never change |
| GameRepository.InMemoryLobbyRepository.constructor | internal/game/repository.go:28-32 | the store starts empty |
| GameRepository.InMemoryLobbyRepository.AddLobby | internal/game/repository.go:34-41 | a taken pin gives ErrLobbyAlreadyExists and changes nothing; otherwise the lobby is stored under its pin |
| GameRepository.InMemoryLobbyRepository.UpdateLobby | internal/game/repository.go:43-50 | an unknown pin gives ErrLobbyNotFound and changes nothing; otherwise the lobby replaces the stored one and the set of pins stays the same |
| GameRepository.InMemoryLobbyRepository.GetLobby | internal/game/repository.go:52-59 | the stored lobby when the pin is known, otherwise the zero lobby and ErrLobbyNotFound |
| GameRepository.InMemoryLobbyRepository.DeleteLobby | internal/game/repository.go:61-68 | an unknown pin gives ErrLobbyNotFound; the pin is absent afterwards and nothing else changes |
| GameRepository.InMemoryLobbyRepository.GetAllLobbies | internal/game/repository.go:70-77 | every stored lobby exactly once |
| QuizModels.GetQuestion | internal/quiz/models.go:22-28 | the question at `idx` exactly when `0 <= idx < len(Questions)`, otherwise the "No question with index" error carrying `idx` |
| QuizModels.IsAnswerCorrect | internal/quiz/models.go:41-49 | true exactly when the index names an answer and that answer is marked correct |
| QuizModels.Answers | internal/quiz/models.go:62-70 | an element-by-element copy: same length, same answer at every index |
| QuizModels.IsAnswerValidBounds | internal/quiz/models.go:51-60 | an answer index is valid exactly when it lies in `0 <= i < len(answers)` |
| QuizModels.GameQuizQuestions | internal/quiz/models.go:22-32 | through the game's `Quiz` interface a question can be fetched exactly below `QuestionsCount()`, and it is the quiz's question at that index |
| QuizMemoryRepository.AddQuestion | internal/quiz/respository.go:113-115 | the question is appended at the end; earlier questions and every other field are unchanged |
| QuizMemoryRepository.InMemoryQuizRepository.constructor | internal/quiz/respository.go:44-49 | an empty store with the counter at 0 |
| QuizMemoryRepository.InMemoryQuizRepository.AddQuiz | internal/quiz/respository.go:51-64 | the quiz is stored under the counter's old value, which no stored quiz had (so "Quiz already exists" never happens); the counter goes up by one; every stored quiz stays under its own id below the counter |
| QuizMemoryRepository.InMemoryQuizRepository.UpdateQuiz | internal/quiz/respository.go:66-76 | an unknown id gives ErrQuizNotFound and changes nothing; otherwise the stored quiz is replaced |
| QuizMemoryRepository.InMemoryQuizRepository.GetQuiz | internal/quiz/respository.go:78-88 | the stored quiz, or the zero quiz with ErrQuizNotFound |
| QuizMemoryRepository.InMemoryQuizRepository.DeleteQuiz | internal/quiz/respository.go:90-100 | an unknown id gives ErrQuizNotFound; afterwards the id is absent and the counter is untouched, so ids are not reused |
| QuizMemoryRepository.InMemoryQuizRepository.GetAllQuizzes | internal/quiz/respository.go:102-111 | every stored quiz exactly once |
| QuizForm.ParseQuizForm | internal/quiz/routes.go:117-154 | a non-empty `qid` that is not a decimal integer gives "invalid quiz ID" and nothing else fails; otherwise the id is the integer converted to `uint` (wrapping modulo 2^64, "" giving 0), title, password and description are the first form values, and the questions are those the form spec reads from question 1 on |
| QuizForm.NegativeQuizIdWraps | internal/quiz/routes.go:125-130 | `qid` "-1" is accepted and becomes 2^64 - 1 |
| QuizForm.ParseQuestions | internal/quiz/routes.go:156-228 | the loop's result is the specification's question list: questions 1, 2, ... up to the first empty `question-i`, each with its answers |
| QuizForm.ParseAnswers | internal/quiz/routes.go:166-219 | the inner loop's result is the specification's answer list for the question: answers 1, 2, ... up to the first one with neither a file nor text |
| QuizForm.ParseAnswer | internal/quiz/routes.go:179-215 | one answer: text with a line break is LaTeX, other text is plain text, otherwise the uploaded file's name and bytes form an image; it is correct exactly when `correct-answer-i-j` is "Correct" |
| QuizForm.ParsedQuestionsArePrefix | internal/quiz/routes.go:160-164 | question `n` of the result is read from `question-n` for every `n` up to the count, and the next question field is empty: reading stops at the first gap and skips nothing before it |
| QuizForm.ParsedAnswersArePrefix | internal/quiz/routes.go:168-177 | answer `m` of a question is read from `answer-i-m` for every `m` up to the count, and the next answer field has neither file nor text |
| QuizForm.QuestionCount | internal/quiz/routes.go:160-164 | when questions 1..k are present and k + 1 is not, exactly k questions are read |
| QuizForm.AnswerCount | internal/quiz/routes.go:168-177 | when answers 1..k of a question are present and k + 1 is not, exactly k answers are read |
| QuizForm.QuestionPresence | internal/quiz/routes.go:161-162 | for a form whose question fields are never empty, question `n` is read exactly when some `question-n` pair was sent, and a single such pair is the value read |
| QuizForm.NoCorrectAnswers | internal/quiz/routes.go:214-215 | a request in which no `correct-answer-i-j` field holds "Correct" yields only answers marked not correct |
| QuizForm.NoCorrectFromPairs | internal/quiz/routes.go:214-215 | the same for the request built from the submitted (name, value) pairs, taking Go's first-value rule into account |
| QuizForm.FirstValuesHas | internal/quiz/routes.go:132-134 | `FormValue` sees a name exactly when some submitted pair carries it |
| QuizCreateScript.NewBlock | static/js/quiz.js:6-32 | an added block is numbered as given, shows its delete button and has no correct option checked |
| QuizCreateScript.ToggledDelete | static/js/quiz.js:48-59 | every block keeps its fields and has its delete button shown (the hiding branch needs zero buttons) |
| QuizCreateScript.Removed | static/js/quiz.js:40-43 | removing block `k` keeps the blocks before it and shifts those after it down by one |
| QuizCreateScript.QuizCreatePage.constructor | static/js/quiz.js:1-3 | the page starts with no question blocks |
| QuizCreateScript.QuizCreatePage.AddQuestionClicked | static/js/quiz.js:4-35 | a new empty block numbered one past the current count is appended; blocks stay numbered 1, 2, ... |
| QuizCreateScript.QuizCreatePage.DeleteQuestion | static/js/quiz.js:39-43 | the clicked block is removed and the others are not renumbered |
| QuizCreateScript.QuizCreatePage.ToggleDeleteButtons | static/js/quiz.js:48-59 | afterwards no delete button is hidden and nothing else changes |
| QuizCreateScript.BlockPairsShape | static/js/quiz.js:10-27 | a block submits exactly its `question-N` text, its four `answer-N-m` texts and, when an option is checked, `correct-answer-N` |
| QuizCreateScript.BlocksPairsShape | static/js/quiz.js:7-33 | every pair the page submits for its blocks comes from one of them |
| QuizCreateScript.BlockPairsIncluded | static/js/quiz.js:7-33 | every pair of every block is submitted |
| QuizCreateScript.NoCorrectField | static/js/quiz.js:20-26 | the page never submits a `correct-answer-N-m` field: its radio group is named `correct-answer-N` |
| QuizCreateScript.SubmittedAnswersNeverCorrect | internal/quiz/routes.go:214-215 | so the server marks no answer of a quiz made on this page as correct |
| QuizCreateScript.NumberedQuestionValue | static/js/quiz.js:10 | on a page numbered 1..n, `question-k` is present exactly for 1 <= k <= n and holds block k's text |
| QuizCreateScript.QuestionPairFromBlock | static/js/quiz.js:10 | a submitted `question-k` pair on such a page comes from block k |
| QuizCreateScript.NumberedAnswerValue | static/js/quiz.js:12-15 | `answer-k-m` is present exactly for blocks 1..n and options 1..4 and holds that option's text |
| QuizCreateScript.NumberedPageReadsAllQuestions | internal/quiz/routes.go:160-164 | with every question filled in, the server reads one question per block, in order, with the block's text |
| QuizCreateScript.NumberedPageReadsAllAnswers | internal/quiz/routes.go:166-219 | with a block's four answers filled in, the server reads exactly four plain-text answers, none correct |
| QuizCreateScript.DeleteWithoutRenumberingTruncates | static/js/quiz.js:40-43 | deleting block k + 1 of a filled-in page leaves a gap at number k + 1, so the server reads only the first k questions |
| QuizUpdateScript.BooleanText | static/js/quiz-update.js:143 | a boolean written into a field reads "true" exactly when it is true, and "false" otherwise |
| QuizUpdateScript.AnswerHTML | static/js/quiz-update.js:40-62 | an answer block named `answer-n-m` whose kind buttons point at that name; a file input exactly for a stored answer with an image; its button reads "Correct" exactly for a stored correct answer; no hidden field yet; its value is the stored text (or LaTeX) as the unescaped attribute leaves it, cut at the first `"` |
| QuizUpdateScript.QuestionHTML | static/js/quiz-update.js:22-35 | a block numbered `n` with field `question-n` holding the stored text as the unescaped attribute and the text input leave it (cut at the first `"`, line breaks removed), or empty; one answer block per stored answer in order; its delete button shown |
| QuizUpdateScript.QuotedAttribute | static/js/quiz-update.js:26 | the value of a `value="..."` attribute built from unescaped text: the longest prefix without `"`, ended by the first `"` when there is one |
| QuizUpdateScript.HydratedText | static/js/quiz-update.js:26 | the text a question field loads with: no `"`, no line break, never longer than the stored text |
| QuizUpdateScript.PlainTextSurvivesAttribute | static/js/quiz-update.js:26 | a stored text with no `"` and no line break loads unchanged |
| QuizUpdateScript.QuotedAttributeOfPlain | static/js/quiz-update.js:26 | text with no `"` is the whole attribute value |
| QuizUpdateScript.QuoteCutsText | static/js/quiz-update.js:26 | the stored `Is "x" true` loads as `Is ` |
| QuizUpdateScript.ToggledDelete | static/js/quiz-update.js:75-82 | a single block gets its delete button hidden; otherwise every delete button is shown; nothing else changes |
| QuizUpdateScript.ToggledDeleteIgnoresFlags | static/js/quiz-update.js:75-82 | the outcome does not depend on which buttons were hidden before |
| QuizUpdateScript.RenumberedValid | static/js/quiz-update.js:84-93 | renumbering keeps the page well formed and numbers its blocks 1, 2, ... in order |
| QuizUpdateScript.Removed | static/js/quiz-update.js:67-69 | removing entry `k` keeps the entries before it and shifts those after it down by one |
| QuizUpdateScript.FirstHidden | static/js/quiz-update.js:140 | the first hidden input with the name, when there is one, and none exists otherwise |
| QuizUpdateScript.WithoutFirstSpec | static/js/quiz-update.js:140-144 | taking the named hidden input out leaves distinct names, none of them that name, all from before |
| QuizUpdateScript.ToggleOptionSpec | static/js/quiz-update.js:132-145 | toggling twice restores the button; the toggled option has exactly one hidden input of that name, last, holding the new state as "true"/"false", and keeps its other hidden inputs |
| QuizUpdateScript.ToggleOptionValid | static/js/quiz-update.js:132-145 | toggling keeps an answer block well formed |
| QuizUpdateScript.FindAnswerInput | static/js/quiz-update.js:115 | `querySelector` by name: the first answer input in document order carrying the name, or none when no input does |
| QuizUpdateScript.FirstAnswerNamed | static/js/quiz-update.js:115 | the first answer input of a block carrying the name, or none |
| QuizUpdateScript.SwitchedInput | static/js/quiz-update.js:119-129 | the replacing input keeps the name, is empty, and is a text input, a file input or a text area by the button's `data-type` |
| QuizUpdateScript.StripNewlines | static/js/quiz-update.js:44-48 | a text input's submitted value has no line breaks and is unchanged when it had none |
| QuizUpdateScript.OptionsPairsShape | static/js/quiz-update.js:40-62 | an answer block submits only its answer field and "true"/"false" correctness fields |
| QuizUpdateScript.HiddenPairsShape | static/js/quiz-update.js:140-144 | hidden correctness inputs submit only "true" or "false" |
| QuizUpdateScript.ItemsPairsShape | static/js/quiz-update.js:22-35 | the blocks submit each block's question pair, only those question pairs, and otherwise answer fields and "true"/"false" correctness fields |
| QuizUpdateScript.SubmittedAnswersNeverCorrect | internal/quiz/routes.go:214-215 | the server, which looks for "Correct", marks no answer submitted from this page as correct |
| QuizUpdateScript.SubmittedQuestionPairs | static/js/quiz-update.js:26 | with all questions filled in, the submitted question pairs are exactly the blocks' question fields, none empty |
| QuizUpdateScript.SubmittedQuestionPresence | internal/quiz/routes.go:160-164 | then the server sees question `n` exactly when some block carries the name `question-n` |
| QuizUpdateScript.NumberedQuestionValue | static/js/quiz-update.js:26 | on a page numbered 1..n, `question-k` reads block k's text |
| QuizUpdateScript.NumberedPageReadsAll | internal/quiz/routes.go:156-228 | a filled-in page numbered 1..n yields n questions, in block order, with the blocks' texts |
| QuizUpdateScript.DeleteWithoutRenumberingTruncates | static/js/quiz-update.js:67-69 | deleting block k + 1 without renumbering (the delete handler never calls `updateQuestionNumbers`) makes the server read only the first k questions |
| QuizUpdateScript.Hydrated | static/js/quiz-update.js:13-15 | loading adds one block per stored question, numbered 1..n, each built from that question |
| QuizUpdateScript.HydratedStep | static/js/quiz-update.js:13-15 | adding block n + 1 with the delete-button toggle after it gives the same page as loading n + 1 questions |
| QuizUpdateScript.HydratedSubmittable | static/js/quiz-update.js:26-48 | every question field and answer input the page writes is `required`, so the untouched page passes the browser's validation exactly when every stored question loads with some text and every stored answer has no image and loads with some text |
| QuizUpdateScript.StoredImageBlocksSubmission | static/js/quiz-update.js:44-48 | a stored image answer loads as a `required` file input with no file chosen, so the browser refuses to submit the untouched page |
| QuizUpdateScript.HydratedPageReadsStoredQuestions | static/js/quiz-update.js:13-15 | when the browser lets the untouched page be submitted, the server gets back one question per stored question, in order, each with the text the page loaded; a text with no `"` and no line break comes back exactly |
| QuizUpdateScript.QuizUpdatePage.Hydrate | static/js/quiz-update.js:6-15 | the page holds the stored title, password and description and one block per stored question, numbered in order, with the text as the attribute leaves it and the stored answers |
| QuizUpdateScript.QuizUpdatePage.AddQuestion | static/js/quiz-update.js:22-38 | the block is appended, then the delete buttons are toggled; the quiz fields are unchanged |
| QuizUpdateScript.QuizUpdatePage.AddQuestionClicked | static/js/quiz-update.js:17-20 | an empty block numbered one past the count is appended |
| QuizUpdateScript.QuizUpdatePage.DeleteQuestion | static/js/quiz-update.js:67-70 | the block is removed, the others keep their numbers, and the delete buttons are toggled |
| QuizUpdateScript.QuizUpdatePage.ToggleDeleteButtons | static/js/quiz-update.js:75-82 | the page becomes the toggled page, fields unchanged |
| QuizUpdateScript.QuizUpdatePage.UpdateQuestionNumbers | static/js/quiz-update.js:84-93 | the page becomes the renumbered page and is numbered 1, 2, ... |
| QuizUpdateScript.QuizUpdatePage.AddAnswerClicked | static/js/quiz-update.js:97-102 | an empty answer block numbered one past the block's answer count is appended to that question only |
| QuizUpdateScript.QuizUpdatePage.DeleteAnswer | static/js/quiz-update.js:105-106 | that answer block is removed and the rest of the page is unchanged |
| QuizUpdateScript.QuizUpdatePage.ChangeAnswerType | static/js/quiz-update.js:112-130 | the first input in the page with the button's `data-answer` name, which may belong to another block, is replaced by an empty input of the chosen kind; with no such input nothing changes |
| QuizUpdateScript.QuizUpdatePage.ToggleCorrectAnswer | static/js/quiz-update.js:132-145 | the button flips between "Correct" and "Incorrect", and the block's `correct-answer-n-m` hidden input, created if missing, holds the new state as "true"/"false"; nothing else changes |
| QuizGormRepository.Pick | internal/quiz/repository.go:156-161 | `Updates` with a struct keeps the stored value of a field whose new value is its zero value and writes every other field |
| QuizGormRepository.GormQuizRepository.constructor | internal/quiz/repository.go:32-34 | the repository starts over empty tables with consistent keys |
| QuizGormRepository.GormQuizRepository.UpsertAnswer | internal/quiz/repository.go:152-181 | one answer: merged into the stored row when that id belongs to the question, otherwise inserted under the next fresh key; quizzes and questions are untouched |
| QuizGormRepository.GormQuizRepository.UpsertAnswersInOrder | internal/quiz/repository.go:151-181 | the loop applies the answers one after the other, as the specification function does |
| QuizGormRepository.GormQuizRepository.DeleteAnswersNotIn | internal/quiz/repository.go:183-197 | exactly the previously stored answers whose id is missing from the submitted list are deleted |
| QuizGormRepository.GormQuizRepository.UpdateAnswers | internal/quiz/repository.go:144-200 | the answer table after `updateAnswers` is the reconciled table: upserts first, then deletions of the answers that were present before and are no longer listed |
| QuizGormRepository.UpsertAnswersKeys | internal/quiz/repository.go:152-181 | upserting keeps every old key, adds only fresh keys, at most one per listed answer |
| QuizGormRepository.UpsertAnswersKeep | internal/quiz/repository.go:156-162 | no row changes question, and an answer stored as correct stays correct: `IsCorrect: false` is a zero value and is never written |
| QuizGormRepository.UpsertAnswersRows | internal/quiz/repository.go:152-181 | rows of other questions, and rows of this question not listed, are unchanged |
| QuizGormRepository.UpsertAnswersFresh | internal/quiz/repository.go:165-177 | every inserted row belongs to the question |
| QuizGormRepository.UpsertAnswersMerge | internal/quiz/repository.go:154-162 | with distinct listed ids, a listed answer already stored for the question ends as the stored row merged field by field with the submitted one |
| QuizGormRepository.StepAnswerKeeps | internal/quiz/repository.go:152-181 | one upsert leaves every other stored row as it was |
| QuizGormRepository.ReconcileAnswersFacts | internal/quiz/repository.go:144-200 | after `updateAnswers` a stored answer of the question survives exactly when its id is listed; rows of other questions are untouched; every new row is the question's |
| QuizGormRepository.StepQuestionFacts | internal/quiz/repository.go:81-117 | one question upsert keeps the tables consistent, leaves the quizzes and the other questions alone, and only adds fresh keys |
| QuizGormRepository.UpsertQuestionsFacts | internal/quiz/repository.go:80-117 | the same for the whole list of questions |
| QuizGormRepository.UpsertQuestionsText | internal/quiz/repository.go:83-90 | a listed question already stored for the quiz gets the new text, or keeps its old one when the new text is empty |
| QuizGormRepository.UpdatedTablesFacts | internal/quiz/repository.go:54-142 | after the update the tables are consistent; the quiz row is merged when it exists; questions of other quizzes are untouched; a stored question of the quiz survives exactly when listed, and every question of the quiz afterwards was listed or is new |
| QuizGormRepository.GormQuizRepository.UpsertQuestion | internal/quiz/repository.go:81-117 | one question's upsert, including its answers, gives the specified tables |
| QuizGormRepository.GormQuizRepository.UpsertQuestionList | internal/quiz/repository.go:80-117 | the loop over the submitted questions gives the specified tables |
| QuizGormRepository.GormQuizRepository.DeleteQuestionsNotIn | internal/quiz/repository.go:119-134 | exactly the previously stored questions missing from the list are deleted; their answers stay, since nothing cascades |
| QuizGormRepository.GormQuizRepository.ReconcileQuiz | internal/quiz/repository.go:63-134 | the statements of the transaction give the specified tables |
| QuizGormRepository.GormQuizRepository.UpdateQuiz | internal/quiz/repository.go:54-142 | a zero id fails with gorm's missing-WHERE error; a failed commit fails; a failure leaves every table as it was and returns id 0; success returns the quiz's id with the specified tables |
| QuizGormRepository.GormQuizRepository.LoadAnswers | internal/quiz/repository.go:204 | the preload of a question's answers: each stored answer of that question exactly once, as stored |
| QuizGormRepository.GormQuizRepository.LoadQuestions | internal/quiz/repository.go:204 | the preload of a quiz's questions: each stored question of the quiz exactly once, with its text and its answers |
| QuizGormRepository.GormQuizRepository.GetQuiz | internal/quiz/repository.go:202-212 | an unknown id gives "Quiz not found"; otherwise the stored quiz with all its questions and answers preloaded |
| QuizGormRepository.GormQuizRepository.DeleteQuiz | internal/quiz/repository.go:214-223 | never an error, even for an unknown id; the quiz row is gone and its questions and answers remain |
| QuizGormRepository.GormQuizRepository.GetAllQuizzesMetadata | internal/quiz/repository.go:234-249 | one (id, title) entry per stored quiz, each quiz once |
| QuizGormRepository.GormQuizRepository.MentionsAnswer | internal/quiz/repository.go:185-191 | the inner search loop finds the id exactly when some submitted answer carries it |
| QuizGormRepository.GormQuizRepository.MentionsQuestion | internal/quiz/repository.go:121-127 | the inner search loop finds the id exactly when some submitted question carries it |
| QuizSqlite.Stamped | internal/quiz/sqlite.go:97-99 | every answer of the list gets the inserted question's rowid and is otherwise unchanged |
| QuizSqlite.StampedRows | internal/quiz/sqlite.go:97-104 | the answer rows inserted for a question: one per answer, each under that question with the answer's text |
| QuizSqlite.RowsOf | internal/quiz/sqlite.go:101-104 | one answer row per answer, in order |
| QuizSqlite.InsertAnswersFacts | internal/quiz/sqlite.go:101-107 | inserting answers adds exactly one fresh rowid per answer after the old ones and leaves existing rows alone |
| QuizSqlite.InsertAnswersPlacement | internal/quiz/sqlite.go:101-107 | answer `j` of the list lands at rowid `next + j` |
| QuizSqlite.QuestionRowsAfterFacts | internal/quiz/sqlite.go:83-95 | question `i` of the list lands at rowid `next + i` under the quiz with its text; existing rows are unchanged and no other key appears |
| QuizSqlite.AnswerRowsAfterFacts | internal/quiz/sqlite.go:83-108 | all answers of all inserted questions get fresh consecutive rowids, each under one of the newly inserted questions |
| QuizSqlite.AnswerRowsAfterCount | internal/quiz/sqlite.go:83-108 | the answer counter advances by the total number of answers |
| QuizSqlite.AnswerRowsAfterPlacement | internal/quiz/sqlite.go:83-108 | the inserted answer rows are the stamped answers of the questions, in order, at consecutive rowids |
| QuizSqlite.InsertQuestionsCounters | internal/quiz/sqlite.go:83-108 | inserting the questions keeps the tables consistent, leaves the quiz table alone and advances the counters by the number of questions and answers |
| QuizSqlite.DeleteQuestionsOfFacts | internal/quiz/sqlite.go:138-144 | `DELETE FROM question WHERE quiz_id` removes exactly the quiz's questions and, by the cascade, exactly their answers |
| QuizSqlite.ReplaceQuestionsFacts | internal/quiz/sqlite.go:138-172 | deleting a quiz's questions and inserting the new list leaves exactly the new questions under the quiz, in order, with only new answers, and carries every other question and answer over |
| QuizSqlite.RowsAfterDropFacts | internal/quiz/sqlite.go:138-172 | after the drop and the inserts, the quiz's questions are exactly the new rowids with the new texts |
| QuizSqlite.ReplaceQuestionsQuestions | internal/quiz/sqlite.go:138-172 | the question table after the replacement, stated key by key |
| QuizSqlite.ReplaceQuestionsAnswers | internal/quiz/sqlite.go:138-172 | the answer table after the replacement: answers under the quiz are all new, others are carried over |
| QuizSqlite.UpsertReplacesAll | internal/quiz/sqlite.go:114-177 | the tables of a committed `Upsert`, which `RepositorySQLite.Upsert` reaches only when every question has an answer: the quiz row stored under its id, the quiz's questions and answers replaced by the submitted ones, nothing else touched |
| QuizSqlite.UpdateMissesItsQuiz | internal/quiz/sqlite.go:207-225 | when the connection's last inserted rowid is not the quiz's id, `Update` as written leaves the quiz's questions exactly as they were |
| QuizSqlite.UpdateCorrectedReplacesAll | internal/quiz/sqlite.go:179-251 | the tables of a committed corrected `Update`, reached only when every question has an answer: the quiz's own questions and answers replaced, nothing else touched |
| QuizSqlite.GroupStepShape | internal/quiz/sqlite.go:287-296 | one scanned row, compared by the key the scan filled in, keeps the question list free of adjacent repeats and leaves that key last; with the unfilled key 0 of the code as written every row has the same key (see `GroupedUnkeyed`) |
| QuizSqlite.GroupStepAnswers | internal/quiz/sqlite.go:296 | one scanned row appends its answer to the answers in order |
| QuizSqlite.GroupStepOwners | internal/quiz/sqlite.go:291-296 | the scanned row's answer is filed under the row's scanned key: the real question id on the corrected path, 0 as written |
| QuizSqlite.GroupedShape | internal/quiz/sqlite.go:275-300 | grouping by the scanned key: no questions exactly when there are no rows, no adjacent repeats, and the last row's key last; as written all keys are 0, so this is one question (see `GroupedUnkeyed`) |
| QuizSqlite.GroupedAnswers | internal/quiz/sqlite.go:275-300 | grouping loses and reorders no answer: the answers of the questions, in order, are the rows' answers |
| QuizSqlite.GroupedOwners | internal/quiz/sqlite.go:275-300 | on the corrected path, where the scan fills the question id, every answer ends under the question of the row it came from |
| QuizSqlite.ScanAllFacts | internal/quiz/sqlite.go:275-286 | scanning the rows succeeds exactly when no row is NULL, and then gives one scanned row per row, in order |
| QuizSqlite.GroupedUnkeyed | internal/quiz/sqlite.go:287-296 | when every scanned key is 0, as in the code as written, any non-empty row list groups into a single question with key 0, the first row's text and every row's answer in order |
| QuizSqlite.UnfilledKeyMergesQuestions | internal/quiz/sqlite.go:287-296 | a join with rows of two different questions: as written they merge into one question carrying all the answers, while the corrected scan keeps at least two questions |
| QuizSqlite.ReplacedQuestionsHaveAnswers | internal/quiz/sqlite.go:138-172 | after a replacement whose questions all have answers, every question of the quiz has an answer row, so the LEFT JOIN read back has no NULL row |
| QuizSqlite.StampedRowsCover | internal/quiz/sqlite.go:97-104 | a question with answers has at least one stamped answer row under its rowid |
| QuizSqlite.RepositorySQLite.constructor | internal/quiz/sqlite.go:18-54 | a fresh store: empty tables with consistent counters |
| QuizSqlite.RepositorySQLite.InsertAnswerRows | internal/quiz/sqlite.go:101-107 | the multi-row `NamedExec` fails exactly on an empty answer list ("length of array is 0"), changing nothing; otherwise the answer table is the specified one |
| QuizSqlite.RepositorySQLite.InsertQuestion | internal/quiz/sqlite.go:84-107 | the foreign-key error when no quiz row has the quiz id (the schema at sqlite.go:39 with foreign keys on); otherwise the empty-batch error exactly for a question without answers; on success the question and its answers give the specified tables |
| QuizSqlite.RepositorySQLite.InsertQuestionList | internal/quiz/sqlite.go:83-108 | the loop fails at its first failing statement: the foreign-key error when there is a question and no quiz row has the quiz id, otherwise the empty-batch error when some question has no answers; it succeeds exactly when neither happens and then gives the specified tables |
| QuizSqlite.RepositorySQLite.DeleteQuestionsOfQuiz | internal/quiz/sqlite.go:139-144 | the delete with its cascade gives the specified tables |
| QuizSqlite.RepositorySQLite.ReplaceQuestionsOf | internal/quiz/sqlite.go:138-172 | the foreign-key error when there is a new question and no quiz row has the target id, otherwise the empty-batch error when some new question has no answers; success exactly when neither happens, and then the delete followed by the inserts gives the replaced tables |
| QuizSqlite.RepositorySQLite.Insert | internal/quiz/sqlite.go:56-113 | a nil quiz is an error; a failed statement is an error with id 0; a question without answers is the empty-batch error with id 0; a failed commit returns the new id with the error; every failure leaves the tables unchanged; it succeeds exactly for a quiz whose questions all have answers and no failure, returning the new rowid and inserting the quiz, its questions and answers |
| QuizSqlite.RepositorySQLite.Upsert | internal/quiz/sqlite.go:114-177 | the same error cases, including the empty-batch error for a question without answers, returning the quiz's own id; success exactly when nothing fails and every question has an answer, giving the upserted tables |
| QuizSqlite.RepositorySQLite.Update | internal/quiz/sqlite.go:179-251 | as written: the same error cases; with questions to insert, the foreign-key error with id 0 when no quiz row has the connection's last inserted rowid, otherwise the empty-batch error for a question without answers; success exactly when nothing fails, returning that rowid and deleting and reinserting questions under it |
| QuizSqlite.RepositorySQLite.UpdateCorrected | internal/quiz/sqlite.go:179-251 | the same error cases, with the foreign-key error when there are questions and the quiz id has no row; success exactly when nothing fails, the quiz row exists or there are no questions, and every question has an answer, returning the quiz's id and giving the corrected tables |
| QuizSqlite.LastRowIdNamesNoQuiz | internal/quiz/sqlite.go:207-224 | on a fresh database, after inserting a quiz with one question of two answers, the last inserted rowid is 2 and no quiz has it, so an `Update` with questions that runs next fails on the foreign key |
| QuizSqlite.RepositorySQLite.ScanRows | internal/quiz/sqlite.go:274-300 | the scan loop: the scan error exactly when some row's answer columns are NULL; otherwise exactly the grouping of the scanned rows |
| QuizSqlite.RepositorySQLite.Get | internal/quiz/sqlite.go:253-303 | as written: no quiz and no error when the id is not stored; the scan error when a question has no answers (a NULL row); otherwise the stored row with the rows grouped under the unfilled key 0 |
| QuizSqlite.RepositorySQLite.GetCorrected | internal/quiz/sqlite.go:253-303 | `Get` with the scan filling the question id: the same missing-quiz and scan-error cases, otherwise the stored row with one question per question id |
| QuizSqlite.RepositorySQLite.Delete | internal/quiz/sqlite.go:305-309 | never an error; the quiz row is gone and the cascade removes its questions and their answers |
| QuizSqlite.RepositorySQLite.StampAnswers | internal/quiz/sqlite.go:161-163 | the stamping loop gives every answer the inserted question's rowid and changes nothing else |
| LobbiesTemplates.View | internal/lobbies/templates.go:72-84 | each declared state has its own view: the waiting room exactly for waiting-for-players, the question view exactly for a question, the answer view exactly for an answer |
| LobbiesTemplates.ViewInjective | internal/lobbies/templates.go:72-84 | two different declared states never show the same view |
| LobbiesTemplates.Decrement | internal/lobbies/templates.go:33-36 | `decrement(i)` is the integer one below `i` |
| LobbiesUser.Len | internal/lobbies/user.go:55 | `ByScore.Len` is the number of users |
| LobbiesUser.Less | internal/lobbies/user.go:56 | `ByScore.Less(i, j)` holds exactly when user i has the lower score |
| LobbiesUser.Swapped | internal/lobbies/user.go:57 | swapping exchanges the two entries and keeps every other |
| LobbiesUser.SwappedTwice | internal/lobbies/user.go:57 | swapping the same pair twice restores the list |
| LobbiesUser.SwappedPermutes | internal/lobbies/user.go:57 | swapping keeps the same users |
| LobbiesUser.Swap | internal/lobbies/user.go:57 | `ByScore.Swap` exchanges the two entries of the array in place |
| LobbiesUser.SortByScoreDescending | internal/lobbies/events.go:463 | sorting by the reversed order leaves the users highest score first and is a permutation |
| LobbiesUser.DescendingHasNoInversion | internal/lobbies/user.go:56 | after that sort `Less(i, j)` is false for every `i < j` |
| LobbiesModels.NewLobbyOptions | internal/lobbies/models.go:45-56 | the defaults: the example maths quiz, 5 s reading time, 30 s answer time and no pin |
| LobbiesModels.Lobby.constructor | internal/lobbies/models.go:58-64 | `createLobby`: the given pin, no host, no users, a fresh game with the given settings, not started, showing the waiting room |
| LobbiesModels.Lobby.View | internal/lobbies/models.go:29-43 | the waiting room before the game starts, the question view during a round, the final view once the game has ended, the answer view otherwise |
| LobbiesLobby.Cleared | internal/lobbies/lobby.go:118-122 | clearing a user sets the submitted index to -1 and the submission time to zero and keeps every other field |
| LobbiesLobby.ClearedForStep | internal/lobbies/lobby.go:117-123 | clearing one more user changes only that user's record |
| LobbiesLobby.NextQuestionFacts | internal/lobbies/lobby.go:113-152 | `startNextQuestion` clears the host's and every player's answer, advances the index by one, expects an answer from every player, stamps the start time and the timeout, and opens the next question, or shows the final results once the index reaches the number of questions; nothing else changes |
| LobbiesLobby.Scored | internal/lobbies/lobby.go:196-213 | no answer earns 0 new points and keeps the score; a wrong answer changes nothing; a right answer adds its new points to the score, 1000 within 500 ms |
| LobbiesLobby.ScoredForStep | internal/lobbies/lobby.go:196-214 | scoring one more player changes only that player's record |
| LobbiesLobby.AnswerShown | internal/lobbies/lobby.go:189-214 | `showAnswer` moves to the answer state and scores every player; users who are not players, the host included, keep their records; nothing else changes |
| LobbiesLobby.UnansweredEarnsNothing | internal/lobbies/lobby.go:197-201 | a player who did not answer earns 0 new points and keeps their score |
| LobbiesLobby.ShowAnswerAfterNextQuestion | internal/lobbies/lobby.go:113-214 | showing the answer straight after a question opens looks up no answer and gives every player 0 new points |
| LobbiesLobby.Lobby.constructor | internal/lobbies/lobby.go:39-50 | `createLobby`: no host, players or quiz, the given pin and time per question, waiting for players, index -1 |
| LobbiesLobby.Lobby.Zero | internal/lobbies/repository.go:64 | `&lobby{}`: every field at its zero value |
| LobbiesLobby.Lobby.StartNextQuestion | internal/lobbies/lobby.go:113-187 | the new state is the specified next-question state |
| LobbiesLobby.Lobby.ClearAnswers | internal/lobbies/lobby.go:117-123 | the host and every player are cleared, and nothing else changes |
| LobbiesLobby.Lobby.ClearUsers | internal/lobbies/lobby.go:117-123 | the reset loop over the players, in any order, gives the cleared table |
| LobbiesLobby.Lobby.ShowAnswer | internal/lobbies/lobby.go:189-232 | the new state is the specified answer state |
| LobbiesLobby.Lobby.ScoreUsers | internal/lobbies/lobby.go:196-214 | the scoring loop over the players, in any order, gives the scored table |
| LobbiesRepository.InMemoryLobbyRepository.constructor | internal/lobbies/repository.go:31-35 | an empty store |
| LobbiesRepository.InMemoryLobbyRepository.AddLobby | internal/lobbies/repository.go:37-46 | a taken pin gives "game already exists" and changes nothing; otherwise the lobby is stored under its pin |
| LobbiesRepository.InMemoryLobbyRepository.UpdateLobby | internal/lobbies/repository.go:48-57 | an unknown pin gives "lobby not found" and changes nothing; otherwise the lobby replaces the stored one and the pins are unchanged |
| LobbiesRepository.InMemoryLobbyRepository.GetLobby | internal/lobbies/repository.go:59-68 | the stored lobby, or "lobby not found" with a fresh zero lobby |
| LobbiesRepository.InMemoryLobbyRepository.DeleteLobby | internal/lobbies/repository.go:70-79 | an unknown pin gives "lobby not found"; afterwards the pin is absent |
| LobbiesRepository.InMemoryLobbyRepository.GetAllLobbies | internal/lobbies/repository.go:81-90 | every stored lobby exactly once |
| LobbiesEvents.ScanAnswerTrigger | internal/lobbies/events.go:37-41 | `Sscanf` with "answer-q%d-a%d": success only when the text starts with the literal prefix, with both numbers in the 64-bit range; every failure is the scan error |
| LobbiesEvents.ScanAnswerTriggerRender | internal/lobbies/events.go:37-41 | the trigger id of answer `a` of question `q`, followed by any text that does not start with a digit 0-9, scans back to `(q, a)` |
| LobbiesEvents.ScanAfterLiteral | internal/lobbies/events.go:38 | after a literal, a rendered number followed by a non-digit scans back to that number and the rest |
| LobbiesEvents.ScanAnswerTriggerSpaced | internal/lobbies/events.go:37-41 | with white space before either number, as `%d` skips it, the trigger id still scans back to `(q, a)` |
| LobbiesEvents.ScanAfterSpacedLiteral | internal/lobbies/events.go:38 | after a literal and white space, a rendered number followed by a non-digit scans back to that number and the rest |
| LobbiesEvents.ParseLobbyEvent | internal/lobbies/events.go:24-67 | a message that does not decode is an error; an event is produced only under its own trigger name; an unknown trigger name is the "unrecognized trigger name" error carrying the name |
| LobbiesEvents.ParseEncode | internal/lobbies/events.go:24-67 | every event the page sends, encoded as its trigger name, trigger id and username, parses back to itself |
| LobbiesEvents.Fresh | internal/lobbies/events.go:72-75 | a newly connected user has only its client id: no username, index 0, no submission time, no score |
| LobbiesEvents.AnsweringNeverNegative | internal/lobbies/events.go:409 | in a lobby keeping the handlers' invariant the count of players still to answer is never negative while a question is open |
| LobbiesEvents.AnsweringZeroIffAllAnswered | internal/lobbies/events.go:409-415 | that count is zero exactly when every player has answered, so the timer is cancelled exactly when the last player answers |
| LobbiesEvents.HostPlayerKeepsQuestionOpen | internal/lobbies/events.go:379-382 | a host who also took a username is counted as a player but can never answer, so the count stays at least 1 and the question waits for the timer |
| LobbiesEvents.ValidMeetsHandlerNeeds | internal/lobbies/events.go:229-444 | the invariant gives every handler what it dereferences: a host, an index of at least -1, a declared state, players with records, a running timer and answerable indices while a question is open |
| LobbiesEvents.Connect | internal/lobbies/events.go:71-115 | the first client becomes the host; the host and players reconnect to their own record and see the state's view; anyone else gets a fresh record and the username form; no other record changes |
| LobbiesEvents.ConnectKeepsValid | internal/lobbies/events.go:71-115 | connecting keeps the invariant |
| LobbiesEvents.ConnectFirstKeepsValid | internal/lobbies/events.go:82-84 | the first client's record keeps the invariant |
| LobbiesEvents.ConnectNewcomerKeepsValid | internal/lobbies/events.go:101-103 | a newcomer's fresh record, neither host nor player, keeps the invariant |
| LobbiesEvents.SubmitUsername | internal/lobbies/events.go:126-192 | an empty name, a started game and a name another player uses are errors that change nothing; keeping one's own name changes nothing; otherwise the initiator takes the name and becomes a player, and nothing else changes |
| LobbiesEvents.SubmitUsernameKeepsValid | internal/lobbies/events.go:152-174 | players' usernames stay distinct, and the rest of the invariant holds |
| LobbiesEvents.UsernameChangeError | internal/lobbies/events.go:201-218 | a username change is refused exactly when the game has left the waiting room |
| LobbiesEvents.Cleared | internal/lobbies/events.go:294-299 | clearing sets the submitted index to -1 and the submission time to zero and keeps every other field |
| LobbiesEvents.ClearedForStep | internal/lobbies/events.go:294-299 | clearing one more user changes only that user's record |
| LobbiesEvents.NextQuestionFacts | internal/lobbies/events.go:288-310 | the next question opens: index up by one, that question current, the question state with the timer armed, the timeout one answer time later, every player expected to answer, the host and players cleared and nobody else touched |
| LobbiesEvents.NextQuestionKeepsValid | internal/lobbies/events.go:288-310 | moving on, or ignoring the request after the last question, keeps the invariant |
| LobbiesEvents.StartGame | internal/lobbies/events.go:227-267 | refused for anyone but the host, with no players, once started, or for a quiz with no questions, changing nothing; otherwise the start time is stamped and question 0 opens |
| LobbiesEvents.StartGameKeepsValid | internal/lobbies/events.go:227-267 | starting keeps the invariant |
| LobbiesEvents.SubmitAnswer | internal/lobbies/events.go:365-415 | an answer index outside the question is an error; the answer is recorded, with its time, only for the current question, from a non-host, while the question is open, and once; then one fewer player is awaited, and the question closes exactly when that was the last one |
| LobbiesEvents.AnswersOnlyChanged | internal/lobbies/events.go:396-398 | recording an answer keeps the links, distinct names and ranking |
| LobbiesEvents.RecordedAnswerTracked | internal/lobbies/events.go:396-409 | recording a player's first answer and lowering the count keeps the count equal to the players still to answer |
| LobbiesEvents.SubmitAnswerKeepsValid | internal/lobbies/events.go:365-426 | submitting keeps the invariant |
| LobbiesEvents.Scored | internal/lobbies/events.go:438-456 | no answer earns 0 new points and keeps the score; a wrong answer changes nothing; a right answer adds its new points to the score, 1000 within 500 ms |
| LobbiesEvents.ScoredForStep | internal/lobbies/events.go:438-456 | scoring one more player changes only that player's record |
| LobbiesEvents.AnswerScored | internal/lobbies/events.go:434-456 | showing the answer moves to the answer state and scores every player; users who are not players keep their records |
| LobbiesEvents.ShowAnswerKeepsValid | internal/lobbies/events.go:434-463 | scoring, ranking the players and stopping the timer keep the invariant |
| LobbiesEvents.ScoresOf | internal/lobbies/events.go:495-501 | one (username, score) entry per leaderboard entry, in leaderboard order |
| LobbiesEvents.RecordedScoresRanked | internal/lobbies/events.go:495-501 | in a lobby keeping the invariant the saved scores are highest first and name each player once |
| LobbiesEvents.Lobby.constructor | internal/lobbies/models.go:58-64 | a lobby waiting for players, with no host, players, question or timer, that keeps the invariant |
| LobbiesEvents.Lobby.HandleNewWebsocketConn | internal/lobbies/events.go:71-115 | the lobby becomes the connected lobby and the view sent is the one chosen |
| LobbiesEvents.Lobby.HandleNewUsername | internal/lobbies/events.go:126-192 | the lobby and the error are those of the username step |
| LobbiesEvents.Lobby.HandleUsernameChangeRequest | internal/lobbies/events.go:201-218 | the error is the username-change error and nothing changes |
| LobbiesEvents.Lobby.HandleNextQuestion | internal/lobbies/events.go:288-353 | the lobby becomes the next-question state, or stays as it was after the last question |
| LobbiesEvents.Lobby.ClearAnswers | internal/lobbies/events.go:294-299 | the host and every player are cleared and nothing else changes |
| LobbiesEvents.Lobby.OpenQuestion | internal/lobbies/events.go:301-303 | the question state with the index advanced and the next question current |
| LobbiesEvents.Lobby.StartClock | internal/lobbies/events.go:304-306 | the start time, the answer timeout and the reading timeout are stamped from `now` |
| LobbiesEvents.Lobby.AwaitAnswers | internal/lobbies/events.go:307-310 | every player is awaited and the question timer is armed |
| LobbiesEvents.Lobby.ClearUsers | internal/lobbies/events.go:294-299 | the reset loop over the players, in any order, gives the cleared table |
| LobbiesEvents.Lobby.HandleGameStart | internal/lobbies/events.go:227-267 | the lobby and the error are those of the start step |
| LobbiesEvents.Lobby.HandleAnswerSubmitted | internal/lobbies/events.go:365-426 | the lobby and error of the answer step; when it was the last awaited answer, the question is closed at once, scored and ranked, with the timer cancelled |
| LobbiesEvents.Lobby.HandleSkipToAnswer | internal/lobbies/events.go:276-279 | `Cancel` in any timer state: a running timer closes the question (scored, ranked, timer cancelled); no timer or a cancelled one panics and a fired one blocks, the lobby as it was |
| LobbiesEvents.Lobby.QuestionTimeout | internal/lobbies/events.go:311-322 | the timer running out closes the question the same way, timer fired |
| LobbiesEvents.Lobby.CloseQuestion | internal/lobbies/events.go:434-463 | every player scored, the answer state, and a leaderboard of the players, each once, highest score first |
| LobbiesEvents.CancelOutcomeOf | internal/lobbies/timer.go:17-27 | `Cancel` closes the question exactly on a running timer, blocks exactly on a fired one and panics otherwise |
| LobbiesEvents.SkipClosesOnlyOpenQuestion | internal/lobbies/events.go:276-279 | in a lobby keeping the invariant, a skip closes the question exactly while one is open and panics or blocks in every other state |
| LobbiesEvents.Lobby.ScoreUsers | internal/lobbies/events.go:438-456 | the scoring loop over the players, in any order, gives the scored table |
| LobbiesEvents.Lobby.RankPlayers | internal/lobbies/events.go:459-463 | the players collected and sorted by score, highest first: each player exactly once |
| LobbiesEvents.Service.constructor | internal/lobbies/events.go:489-512 | the service holds the lobby store and no past games |
| LobbiesEvents.Service.HandleEndGame | internal/lobbies/events.go:489-512 | the finish time is stamped and the lobby removed from the store; a lobby missing from the store is an error and saves nothing; a failed save is an error; otherwise one past game is saved with the quiz title and the leaderboard's names and scores in order |
| LobbiesEvents.Service.CollectScores | internal/lobbies/events.go:495-501 | the loop builds exactly the leaderboard's (username, score) list |
| LobbyTemplates.ViewName | internal/lobby/templates.go:58-71 | each of the four declared lobby states has its own view: waiting room, question, answer, final results |
| LobbyTemplates.ViewNameInjective | internal/lobby/templates.go:58-71 | two different declared states never share a view |
| LobbyLobby.Cleared | internal/lobby/lobby.go:117-123 | a cleared user has no submitted answer (-1) and the zero submission time, and every other field is kept |
| LobbyLobby.ClearedForStep | internal/lobby/lobby.go:117-123 | clearing one more user (the host, when there is one) changes only that user's record |
| LobbyLobby.NextQuestionFacts | internal/lobby/lobby.go:113-169 | the index goes up by one, every player is awaited, the host and players are cleared and nobody else is touched; past the last question the state becomes final results with the question kept, otherwise the question state with the next question current and the timer armed |
| LobbyLobby.ScoredAnswer | internal/lobby/lobby.go:197-207 | only the score and new points change; a wrong answer changes nothing; a right answer adds its new points to the score, 1000 within 500 ms |
| LobbyLobby.Scored | internal/lobbies/lobby.go:197-213 | the guarded scoring: a player with no answer earns 0 new points and keeps the score; a player who answered is scored as above |
| LobbyLobby.AnswersScoredForStep | internal/lobby/lobby.go:196-209 | scoring one more player, as written, changes only that player's record |
| LobbyLobby.ScoredForStep | internal/lobby/lobby.go:196-209 | scoring one more player, with the guard, changes only that player's record |
| LobbyLobby.AnswerShownAsWritten | internal/lobby/lobby.go:189-209 | defined only when every player answered: the answer state, each player scored, users who are not players and every other field kept |
| LobbyLobby.AnswerShown | internal/lobby/lobby.go:189-209 | the corrected answer step: the same, with unanswered players earning nothing instead of indexing answer -1 |
| LobbyLobby.AnswerShownAgrees | internal/lobby/lobby.go:189-209 | when every player answered, the corrected step and the step as written give the same lobby |
| LobbyLobby.ShowAnswerRefusedAfterNextQuestion | internal/lobby/lobby.go:117-123 | right after a new question opens, a lobby with a player is never in the state the written scoring loop needs: the timer firing before anyone answers would index answer -1 |
| LobbyLobby.UnansweredEarnsNothing | internal/lobby/lobby.go:196-207 | under the corrected step a player with no answer earns 0 new points and keeps the score |
| LobbyLobby.ShowAnswerAfterNextQuestion | internal/lobby/lobby.go:155-169 | a timer firing before any answer, under the corrected step, leaves every player's score as it was before the question |
| LobbyLobby.Lobby.constructor | internal/lobby/lobby.go:100-111 | a lobby waiting for players with the given pin and answer time, the creation time, no host, players or quiz, question index -1 and no timer |
| LobbyLobby.Lobby.Zero | internal/lobby/lobby.go:17-32 | the zero value of the lobby struct |
| LobbyLobby.Lobby.StartNextQuestion | internal/lobby/lobby.go:113-169 | the lobby becomes the next-question state |
| LobbyLobby.Lobby.ClearAnswers | internal/lobby/lobby.go:117-123 | the host and every player are cleared and nothing else changes |
| LobbyLobby.Lobby.Advance | internal/lobby/lobby.go:125-127 | index up by one, the question state, the start time stamped |
| LobbyLobby.Lobby.ExpectAnswers | internal/lobby/lobby.go:128-129 | the timeout one answer time after `now` and every player awaited |
| LobbyLobby.Lobby.OpenQuestion | internal/lobby/lobby.go:152-155 | the question at the index becomes current and the timer is armed |
| LobbyLobby.Lobby.ClearUsers | internal/lobby/lobby.go:117-123 | the reset loop, in any order, gives the cleared table |
| LobbyLobby.Lobby.ShowAnswer | internal/lobby/lobby.go:189-209 | the lobby becomes the answer step as written, which needs every player to have answered |
| LobbyLobby.Lobby.ScoreAnswers | internal/lobby/lobby.go:196-209 | the scoring loop as written, in any order, gives the scored table |
| LobbyLobby.Lobby.ShowAnswerCorrected | internal/lobbies/lobby.go:189-213 | the lobby becomes the corrected answer step |
| LobbyLobby.Lobby.ScoreUsers | internal/lobbies/lobby.go:196-213 | the guarded scoring loop, in any order, gives the scored table |
| LobbyRepository.InMemoryLobbyRepository.constructor | internal/lobby/repository.go:31-35 | an empty store |
| LobbyRepository.InMemoryLobbyRepository.AddLobby | internal/lobby/repository.go:37-46 | a pin already stored is refused with the store unchanged; otherwise the lobby is stored under its pin |
| LobbyRepository.InMemoryLobbyRepository.UpdateLobby | internal/lobby/repository.go:48-57 | a pin not stored is refused with the store unchanged; otherwise the lobby replaces the one under its pin and no pin is added |
| LobbyRepository.InMemoryLobbyRepository.GetLobby | internal/lobby/repository.go:59-68 | found exactly when the pin is stored, and then it is the stored lobby; otherwise the not-found error and a new zero lobby |
| LobbyRepository.InMemoryLobbyRepository.DeleteLobby | internal/lobby/repository.go:70-79 | a pin not stored is the not-found error; the pin is gone afterwards either way |
| LobbyRepository.InMemoryLobbyRepository.GetAllLobbies | internal/lobby/repository.go:81-90 | every stored lobby exactly once, in some order of its pins |
| LobbyEvents.ParseLobbyEvent | internal/lobby/events.go:27-73 | a message that does not decode is an error; an event is produced only under its own trigger name; an unknown trigger name is an error carrying the name |
| LobbyEvents.ParseEncode | internal/lobby/events.go:27-73 | every event the page sends parses back to itself |
| LobbyEvents.Fresh | internal/lobby/events.go:81-84 | a newly connected user has only its client id |
| LobbyEvents.CreatedValid | internal/lobby/lobby.go:100-111 | a created lobby keeps the handlers' invariant |
| LobbyEvents.AnsweringZeroIffAllAnswered | internal/lobby/events.go:364-370 | while a question is open the count of players still to answer is never negative, and zero exactly when every player has answered |
| LobbyEvents.HostPlayerKeepsQuestionOpen | internal/lobby/events.go:335-339 | a host who is also a player can never answer, so the question waits for the timer |
| LobbyEvents.Connect | internal/lobby/events.go:75-125 | the first client becomes the host; the host and players reconnect and see the state's view; anyone else gets the username form; no other record changes |
| LobbyEvents.ConnectKeepsValid | internal/lobby/events.go:75-125 | connecting keeps the invariant |
| LobbyEvents.FreshRecordKeepsValid | internal/lobby/events.go:81-84 | a newcomer's fresh record keeps the invariant |
| LobbyEvents.SubmitUsername | internal/lobby/events.go:135-209 | an empty name, a started game and a name another player uses are errors that change nothing; keeping one's own name changes nothing; otherwise the initiator takes the name and becomes a player |
| LobbyEvents.SubmitUsernameKeepsValid | internal/lobby/events.go:135-209 | players' usernames stay distinct, and the rest of the invariant holds |
| LobbyEvents.UsernameChangeError | internal/lobby/events.go:217-234 | a username change is refused exactly when the game has left the waiting room |
| LobbyEvents.NextQuestionKeepsValid | internal/lobby/events.go:301-306 | moving to the next question keeps the invariant |
| LobbyEvents.StartGame | internal/lobby/events.go:242-282 | refused for anyone but the host, with no players, once started, or for a quiz with no questions, changing nothing; otherwise the first question opens |
| LobbyEvents.StartGameOpensFirstQuestion | internal/lobby/events.go:277-279 | starting opens question 0 with every player awaited and the timer armed, and keeps the invariant |
| LobbyEvents.SubmitAnswer | internal/lobby/events.go:317-381 | an answer index outside the question is an error; the answer is recorded only for the current question, from a non-host, while the question is open, and once; then one fewer player is awaited |
| LobbyEvents.AnswersOnlyChanged | internal/lobby/events.go:354-355 | recording an answer keeps the links, the host flag and distinct names |
| LobbyEvents.RecordedAnswerTracked | internal/lobby/events.go:354-364 | recording a player's first answer and lowering the count keeps the count equal to the players still to answer |
| LobbyEvents.SubmitAnswerKeepsValid | internal/lobby/events.go:317-381 | submitting keeps the invariant |
| LobbyEvents.LastAnswerClosesQuestion | internal/lobby/events.go:364-370 | the question is closed by an answer exactly when every player has answered |
| LobbyEvents.CloseKeepsValid | internal/lobby/lobby.go:189-209 | closing the question keeps the invariant |
| LobbyEvents.HandleNewWebsocketConn | internal/lobby/events.go:75-125 | the lobby becomes the connected lobby and the view sent is the one chosen |
| LobbyEvents.HandleSubmittedUsername | internal/lobby/events.go:135-209 | the lobby and the error are those of the username step |
| LobbyEvents.HandleChangeUsername | internal/lobby/events.go:217-234 | the error is the username-change error |
| LobbyEvents.HandleGameStart | internal/lobby/events.go:242-282 | the lobby and the error are those of the start step |
| LobbyEvents.HandleNextQuestion | internal/lobby/events.go:301-306 | the lobby becomes the next-question state |
| LobbyEvents.CloseQuestion | internal/lobby/lobby.go:155-169 | the timer goroutine's close: the corrected answer step and the timer's end state |
| LobbyEvents.HandleSkipToAnswer | internal/lobby/events.go:290-293 | `Cancel` in any timer state: a running timer closes the question through the corrected answer step (see Findings, internal/lobby/lobby.go:196-197), timer cancelled; no timer or a cancelled one panics and a fired one blocks, the lobby as it was |
| LobbyEvents.QuestionTimeout | internal/lobby/lobby.go:158-162 | the timer running out closes the question through the corrected answer step (see Findings, internal/lobby/lobby.go:196-197), timer fired |
| LobbyLobby.CancelOutcomeOf | internal/lobby/timer.go:17-27 | `Cancel` closes the question exactly on a running timer, blocks exactly on a fired one and panics otherwise |
| LobbyEvents.HandleAnswerSubmitted | internal/lobby/events.go:317-381 | the lobby and error of the answer step; when it was the last awaited answer, the question is closed at once with the timer cancelled |
| CommonGame.Top | internal/common/game.go:24-27 | the first three entries, or all of them when there are fewer |
| CommonGame.GetLeaderboard | internal/common/game.go:10-28 | at most three entries, taken from the points map with their own points, each username once, highest first, and nobody left out scores more than the last one shown |
| CommonGame.CollectPlayers | internal/common/game.go:13-18 | the loop collects one entry per username with its points |
| CommonGame.SortByScore | internal/common/game.go:20 | a permutation of its input, sorted highest score first |
| CommonGame.CollectedDistinct | internal/common/game.go:13-18 | the collected entries are pairwise distinct |
| CommonGame.LeaderboardOfSorted | internal/common/game.go:13-20 | sorting the collected entries gives an ordered list of every username with its points |
| CommonGame.SortedLeaderboard | internal/common/game.go:13-20 | that sorted list names each username once |
| CommonGame.TopKeepsOrder | internal/common/game.go:20-27 | cutting the sorted list keeps it ordered and distinct, and keeps the highest scores |
| Config.Environment.constructor | internal/config/config.go:26-60 | the process environment holds the given variables |
| Config.Environment.Getenv | internal/config/config.go:27 | a set variable's value, and the empty string for an unset one |
| Config.Environment.Setenv | internal/env/env.go:22 | a key that is empty or holds '=' or a NUL, or a value with a NUL, is refused and changes nothing; otherwise the variable is set |
| Config.Set | internal/env/env.go:22 | the accepted key gets the value; every other variable is kept |
| Config.LoadConfigFromEnv | internal/config/config.go:26-60 | production mode exactly when PROD is "true" or "1", development mode otherwise |
| Config.UnsetMeansDevelopment | internal/config/config.go:26-60 | with PROD unset the configuration is development mode |
| Config.SplitAtEquals | internal/env/env.go:18-19 | a line without '=' is skipped; otherwise it splits at its first '=' into a key without '=' and the rest |
| Config.SplitJoined | internal/env/env.go:18 | a key without '=' joined to any value by '=' splits back to that key and value |
| Config.AppliedValue | internal/env/env.go:16-24 | after loading, a variable assigned in the file holds its last assignment; a variable never assigned is as before |
| Config.LineWithoutEqualsIgnored | internal/env/env.go:19 | a line without '=' has no effect wherever it appears |
| Config.LastAssignmentSkips | internal/env/env.go:19 | a line without '=' does not change any variable's last assignment |
| Config.SameAssignmentsSameResult | internal/env/env.go:16-24 | two files with the same last assignments give the same environment |
| Config.LoadEnv | internal/config/config.go:63-79 | a file that does not open is an error and changes nothing; otherwise the environment becomes the file applied to it |
| EnvFile.Load | internal/env/env.go:10-26 | a file that does not open is an error and changes nothing; otherwise the environment becomes the file applied to it |
| EnvFile.LoadIdempotent | internal/env/env.go:10-26 | loading the same file twice gives the same environment as loading it once |
| Decimal.Atoi | internal/quiz/routes.go:125 | `strconv.Atoi`: success exactly when the number token (optional sign and digit run, with no white space skipped) fills the whole text, with a value in the 64-bit range |
| Decimal.AtoiRender | internal/quiz/routes.go:125 | every id the server renders, up to the 64-bit maximum, converts back to itself |
| Decimal.ScanInt | internal/lobbies/events.go:38 | the `%d` verb: leading white space skipped; the unexpected-EOF error exactly when nothing, or only a lone sign, is left, and the unexpected-newline error on a newline; otherwise a value in the 64-bit range and the rest of the text, shorter and not starting with a digit |
| Decimal.LoneSignIsEof | internal/lobbies/events.go:38 | `%d` on "-", "+" or " -" is the unexpected-EOF error, on "-x" a syntax error, and `Atoi` on "-" a syntax error |
| Decimal.ScanRender | internal/lobbies/events.go:38 | a rendered number followed by text that does not start with a digit (an underscore included, since `%d` reads only the digits 0-9) scans back to that number and the rest |
| Decimal.ScanToken | internal/lobbies/events.go:38 | the token `%d` reads after the white space: a value in the 64-bit range and a shorter rest not starting with a digit, or a syntax or range error |
| Decimal.ScanTokenRender | internal/lobbies/events.go:38 | a rendered number followed by a non-digit reads back as that number and the rest |
| Decimal.SpaceRun | internal/lobbies/events.go:38 | the white space `%d` skips: the longest prefix of Go's space runes |
| Decimal.ScanIntSkipsSpace | internal/lobbies/events.go:38 | any run of space runes before the number leaves the scan's result unchanged |
| Decimal.SpaceRunAfterSpace | internal/lobbies/events.go:38 | the skipped run grows by exactly the space runes put in front |
| Decimal.UnderscoreEndsNumber | internal/lobbies/events.go:38 | `%d` on "1_" reads 1 and leaves "_": the underscore is not a digit of the verb |
| GoTime.Sub | internal/lobbies/events.go:447 | `Time.Sub`: the difference of the two instants when it fits a 64-bit duration, and the nearer bound otherwise; the zero time counts as year 1 |

## Left out

- HTTP routing and handlers are not modelled. Only `parseQuizForm` and `parseQuestions` are taken from `internal/quiz/routes.go`, and they read an abstract request: field name to values, plus the fields that carry a file.
- Image uploads (`io.Copy` in `internal/quiz/routes.go:193-211`) are I/O. A file answer is the case "a file is present"; the copy and its errors are not modelled.
- Field names are a structured datatype. Rendering an index as decimal text inside a name is not modelled; the two sides agree on the structure.
- Websocket writes and template rendering are not modelled. A handler's result names the view it would send. Write errors, which end some handlers early, are not modelled.
- Goroutines, timers and channels are not modelled, and neither are the mutexes. Each operation is atomic. A question timer is a state (`Armed`, `Cancelled`, `Fired`), and its goroutine is the `CloseQuestion`/`QuestionTimeout` step.
- Wall-clock time is not read. `time.Now()` becomes a parameter in integer nanoseconds, and the zero `time.Time` is `None`.
- Cryptographic randomness (`NewClientID`, `RandomHexString`) is not modelled. A client id is a parameter.
- SQL statements, gorm and transactions are foreign libraries. Stores are tables as maps and sequences. A failed commit, the empty multi-row insert (sqlx's "length of array is 0"), a question inserted under a quiz id with no quiz row (the foreign key) and a NULL column in the scan are modelled; other statement failures are collapsed into one error value. The failure of the join query itself in `Get` is not modelled.
- The sqlite store is one database connection. `PRAGMA foreign_keys = ON` (kwikquiz.go) and `LastInsertId` both hold per connection, and database/sql pools connections, so the always-on cascade and foreign-key check and the single last inserted rowid assume every statement runs on one connection.
- SQLite assigns a new rowid as the largest rowid plus one. Here new ids come from counters above every id in use.
- The joined rows that the sqlite `Get` scans are a parameter, NULL answer columns included. The `SELECT ... JOIN` that produces them is not modelled. How sqlx matches the duplicate column names of `question.*, answer.*` to the embedded structs is not modelled: the question's columns go to the question and the answer's to the answer.
- `createTables` is not modelled. The sqlite `GetAll` and `GetAllQuizzesMetadata` are single queries with no logic of their own, and are not modelled.
- The gorm `AddQuiz` and `GetAllQuizzes` are single `Create`/`Find` calls with no logic of their own, and are not modelled.
- Panics become preconditions: a nil host, a nil current question, and an index past the last question.
- Entry points, data-only files, `lobbies/service.go`, `internal/common/config.go` and the test files are not modelled.
- `QuizModels.Title`, `QuizModels.Text` and `QuizModels.QuestionsCount` are field projections. They carry no contract.
- `internal/game/game.go` calls `start`, `Results` and `submitAnswer` on a round. `internal/game/round.go` declares none of these, so the calls are modelled as its exported `Start`, `GetResults` and `SubmitAnswer`.
- `sort.Sort`, `sort.Slice` and `slices.SortFunc` are modelled as a selection sort. Every result is a permutation of the input, sorted by the same order, but Go's order among equal scores is not modelled.
- GameRound.Round.GetResults: the slow-answer points, a floating-point formula, are not constrained. Only the 0 and 1000 branches are stated.
- LobbyLobby.ScoredAnswer: the slow-answer points, a floating-point formula, are not constrained. Only the 0 and 1000 branches are stated.
- LobbiesEvents.Scored: the slow-answer points, a floating-point formula, are not constrained. Only the 0 and 1000 branches are stated.
- LobbiesLobby.Scored: the slow-answer points, a floating-point formula, are not constrained. Only the 0 and 1000 branches are stated.
- QuizUpdateScript.QuestionHTML: the stored text is cut at its first `"` and its line breaks are removed, but character references in it (`&amp;` and the like) are not decoded, and what follows the `"` (read by the browser as further attributes) is not modelled.
- QuizUpdateScript.AnswerHTML: the same for an answer's text or LaTeX: the cut at the first `"` is modelled, character references are not decoded.
- QuizUpdateScript.HydratedPageReadsStoredQuestions: states the texts as the page loads them; it does not cover texts whose character references decode to something else.
- QuizUpdateScript.QuizUpdatePage.Hydrate: the same gap as `QuestionHTML` for the question texts it loads.
- QuizUpdateScript.HydratedSubmittable: `Submittable` covers the fields the script writes. Whether the template's own title, password and description fields are required is not modelled, and neither is what the user types into a field.
- LobbiesEvents.SubmitUsername: assumes one connection per client id. The source gives every newcomer connection its own `*User` (internal/lobbies/events.go:71-74) and renames that connection's record (internal/lobbies/events.go:165-173). The model keeps one user record per client id. So when two newcomer tabs of one client both submit a name, the model renames the stored player, where the source renames only the second tab's own record. `LobbiesEvents.Connect` makes the same assumption.
- LobbyEvents.SubmitUsername: the same assumption of one connection per client id. The source creates a `*User` per connection (internal/lobby/events.go:81) and renames the initiator's own record (internal/lobby/events.go:177-185). `LobbyEvents.Connect` makes the same assumption.
- LobbiesEvents.Lobby.HandleNextQuestion: a next question requested while a question is open is allowed; the model re-arms the timer, but the earlier timer's goroutine still waits on the old timer and later closes the new question early. That stale goroutine is not modelled.
- LobbyEvents.HandleNextQuestion: the same stale goroutine of the earlier timer is not modelled.
- LobbiesEvents.Lobby.HandleSkipToAnswer: a panic or a block ends the model's run with the lobby as it was; what the server does after a panic, and the lock held for ever by a block, are not modelled.
- LobbyEvents.HandleSkipToAnswer: the same as `LobbiesEvents.Lobby.HandleSkipToAnswer`.
- GameGame.Game.RoundNum: does not promise a value of at least -1. `StartRound` stores any index the quiz accepts, and a `GameQuiz` that accepted a negative index would make the round number negative; the repository's own quizzes refuse negative indices (`QuizModels.GameQuizQuestions`).

## Findings

| source | as written | input that shows it | evidently intended | confidence | as-written member | corrected member |
|---|---|---|---|---|---|---|
| internal/quiz/sqlite.go:207-216 | `Update` takes `LastInsertId()` of its `UPDATE` statement as the quiz's id. It deletes and reinserts questions under that id. | Insert quiz 1, then insert quiz 2 with no questions, then `Update` quiz 1 with new questions on the same connection. The id used is 2, the last inserted rowid, so quiz 1 keeps its old questions and the new ones are filed under quiz 2. | Replace the questions of `quiz.ID` and return that id. | not executed | `QuizSqlite.UpdateMissesItsQuiz`, `QuizSqlite.RepositorySQLite.Update` | `QuizSqlite.RepositorySQLite.UpdateCorrected`, `QuizSqlite.UpdateCorrectedReplacesAll` |
| internal/lobby/lobby.go:196-197 | `ShowAnswer` indexes `CurrentQuestion.Answers[player.SubmittedAnswerIdx]` for every player. | A player who has not answered when the question timer fires. `StartNextQuestion` has set the index to -1, and indexing at -1 panics. | Skip players who did not answer, as `internal/lobbies/lobby.go:196-200` does. | not executed | `LobbyLobby.Lobby.ShowAnswer`, `LobbyLobby.ShowAnswerRefusedAfterNextQuestion` | `LobbyLobby.Lobby.ShowAnswerCorrected`, `LobbyLobby.ShowAnswerAfterNextQuestion` |
| internal/quiz/sqlite.go:291 | The grouping compares the unexported `Question.id`, which the struct scan never fills (internal/quiz/models.go:35), so every row's key is 0. | A quiz with question A (answers a1, a2) and question B (answer b1). `Get` returns one question with key 0 and A's text, holding a1, a2 and b1. | One question per `question_id`, each with its own answers. | not executed | `QuizSqlite.RepositorySQLite.Get`, `QuizSqlite.UnfilledKeyMergesQuestions` | `QuizSqlite.RepositorySQLite.GetCorrected`, `QuizSqlite.GroupedOwners` |
