# Wordle web game: evaluator and game sessions in Dafny

This project models the core of a Wordle web game. The game has a React client and a Go server.

- **The guess evaluator.** It exists twice. The client's `evaluateGuessLocal` works on target indices. The server's `ValidateGuess` works on a map of letter counts. Each marks every letter `correct`, `incorrect-position` or `incorrect` under the duplicate-letter rule: a target letter is credited at most once.
- **The game sessions around it.** A classic game lives in the client (`createClassicGame`, `makeGuess`). A speed game lives in the server: `CreateGameState`, `DetermineGameStatus`, `UpdateGameState`, `TimeoutGameState` and `LeaveGameState` on the `game_states` table, sequenced by the `POST /gamestates`, `PUT /gamestates`, `PUT /gamestates/:id/timeout` and `PUT /gamestates/:id` handlers.
- **Word-list checks and ids.** `isWordInList` and `IsWordInList` check a word against three word lists chosen by length. `GetNextID` takes the largest id plus one.

Both evaluators are proved equal to one declarative rule, `Evaluation.Annotate`. Position i is `Correct` when the guess and target letters there agree. Otherwise, let c be the guess letter at i. The letter c has a number of spare target occurrences: its count in the target minus its exact matches. Position i is `IncorrectPosition` when fewer than that many earlier non-exact positions also hold c; otherwise it is `Incorrect`. The two implementations then agree on upper-case words of equal length (`Agreement.EvaluatorsAgree`). Letter conservation is proved once, for the rule (`Evaluation.Conservation`).

Modules, one per source file, plus shared ones:

| file | module | models |
|---|---|---|
| wrappers.dfy | `Wrappers` | `Option` and `Result` |
| types.dfy | `Types` | letter statuses, `LetterResult`, `GuessResult`, game status and mode |
| text.dfy | `Text` | ASCII `ToUpper` / `toUpperCase` and `TrimSpace` |
| evaluation.dfy | `Evaluation` | the duplicate-letter rule both evaluators follow |
| dictionary.dfy | `Dictionary` | the three word lists as sets |
| game_logic.dfy | `GameLogic` | frontend/src/helpers/gameLogic.ts |
| helpers.dfy | `Helpers` | backend/helpers/helpers.go |
| gamestate.dfy | `Models` | backend/models/gamestate.go; the table is the class `GameStore` |
| routes.dfy | `Routes` | backend/routes/gamestates.go |
| game_context.dfy | `Context` | frontend/src/contexts/GameContext.tsx; the state cells are the class `GameContext` |
| agreement.dfy | `Agreement` | how far the client and the server agree |

Some inputs are parameters. These are the target word of a new game, the current time (an integer), the word lists, and the server's decoded answer to a speed-mode guess.

The model follows the code where standard Wordle behaves otherwise:

- Standard Wordle refuses a guess once a game is over. The code accepts it, on both sides. On the server a won game can then become lost (`Routes.PlayStatus`). On the client a won game can go back to playing (`Context.ClassicPlayStatus`).
- Standard Wordle accepts only guesses of the game's word size. The server never checks this; it only looks the word up in the list for the word's own length (`Routes.PlayGameStateHandler`).
- In standard Wordle a guess wins exactly when every letter is correct. The server compares the submitted word with the target case-sensitively, while its evaluator upper-cases both (`Routes.CaseMismatchNotCorrect`).
- The server checks the trimmed guess against the word list but evaluates and compares the guess as sent. A listed word with white space around it is accepted and can never be correct (`Routes.UntrimmedGuessNotCorrect`).
- A timeout would be expected to leave a finished game alone. The server times out or abandons a game whatever its status.
- The client measures a guess by the target's length. A longer guess that starts with the target is judged all correct (`GameLogic.LongerGuessWithTargetPrefixAllCorrect`).

## Model

| member | source | states |
|---|---|---|
| Text.TrimSpace | backend/helpers/helpers.go:31 | the result is the input with exactly its leading and trailing white space removed: the slice after the leading run, followed in the input only by white space, with no white space at either end; a trimmed word is left as it is |
| Text.Upper | backend/models/gamestate.go:233-234 | the result has the input's length, and each character is the input's, with lower-case ASCII letters moved to upper case |
| Text.UpperIsUpper | backend/helpers/helpers.go:31 | upper-casing leaves no lower-case letter, and a word is unchanged by it exactly when it has none |
| Text.NormalizeIdempotent | backend/helpers/helpers.go:31 | trimming and upper-casing a second time changes nothing |
| Evaluation.Annotate | frontend/src/helpers/gameLogic.ts:22-28 | the rule gives one entry per guess position, carrying that position's letter |
| Evaluation.EraseSpeed | frontend/src/helpers/gameLogic.ts:46-68 | on target ERASE the guess SPEED is yellow, grey, yellow, yellow, grey: both Es are yellow because two Es are spare |
| Evaluation.ExactIffCorrect | backend/models/gamestate.go:242-251 | an entry is `Correct` exactly when the guess and target letters at that position agree |
| Evaluation.Conservation | frontend/src/helpers/gameLogic.ts:27-28 | for every letter, the `Correct` and `IncorrectPosition` entries number min(occurrences in guess, occurrences in target) |
| Evaluation.AllCorrectIffEqual | frontend/src/helpers/gameLogic.ts:38-44 | on equal lengths every entry is `Correct` exactly when guess and target are equal |
| Evaluation.DisjointAllIncorrect | frontend/src/helpers/gameLogic.ts:63-68 | a guess sharing no letter with the target is `Incorrect` everywhere |
| Dictionary.WordLists.Contains | frontend/src/helpers/gameLogic.ts:99-113 | true only for lengths 4 to 6 and words in the lists; on well-formed lists exactly membership in their union |
| GameLogic.ScanTarget | frontend/src/helpers/gameLogic.ts:51-60 | returns the lowest unused target index holding the letter, or the target length when there is none |
| GameLogic.MarkExact | frontend/src/helpers/gameLogic.ts:37-44 | exact matches are marked `correct`, all other slots stay empty, and the used target and guess indices are exactly the exact matches |
| GameLogic.MarkPresentAt | frontend/src/helpers/gameLogic.ts:49-60 | one step of the second pass: slot i ends as the rule's second-pass entry, nothing else changes, slot i joins the used guess indices exactly when this step fills it, and the free target occurrences of each letter still match what the rule leaves spare |
| GameLogic.MarkPresent | frontend/src/helpers/gameLogic.ts:46-61 | after the second pass each non-exact slot holds `incorrect-position` exactly when the rule says so and is empty otherwise; the used guess indices are the filled slots |
| GameLogic.MarkAbsent | frontend/src/helpers/gameLogic.ts:63-68 | after the third pass every slot holds the rule's entry |
| GameLogic.EvaluateGuessLocal | frontend/src/helpers/gameLogic.ts:29-70 | the result is the rule applied to the guess, padded or cut to the target's length |
| GameLogic.IsWordInListDispatch | frontend/src/helpers/gameLogic.ts:99-113 | lengths other than 4, 5 and 6 are refused; those select the four-, five- or six-letter list; the word is not upper-cased here |
| GameLogic.LocalShape | frontend/src/helpers/gameLogic.ts:35-69 | the result has one entry per target letter, and entry i carries the guess letter at i (none past the guess's end) |
| GameLogic.LocalCorrectIffSameLetter | frontend/src/helpers/gameLogic.ts:38-44 | entry i is `Correct` exactly when the guess has a letter at i equal to the target's, compared exactly, without case folding |
| GameLogic.LocalConservation | frontend/src/helpers/gameLogic.ts:33-58 | on equal lengths, for every letter, greens plus yellows equal min(count in guess, count in target) |
| GameLogic.LocalEqualAllCorrect | frontend/src/helpers/gameLogic.ts:38-44 | guessing the target gives `Correct` everywhere |
| GameLogic.LocalDisjointAllIncorrect | frontend/src/helpers/gameLogic.ts:63-68 | a guess sharing no letter with the target gives `Incorrect` everywhere |
| GameLogic.LongerGuessWithTargetPrefixAllCorrect | frontend/src/helpers/gameLogic.ts:35-39 | a guess longer than the target that starts with it is judged all `Correct` |
| Helpers.IsWordInList | backend/helpers/helpers.go:30-44 | true only when the trimmed, upper-cased word has length 4 to 6; on well-formed lists exactly when it is in one of them |
| Helpers.IsWordInListNormalized | backend/helpers/helpers.go:31 | checking a word and checking its normalised form give the same answer |
| Helpers.IsWordInListDispatch | backend/helpers/helpers.go:34-43 | a normalised length of 4, 5 or 6 selects that list; any other length gives false |
| Helpers.QueryMaxId | backend/helpers/helpers.go:14-16 | returns the largest id of the table, or none when it is empty |
| Helpers.NextId | backend/helpers/helpers.go:21-24 | 1 for an empty table, otherwise above the largest id; `Helpers.NextIdIsFresh` proves it unused |
| Helpers.NextIdIsFresh | backend/helpers/helpers.go:21-24 | the next id is max + 1, or 1 for an empty table, and so is above every stored id and unused |
| Models.CreateGameState | backend/models/gamestate.go:65-93 | fails exactly when maxTries is outside [5, 7] or wordSize outside [4, 6], maxTries checked first; a new game has no tries, is playing, is a speed game, and has createdAt == updatedAt |
| Models.CreatedGameWithinBudget | backend/models/gamestate.go:83-93 | every created game is within its try budget |
| Models.DetermineGameStatus | backend/models/gamestate.go:275-285 | a correct guess wins, and the status is otherwise won, lost or the old one; `Models.DetermineGameStatusAfterGuess` characterises each outcome |
| Models.DetermineGameStatusAfterGuess | backend/models/gamestate.go:275-285 | won exactly when the guess is correct or the game was won with tries to spare; lost exactly when it is not correct and either the new count reaches maxTries or the game was lost; otherwise the status is kept |
| Models.Merge | backend/models/gamestate.go:198-201 | the stored tries come first and the supplied ones after, the status is replaced, the update time set, every other field kept |
| Models.CountLetters | backend/models/gamestate.go:236-240 | each letter's count is its number of occurrences in the target |
| Models.MarkExactCounts | backend/models/gamestate.go:242-251 | exact matches are marked `correct`, the rest stay empty, and each letter's count is what the rule leaves spare |
| Models.CountsTaken | backend/models/gamestate.go:255-262 | a non-exact letter with a positive count is `IncorrectPosition`, and one count is taken |
| Models.CountsMissed | backend/models/gamestate.go:263-268 | a non-exact letter whose count is not positive has count 0 and is `Incorrect` |
| Models.CountsNonNegative | backend/models/gamestate.go:253-270 | no remaining letter count is ever negative |
| Models.MarkRestAt | backend/models/gamestate.go:256-269 | one step of the second pass: slot i becomes the rule's entry, no other slot changes, and the remaining counts still match what the rule leaves spare |
| Models.MarkRestCounts | backend/models/gamestate.go:253-270 | after the second pass every slot holds the rule's entry and no count is negative |
| Models.ValidateGuess | backend/models/gamestate.go:229-273 | the result is the rule applied to the upper-cased guess and target |
| Models.ServerShape | backend/models/gamestate.go:230-234 | one entry per guess letter, each the upper-cased guess letter |
| Models.ServerCaseInsensitive | backend/models/gamestate.go:233-234 | the result does not change when either word is upper-cased first |
| Models.ServerCorrectIff | backend/models/gamestate.go:242-251 | an entry is `Correct` exactly when the letters at that position agree up to case |
| Models.ServerConservation | backend/models/gamestate.go:236-270 | for every letter, greens plus yellows equal min(count in upper-cased guess, count in upper-cased target) |
| Models.GameStore.GetGameStateByID | backend/models/gamestate.go:158-190 | returns the row with that id, or nothing when there is none |
| Models.GameStore.SaveGameState | backend/models/gamestate.go:96-113 | inserts the game under its id, failing and changing nothing when the id is taken |
| Models.GameStore.UpdateGameState | backend/models/gamestate.go:192-220 | fails and changes nothing when no row has the id; otherwise the row becomes `Merge` of it with the update |
| Models.GameStore.LeaveGameState | backend/models/gamestate.go:287-302 | the game's row, if any, becomes lost at the given time, whatever its status; nothing else changes |
| Models.GameStore.TimeoutGameState | backend/models/gamestate.go:304-322 | the game's row, if any, and the caller's copy are timed out at the given time, whatever the status |
| Routes.Fail | backend/routes/gamestates.go:117-137 | an error reply carries the error, with code 404 for a game not found and 400 for every other refusal |
| Routes.View | backend/routes/gamestates.go:183-197 | the reply carries every field of the game, the tries only when asked, and the target word exactly when asked |
| Routes.CreateParams | backend/routes/gamestates.go:36-49 | 6 tries and 5 letters, unless the parsed JSON sets a field |
| Routes.CreateGameStateHandler | backend/routes/gamestates.go:33-76 | an invalid configuration is a 400 with nothing stored; otherwise the new game is stored under the next id and returned with 201, without its target word |
| Routes.Judge | backend/routes/gamestates.go:153-159 | the guess record keeps the submitted word, takes its letters from `ValidateGuess`, and is correct exactly when the word equals the target, case-sensitively |
| Routes.Play | backend/routes/gamestates.go:153-169 | an accepted guess appends exactly one judged guess, with the status `DetermineGameStatus` gives before the append; the update time becomes the current time and every other field of the game is kept |
| Routes.RecordGuess | backend/routes/gamestates.go:153-179 | the accepted guess is judged against the stored target, the row becomes `Play` of it, and the table stays keyed by id and within budget |
| Routes.PlayGameStateHandler | backend/routes/gamestates.go:110-200 | malformed body, zero id, empty guess, unknown id and unlisted word are refused in that order without change; an accepted guess is `Play` on its row whatever the status or word size, and the reply reveals the target only when won or lost |
| Routes.TimeoutGameStateHandler | backend/routes/gamestates.go:226-264 | a bad id is 400, an unknown one 404; otherwise the game is timed out whatever its status, and the reply always reveals the target |
| Routes.LeaveGameStateHandler | backend/routes/gamestates.go:202-224 | a bad id is 400, an unknown one 404; otherwise the game is lost whatever its status |
| Routes.PlayStatus | backend/routes/gamestates.go:153-169 | won, lost and playing after a guess, each in both directions; a won game can become lost |
| Routes.PlayPreservesBudget | backend/routes/gamestates.go:161-169 | a playing game stays within its try budget after a play |
| Routes.CaseMismatchNotCorrect | backend/routes/gamestates.go:153-159 | a guess differing from the target only in case has every letter correct but is not correct |
| Routes.UntrimmedGuessNotCorrect | backend/routes/gamestates.go:142-158 | a word sent with white space around it gets the same list-check answer as its trimmed form, one entry per character sent (more than the trimmed word has), and is never correct against a target with no white space at either end |
| Routes.JudgeAllCorrectIff | backend/routes/gamestates.go:153-159 | on equal lengths every letter is correct exactly when the words agree up to case |
| Context.GameContext.constructor | frontend/src/contexts/GameContext.tsx:63-68 | no game, not loading, no error, nothing shown, no popup and an empty invalid word |
| Context.NewClassicGame | frontend/src/contexts/GameContext.tsx:185-193 | a classic game starts with no tries, playing, an empty buffer, mode classic, and the given word size, budget and target |
| Context.GameContext.CreateClassicGame | frontend/src/contexts/GameContext.tsx:180-203 | the new classic game is shown, with no error and loading ended |
| Context.ClassicGuess | frontend/src/contexts/GameContext.tsx:232-240 | the recorded word is the upper-cased guess, its letters are `evaluateGuessLocal` on it, and it is correct exactly when every letter is |
| Context.ClassicPlay | frontend/src/contexts/GameContext.tsx:241-251 | the new guess is appended at the end, the buffer cleared, and only the tries, buffer and status change |
| Context.SpeedUpdate | frontend/src/contexts/GameContext.tsx:264-272 | the server's tries, status and update time replace the local ones; the target word only when the answer carries a non-empty one |
| Context.GameContext.MakeGuess | frontend/src/contexts/GameContext.tsx:208-290 | without a game only the error is set; a missing target or id throws; an unlisted classic word and a server invalid-word error fill the popup with the game unchanged; an accepted guess is `ClassicPlay` or `SpeedUpdate` |
| Context.ClassicPlayStatus | frontend/src/contexts/GameContext.tsx:242-250 | won exactly when every letter is correct, lost exactly when not and the new count reaches maxTries, playing otherwise, whatever the earlier status |
| Context.ClassicWinIffSameWord | frontend/src/contexts/GameContext.tsx:235-242 | on an upper-case target of the guess's length, the game is won exactly when the upper-cased guess is the target |
| Context.ClassicPlayWithinBudget | frontend/src/contexts/GameContext.tsx:241-250 | a classic game within its try budget stays within it |
| Agreement.EvaluatorsAgree | frontend/src/helpers/gameLogic.ts:22-28 | on upper-case words of equal length both evaluators give the same entries, letters and statuses alike |
| Agreement.ClassicGuessIsServerJudge | frontend/src/contexts/GameContext.tsx:235-240 | a classic guess record equals the server's record for the upper-cased guess, given an upper-case target of the same length |
| Agreement.PlayingGamesAgree | frontend/src/contexts/GameContext.tsx:241-250 | a playing game reaches the same status on both sides when the server receives the upper-cased guess |

## Left out

- SQL persistence and JSON encoding of the tries are not modelled. The table is an in-memory map. `GetAllGameStates` and the `GET /gamestates` and `GET /gamestates/:id` handlers are not modelled.
- Database failures are not modelled. In the model, the insert of a new game cannot collide and the update after a guess always finds its row. Both are proved, so the 500 replies never occur.
- Concurrent requests are not modelled; each handler runs alone on the table.
- HTTP plumbing is not modelled: gin routing, JSON binding, `strconv.ParseInt` on the path id, and the client's `fetch` and error decoding. Requests arrive decoded (`Routes.CreateBody`, `Routes.PlayBody`, the id as an option). The speed answer arrives decoded as `Context.ServerReply`.
- Error message texts of the server are not modelled; the reply carries the error's kind, and for an unlisted word the word itself.
- Random choice of target words (`getRandomWord`, `GetRandomWord`) is not modelled; the target is a parameter. The server's version does not compile as written (helpers.go lines 27-29), and `CreateGameState` calls it with an argument it does not declare.
- Word-list contents are not modelled; the lists are arbitrary sets.
- Clocks are integers supplied by the caller.
- The speed-mode countdown, `resetTimer`, `createSpeedGame`, `leaveGame`, `clearError`, `clearInvalidWordPopup` and `backToHome` of the client are not modelled; they are timers or UI flow.
- Context.GameContext.MakeGuess: React applies state updates later; the model applies them at once, reading the game as it was when the call began.
- Text.Upper: only ASCII letters change case, so Unicode case mapping is not modelled.
- Text.TrimSpace: only white space below U+0100 is trimmed.
- Models.ValidateGuess: Go's byte indices and rune iteration coincide only on ASCII, and only that case is modelled.
- Helpers.NextIdIsFresh: ids are unbounded integers, so 64-bit overflow of MAX(id) + 1 is not modelled.
- Logging to standard output is not modelled.
