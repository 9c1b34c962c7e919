/**
 * The game-state endpoints (backend/routes/gamestates.go) as methods over
 * the game store. Each handler checks its input in the order the source
 * does and returns early with an error reply. Request bodies and the `id`
 * path parameter arrive already decoded; the target word of a new game and
 * the current time are parameters.
 */
module Routes {
  import opened Wrappers
  import opened Types
  import opened Text
  import opened Evaluation
  import opened Dictionary
  import Helpers
  import opened Models

  /**
   * The body of `POST /gamestates`: absent, not valid JSON, or JSON that
   * sets some of the two fields (a field of the wrong type leaves that
   * field unset and still binds the other).
   */
  datatype CreateBody = NoBody | Unparsable | Fields(maxTries: Option<int>, wordSize: Option<int>)

  /** The body of `PUT /gamestates` once bound; a field the JSON omits arrives as 0 or "". */
  datatype PlayBody = Malformed | PlayRequest(id: int, guessWord: string)

  datatype ApiError =
    | CreateFailed(cause: CreateError)
    | InvalidRequestBody
    | IdRequired
    | GuessWordRequired
    | NotFound
    | InvalidWord(invalidGuessWord: string)
    | InvalidId

  /** The game fields a reply carries; `tries` and `targetWord` are in some replies only. */
  datatype GameView = GameView(
    id: int,
    tries: Option<seq<GuessResult>>,
    gameStatus: GameStatus,
    mode: Mode,
    maxTries: int,
    wordSize: int,
    updatedAt: int,
    createdAt: int,
    targetWord: Option<string>)

  datatype Body = Failure(error: ApiError) | Game(view: GameView) | Left

  /** An HTTP status code and the JSON object sent with it. */
  datatype Reply = Reply(code: int, body: Body)

  /** Not-found errors are 404, every other error this module sends is 400. */
  function Fail(e: ApiError): (r: Reply)
    ensures r.body == Failure(e)
    ensures r.code == (if e.NotFound? then 404 else 400)
  {
    Reply(if e.NotFound? then 404 else 400, Failure(e))
  }

  /** The reply fields of a game: the target word only when `withTarget`. */
  function View(gs: GameState, withTries: bool, withTarget: bool): (v: GameView)
    ensures v.id == gs.id && v.gameStatus == gs.gameStatus && v.mode == gs.mode
    ensures v.maxTries == gs.maxTries && v.wordSize == gs.wordSize
    ensures v.updatedAt == gs.updatedAt && v.createdAt == gs.createdAt
    ensures v.tries == (if withTries then Some(gs.tries) else None)
    ensures v.targetWord == (if withTarget then Some(gs.targetWord) else None)
  {
    GameView(gs.id, if withTries then Some(gs.tries) else None, gs.gameStatus, gs.mode,
             gs.maxTries, gs.wordSize, gs.updatedAt, gs.createdAt,
             if withTarget then Some(gs.targetWord) else None)
  }

  // ----- POST /gamestates -----

  /** The try budget and word size a create request asks for: 6 and 5 unless the JSON sets them. */
  function CreateParams(body: CreateBody): (p: (int, int))
    ensures !body.Fields? ==> p == (6, 5)
    ensures body.Fields? ==> p.0 == (if body.maxTries.Some? then body.maxTries.value else 6)
    ensures body.Fields? ==> p.1 == (if body.wordSize.Some? then body.wordSize.value else 5)
  {
    match body
    case Fields(maxTries, wordSize) =>
      (if maxTries.Some? then maxTries.value else 6, if wordSize.Some? then wordSize.value else 5)
    case _ => (6, 5)
  }

  /**
   * `createGameState`: an out-of-range configuration is a 400 and the
   * table is unchanged; otherwise a new playing game is stored under the
   * next id and sent back with status 201, without its target word. (The
   * id plays no part in the range checks, so the error is named by
   * `CreateGameState` at any id.)
   */
  method CreateGameStateHandler(store: GameStore, body: CreateBody, targetWord: string, now: int) returns (reply: Reply)
    requires store.Keyed()
    modifies store
    ensures var p := CreateParams(body);
      CreateGameState(p.0, p.1, targetWord, 0, now).Err? ==>
        && reply == Fail(CreateFailed(CreateGameState(p.0, p.1, targetWord, 0, now).error))
        && store.rows == old(store.rows)
    ensures var p := CreateParams(body);
      CreateGameState(p.0, p.1, targetWord, 0, now).Ok? ==>
        && reply.code == 201 && reply.body.Game?
        && Helpers.IsNextId(reply.body.view.id, old(store.rows).Keys)
        && var gs := CreateGameState(p.0, p.1, targetWord, reply.body.view.id, now).value;
           && store.rows == old(store.rows)[gs.id := gs]
           && reply.body.view == View(gs, true, false)
    ensures store.Keyed()
    ensures old(store.AllWithinBudget()) ==> store.AllWithinBudget()
  {
    var p := CreateParams(body);
    var maxId := Helpers.QueryMaxId(store.rows.Keys);
    var id := Helpers.NextId(maxId);
    var created := CreateGameState(p.0, p.1, targetWord, id, now);
    if created.Err? {
      return Fail(CreateFailed(created.error));
    }
    Helpers.NextIdIsFresh(maxId, store.rows.Keys);
    CreatedGameWithinBudget(p.0, p.1, targetWord, id, now);
    var saved := store.SaveGameState(created.value);
    // the id is above every stored id, so the INSERT cannot collide
    assert saved;
    reply := Reply(201, Game(View(created.value, true, false)));
  }

  // ----- PUT /gamestates -----

  /**
   * The guess as `playGameState` records it: letters by `ValidateGuess`,
   * correctness by exact, case-sensitive comparison with the target.
   */
  function Judge(guessWord: string, targetWord: string): (r: GuessResult)
    ensures r.guessWord == guessWord
    ensures r.letterResults == ServerResult(guessWord, targetWord)
    ensures r.isCorrect <==> guessWord == targetWord
  {
    GuessResult(guessWord, ServerResult(guessWord, targetWord), guessWord == targetWord)
  }

  /**
   * The stored game after an accepted guess: one judged guess appended,
   * the status from `DetermineGameStatus` on the game before the append.
   */
  function Play(gs: GameState, guessWord: string, now: int): (r: GameState)
    ensures r.tries == gs.tries + [Judge(guessWord, gs.targetWord)]
    ensures r.gameStatus == DetermineGameStatus(gs, guessWord == gs.targetWord)
    ensures r == gs.(tries := r.tries, gameStatus := r.gameStatus, updatedAt := now)
  {
    var guess := Judge(guessWord, gs.targetWord);
    Merge(gs, [guess], DetermineGameStatus(gs, guess.isCorrect), now)
  }

  /** A play request that passes every check of `playGameState`. */
  predicate Accepted(rows: map<int, GameState>, body: PlayBody, lists: WordLists)
  {
    && body.PlayRequest? && body.id != 0 && body.guessWord != "" && body.id in rows
    && Helpers.IsWordInList(lists, body.guessWord)
  }

  /**
   * `playGameState`: a malformed body, a zero id and an empty guess are
   * refused before the table is read; an unknown id is a 404; a word
   * outside the lists is refused and named back. None of these changes
   * the table. An accepted guess appends exactly one judged guess,
   * whatever the game's status or word size, and the reply carries the
   * target word only once the game is won or lost.
   */
  method PlayGameStateHandler(store: GameStore, body: PlayBody, lists: WordLists, now: int) returns (reply: Reply)
    requires store.Keyed()
    modifies store
    ensures body.Malformed? ==> reply == Fail(InvalidRequestBody) && store.rows == old(store.rows)
    ensures body.PlayRequest? && body.id == 0 ==> reply == Fail(IdRequired) && store.rows == old(store.rows)
    ensures body.PlayRequest? && body.id != 0 && body.guessWord == "" ==>
      reply == Fail(GuessWordRequired) && store.rows == old(store.rows)
    ensures body.PlayRequest? && body.id != 0 && body.guessWord != "" && body.id !in old(store.rows) ==>
      reply == Fail(NotFound) && store.rows == old(store.rows)
    ensures body.PlayRequest? && body.id != 0 && body.guessWord != "" && body.id in old(store.rows)
            && !Helpers.IsWordInList(lists, body.guessWord) ==>
      reply == Fail(InvalidWord(body.guessWord)) && store.rows == old(store.rows)
    ensures Accepted(old(store.rows), body, lists) ==>
      var gs := Play(old(store.rows)[body.id], body.guessWord, now);
      && store.rows == old(store.rows)[body.id := gs]
      && reply == Reply(200, Game(View(gs, true, gs.gameStatus == Won || gs.gameStatus == Lost)))
    ensures store.Keyed()
    ensures old(store.AllWithinBudget()) ==> store.AllWithinBudget()
  {
    if body.Malformed? {
      return Fail(InvalidRequestBody);
    }
    if body.id == 0 {
      return Fail(IdRequired);
    }
    if body.guessWord == "" {
      return Fail(GuessWordRequired);
    }
    var existing := store.GetGameStateByID(body.id);
    if existing.None? {
      return Fail(NotFound);
    }
    if !Helpers.IsWordInList(lists, body.guessWord) {
      return Fail(InvalidWord(body.guessWord));
    }
    var gs := RecordGuess(store, body.id, body.guessWord, now);
    reply := Reply(200, Game(View(gs, true, gs.gameStatus == Won || gs.gameStatus == Lost)));
  }

  /**
   * The accepted branch of `playGameState`: the guess is judged against
   * the stored target, the status decided on the game before the append,
   * the row updated and read back.
   */
  method RecordGuess(store: GameStore, id: int, guessWord: string, now: int) returns (gs: GameState)
    requires store.Keyed() && id in store.rows
    modifies store
    ensures gs == Play(old(store.rows)[id], guessWord, now)
    ensures store.rows == old(store.rows)[id := gs]
    ensures store.Keyed()
    ensures old(store.AllWithinBudget()) ==> store.AllWithinBudget()
  {
    var existing := store.GetGameStateByID(id);
    var letterResults := ValidateGuess(guessWord, existing.value.targetWord);
    var validated := GuessResult(guessWord, letterResults, guessWord == existing.value.targetWord);
    var newStatus := DetermineGameStatus(existing.value, validated.isCorrect);
    PlayPreservesBudget(existing.value, guessWord, now);
    var updatedOk := store.UpdateGameState(id, [validated], newStatus, now);
    // the row was read just before, so the update finds it
    assert updatedOk;
    var updated := store.GetGameStateByID(id);
    gs := updated.value;
  }

  // ----- PUT /gamestates/:id/timeout and /gamestates/:id/leave -----

  /**
   * `timeoutGameStateByID`: a non-numeric id is a 400 and an unknown one a
   * 404; otherwise the game is timed out whatever its status, and the
   * reply always reveals the target word.
   */
  method TimeoutGameStateHandler(store: GameStore, idParam: Option<int>, now: int) returns (reply: Reply)
    requires store.Keyed()
    modifies store
    ensures idParam.None? ==> reply == Fail(InvalidId) && store.rows == old(store.rows)
    ensures idParam.Some? && idParam.value !in old(store.rows) ==> reply == Fail(NotFound) && store.rows == old(store.rows)
    ensures idParam.Some? && idParam.value in old(store.rows) ==>
      var gs := old(store.rows)[idParam.value].(gameStatus := Timeout, updatedAt := now);
      && store.rows == old(store.rows)[idParam.value := gs]
      && reply == Reply(200, Game(View(gs, false, true)))
    ensures store.Keyed()
    ensures old(store.AllWithinBudget()) ==> store.AllWithinBudget()
  {
    if idParam.None? {
      return Fail(InvalidId);
    }
    var existing := store.GetGameStateByID(idParam.value);
    if existing.None? {
      return Fail(NotFound);
    }
    var _ := store.TimeoutGameState(existing.value, now);
    var updated := store.GetGameStateByID(idParam.value);
    reply := Reply(200, Game(View(updated.value, false, true)));
  }

  /**
   * `leaveGameStateByID`: a non-numeric id is a 400 and an unknown one a
   * 404; otherwise the game is lost whatever its status.
   */
  method LeaveGameStateHandler(store: GameStore, idParam: Option<int>, now: int) returns (reply: Reply)
    requires store.Keyed()
    modifies store
    ensures idParam.None? ==> reply == Fail(InvalidId) && store.rows == old(store.rows)
    ensures idParam.Some? && idParam.value !in old(store.rows) ==> reply == Fail(NotFound) && store.rows == old(store.rows)
    ensures idParam.Some? && idParam.value in old(store.rows) ==>
      && store.rows == old(store.rows)[idParam.value := old(store.rows)[idParam.value].(gameStatus := Lost, updatedAt := now)]
      && reply == Reply(200, Left)
    ensures store.Keyed()
    ensures old(store.AllWithinBudget()) ==> store.AllWithinBudget()
  {
    if idParam.None? {
      return Fail(InvalidId);
    }
    var existing := store.GetGameStateByID(idParam.value);
    if existing.None? {
      return Fail(NotFound);
    }
    store.LeaveGameState(existing.value, now);
    reply := Reply(200, Left);
  }

  // ----- Properties of a play -----

  /**
   * With k the number of tries after the guess: won exactly when the
   * submitted word equals the target, or the game was won and k < maxTries;
   * lost exactly when the word differs and k >= maxTries or the game was
   * lost; playing exactly when the word differs, k < maxTries and the game
   * was playing. A finished game is not refused: a won game can become lost.
   */
  lemma PlayStatus(gs: GameState, guessWord: string, now: int)
    ensures Play(gs, guessWord, now).gameStatus == Won
        <==> guessWord == gs.targetWord || (gs.gameStatus == Won && |gs.tries| + 1 < gs.maxTries)
    ensures Play(gs, guessWord, now).gameStatus == Lost
        <==> guessWord != gs.targetWord && (|gs.tries| + 1 >= gs.maxTries || gs.gameStatus == Lost)
    ensures Play(gs, guessWord, now).gameStatus == Playing
        <==> guessWord != gs.targetWord && |gs.tries| + 1 < gs.maxTries && gs.gameStatus == Playing
  {
    DetermineGameStatusAfterGuess(gs, guessWord == gs.targetWord);
  }

  /** A play keeps every playing game within its try budget. */
  lemma PlayPreservesBudget(gs: GameState, guessWord: string, now: int)
    ensures WithinBudget(gs) ==> WithinBudget(Play(gs, guessWord, now))
  {
    DetermineGameStatusAfterGuess(gs, guessWord == gs.targetWord);
  }

  /**
   * A guess that differs from the target only in case has every letter
   * marked correct, yet is not a correct guess, so it does not win.
   */
  lemma CaseMismatchNotCorrect(guessWord: string, targetWord: string)
    requires Upper(guessWord) == Upper(targetWord) && guessWord != targetWord
    ensures AllCorrect(Judge(guessWord, targetWord).letterResults)
    ensures !Judge(guessWord, targetWord).isCorrect
  {
    EqualAllCorrect(Upper(targetWord));
  }

  /**
   * The list check trims the guess, but the evaluation and the comparison
   * use it as sent: a listed word with white space around it is accepted,
   * gets one entry per character including the white space, and is never
   * a correct guess against a target without white space.
   */
  lemma UntrimmedGuessNotCorrect(lists: WordLists, guessWord: string, targetWord: string)
    requires Trimmed(targetWord) && !Trimmed(guessWord)
    ensures Helpers.IsWordInList(lists, guessWord) == Helpers.IsWordInList(lists, TrimSpace(guessWord))
    ensures |Judge(guessWord, targetWord).letterResults| == |guessWord| > |TrimSpace(guessWord)|
    ensures !Judge(guessWord, targetWord).isCorrect
  {
    var r := TrimSpace(guessWord);
    var a := SpaceRunEnd(guessWord, 0);
    if a == 0 && a + |r| == |guessWord| {
      assert false;
    }
  }

  /**
   * The letter results of a judged guess are all correct exactly when the
   * guess equals the target up to case, given equal lengths.
   */
  lemma JudgeAllCorrectIff(guessWord: string, targetWord: string)
    requires |guessWord| == |targetWord|
    ensures AllCorrect(Judge(guessWord, targetWord).letterResults) <==> Upper(guessWord) == Upper(targetWord)
  {
    AllCorrectIffEqual(Upper(guessWord), Upper(targetWord));
  }
}
