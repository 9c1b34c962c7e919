/**
 * The client's game context (frontend/src/contexts/GameContext.tsx): the
 * state cells a `GameProvider` holds, `createClassicGame`, and `makeGuess`
 * in both modes. Each React state setter is a field assignment; the answer
 * of the play request in speed mode arrives already decoded, and the
 * random target word of a classic game is a parameter.
 */
module Context {
  import opened Wrappers
  import opened Types
  import opened Text
  import opened Evaluation
  import opened Dictionary
  import GameLogic

  /** The client's game record; `id` and `updatedAt` come only from the server. */
  datatype ClientGame = ClientGame(
    id: Option<int>,
    currentGuessWord: string,
    tries: seq<GuessResult>,
    gameStatus: GameStatus,
    targetWord: Option<string>,
    maxTries: int,
    wordSize: int,
    mode: Mode,
    updatedAt: Option<int>)

  /** The decoded answer to `PUT /gamestates`: the game fields of a success, or an error. */
  datatype ServerReply =
    | Played(tries: seq<GuessResult>, gameStatus: GameStatus, updatedAt: int, targetWord: Option<string>)
    /** `invalidGuessWord` is "" when the error names no invalid word. */
    | Rejected(message: string, invalidGuessWord: string)

  /** How `makeGuess` ends: normally, or with an exception passed on to the caller. */
  datatype Outcome = Done | Thrown(message: string)

  /** A JavaScript string that is present and not empty, hence truthy. */
  predicate Present(s: Option<string>)
  {
    s.Some? && s.value != ""
  }

  /** A game id that is present and not 0, hence truthy. */
  predicate IdPresent(id: Option<int>)
  {
    id.Some? && id.value != 0
  }

  /** `createClassicGame`: an empty classic game against `targetWord`. */
  function NewClassicGame(wordSize: int, maxTries: int, targetWord: string): (g: ClientGame)
    ensures g.tries == [] && g.gameStatus == Playing && g.currentGuessWord == "" && g.mode == Classic
    ensures g.wordSize == wordSize && g.maxTries == maxTries && g.targetWord == Some(targetWord)
    ensures g.id == None && g.updatedAt == None
  {
    ClientGame(None, "", [], Playing, Some(targetWord), maxTries, wordSize, Classic, None)
  }

  /**
   * The guess a classic game records: the upper-cased word, its local
   * evaluation against the target, and whether every entry is correct.
   */
  function ClassicGuess(guessWord: string, targetWord: string): (r: GuessResult)
    ensures r.guessWord == Upper(guessWord)
    ensures r.letterResults == GameLogic.LocalResult(Upper(guessWord), targetWord)
    ensures r.isCorrect <==> AllCorrect(r.letterResults)
  {
    var letters := GameLogic.LocalResult(Upper(guessWord), targetWord);
    GuessResult(Upper(guessWord), letters, AllCorrect(letters))
  }

  /**
   * A classic game after an accepted guess: the guess appended, the
   * buffer cleared, and the status computed afresh from the new guess and
   * the new number of tries.
   */
  function ClassicPlay(game: ClientGame, targetWord: string, guessWord: string): (r: ClientGame)
    ensures r.tries == game.tries + [ClassicGuess(guessWord, targetWord)]
    ensures r.currentGuessWord == ""
    ensures r == game.(tries := r.tries, currentGuessWord := "", gameStatus := r.gameStatus)
  {
    var guess := ClassicGuess(guessWord, targetWord);
    var newTries := game.tries + [guess];
    var won := guess.isCorrect;
    var lost := !won && |newTries| >= game.maxTries;
    game.(tries := newTries, currentGuessWord := "",
          gameStatus := if won then Won else if lost then Lost else Playing)
  }

  /**
   * A successful play answer replaces the tries, the status and the update
   * time and clears the buffer; the target word is replaced only when the
   * answer carries one.
   */
  function SpeedUpdate(game: ClientGame, tries: seq<GuessResult>, gameStatus: GameStatus, updatedAt: int, targetWord: Option<string>)
    : (r: ClientGame)
    ensures r.tries == tries && r.gameStatus == gameStatus && r.updatedAt == Some(updatedAt)
    ensures r.currentGuessWord == ""
    ensures r.targetWord == (if Present(targetWord) then targetWord else game.targetWord)
    ensures r.id == game.id && r.mode == game.mode && r.maxTries == game.maxTries && r.wordSize == game.wordSize
  {
    game.(tries := tries, gameStatus := gameStatus, currentGuessWord := "", updatedAt := Some(updatedAt),
          targetWord := if Present(targetWord) then targetWord else game.targetWord)
  }

  /** The state cells of `GameProvider` that `createClassicGame` and `makeGuess` write. */
  class GameContext {
    var gameState: Option<ClientGame>
    var loading: bool
    var error: Option<string>
    var showGame: bool
    var showInvalidWordPopup: bool
    var invalidWord: string

    /** The initial values of the `useState` cells. */
    constructor ()
      ensures gameState == None && !loading && error == None && !showGame
      ensures !showInvalidWordPopup && invalidWord == ""
    {
      gameState := None;
      loading := false;
      error := None;
      showGame := false;
      showInvalidWordPopup := false;
      invalidWord := "";
    }

    /** `createClassicGame`: a fresh classic game is shown, with no error and not loading. */
    method CreateClassicGame(wordSize: int, maxTries: int, targetWord: string)
      modifies this
      ensures gameState == Some(NewClassicGame(wordSize, maxTries, targetWord))
      ensures showGame && !loading && error == None
      ensures showInvalidWordPopup == old(showInvalidWordPopup) && invalidWord == old(invalidWord)
    {
      loading := true;
      error := None;
      gameState := Some(NewClassicGame(wordSize, maxTries, targetWord));
      showGame := true;
      loading := false;
    }

    /**
     * `makeGuess`. Without a game only the error is set. Otherwise the
     * error and the popup are cleared and loading ends false, and:
     * a classic game without a target word throws; a classic guess whose
     * upper-cased form is not in the lists shows that form in the popup;
     * an accepted classic guess is `ClassicPlay`, whatever the status was.
     * A speed game without an id throws; a successful answer is
     * `SpeedUpdate`; an error naming an invalid word shows it in the
     * popup; any other error is thrown on. Only an accepted guess or a
     * successful answer changes the game.
     */
    method MakeGuess(guessWord: string, lists: WordLists, reply: ServerReply) returns (outcome: Outcome)
      modifies this
      ensures old(gameState).None? ==>
        && outcome == Done && gameState == None && error == Some("No active game found")
        && loading == old(loading) && showGame == old(showGame)
        && showInvalidWordPopup == old(showInvalidWordPopup) && invalidWord == old(invalidWord)
      ensures old(gameState).Some? ==> !loading && error == None && showGame == old(showGame)
      ensures old(gameState).Some? && old(gameState).value.mode == Classic ==>
        var game := old(gameState).value;
        if !Present(game.targetWord) then
          && outcome == Thrown("Target word is required for classic mode")
          && gameState == old(gameState) && !showInvalidWordPopup && invalidWord == old(invalidWord)
        else if !GameLogic.IsWordInList(lists, Upper(guessWord)) then
          && outcome == Done && gameState == old(gameState)
          && showInvalidWordPopup && invalidWord == Upper(guessWord)
        else
          && outcome == Done && gameState == Some(ClassicPlay(game, game.targetWord.value, guessWord))
          && !showInvalidWordPopup && invalidWord == old(invalidWord)
      ensures old(gameState).Some? && old(gameState).value.mode == Speed ==>
        var game := old(gameState).value;
        if !IdPresent(game.id) then
          && outcome == Thrown("Game ID is required for API-based modes")
          && gameState == old(gameState) && !showInvalidWordPopup && invalidWord == old(invalidWord)
        else if reply.Played? then
          && outcome == Done
          && gameState == Some(SpeedUpdate(game, reply.tries, reply.gameStatus, reply.updatedAt, reply.targetWord))
          && !showInvalidWordPopup && invalidWord == old(invalidWord)
        else if reply.invalidGuessWord != "" then
          && outcome == Done && gameState == old(gameState)
          && showInvalidWordPopup && invalidWord == reply.invalidGuessWord
        else
          && outcome == Thrown(reply.message)
          && gameState == old(gameState) && !showInvalidWordPopup && invalidWord == old(invalidWord)
    {
      if gameState.None? {
        error := Some("No active game found");
        return Done;
      }
      var game := gameState.value;
      loading := true;
      error := None;
      showInvalidWordPopup := false;
      outcome := Done;
      if game.mode == Classic {
        if !Present(game.targetWord) {
          outcome := Thrown("Target word is required for classic mode");
        } else if !GameLogic.IsWordInList(lists, Upper(guessWord)) {
          invalidWord := Upper(guessWord);
          showInvalidWordPopup := true;
        } else {
          var letterResults := GameLogic.EvaluateGuessLocal(Upper(guessWord), game.targetWord.value);
          var newGuess := GuessResult(Upper(guessWord), letterResults, AllCorrect(letterResults));
          var newTries := game.tries + [newGuess];
          var isGameWon := newGuess.isCorrect;
          var isGameLost := !isGameWon && |newTries| >= game.maxTries;
          gameState := Some(game.(tries := newTries, currentGuessWord := "",
                                  gameStatus := if isGameWon then Won else if isGameLost then Lost else Playing));
        }
      } else {
        if !IdPresent(game.id) {
          outcome := Thrown("Game ID is required for API-based modes");
        } else {
          match reply
          case Played(tries, gameStatus, updatedAt, targetWord) =>
            gameState := Some(SpeedUpdate(game, tries, gameStatus, updatedAt, targetWord));
          case Rejected(message, invalid) =>
            if invalid != "" {
              invalidWord := invalid;
              showInvalidWordPopup := true;
            } else {
              outcome := Thrown(message);
            }
        }
      }
      loading := false;
    }
  }

  // ----- Properties of a classic guess -----

  /**
   * With k the number of tries after the guess: won exactly when every
   * entry of the new guess is correct; lost exactly when it is not and
   * k >= maxTries; playing otherwise. The earlier status plays no part,
   * so a won game that is guessed again can go back to playing.
   */
  lemma ClassicPlayStatus(game: ClientGame, targetWord: string, guessWord: string)
    ensures ClassicPlay(game, targetWord, guessWord).gameStatus == Won
        <==> AllCorrect(ClassicGuess(guessWord, targetWord).letterResults)
    ensures ClassicPlay(game, targetWord, guessWord).gameStatus == Lost
        <==> !AllCorrect(ClassicGuess(guessWord, targetWord).letterResults) && |game.tries| + 1 >= game.maxTries
    ensures ClassicPlay(game, targetWord, guessWord).gameStatus == Playing
        <==> !AllCorrect(ClassicGuess(guessWord, targetWord).letterResults) && |game.tries| + 1 < game.maxTries
  {
  }

  /**
   * On a guess as long as an upper-case target, the classic game is won
   * exactly when the guess equals the target up to case.
   */
  lemma ClassicWinIffSameWord(guessWord: string, targetWord: string)
    requires |guessWord| == |targetWord| && IsUpper(targetWord)
    ensures ClassicGuess(guessWord, targetWord).isCorrect <==> Upper(guessWord) == targetWord
  {
    var g := Upper(guessWord);
    assert GameLogic.Pad(g, |targetWord|) == Lift(g);
    AllCorrectIffEqual(g, targetWord);
  }

  /** A classic game that starts within its budget stays within it. */
  lemma ClassicPlayWithinBudget(game: ClientGame, targetWord: string, guessWord: string)
    requires game.gameStatus == Playing ==> |game.tries| < game.maxTries
    ensures var r := ClassicPlay(game, targetWord, guessWord);
      r.gameStatus == Playing ==> |r.tries| < r.maxTries
  {
  }
}
