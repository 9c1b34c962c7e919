/**
 * The client's evaluator is documented as identical to the server's. These
 * lemmas state how far that holds: on words of equal length the two agree
 * once both are upper case, a classic guess is judged as the server judges
 * the upper-cased guess, and a playing game moves to the same status.
 */
module Agreement {
  import opened Types
  import opened Text
  import opened Evaluation
  import GameLogic
  import Models
  import Routes
  import Context

  /**
   * On upper-case words of equal length, `evaluateGuessLocal` and
   * `ValidateGuess` give the same entries: same letters, same statuses.
   */
  lemma EvaluatorsAgree(guess: string, target: string)
    requires |guess| == |target| && IsUpper(guess) && IsUpper(target)
    ensures GameLogic.LocalResult(guess, target) == Models.ServerResult(guess, target)
  {
    UpperIsUpper(guess);
    UpperIsUpper(target);
    assert GameLogic.Pad(guess, |target|) == Lift(guess);
  }

  /**
   * Given an upper-case target of the guess's length, the classic guess
   * record is exactly the one the server makes for the upper-cased guess.
   */
  lemma ClassicGuessIsServerJudge(guessWord: string, targetWord: string)
    requires |guessWord| == |targetWord| && IsUpper(targetWord)
    ensures Context.ClassicGuess(guessWord, targetWord) == Routes.Judge(Upper(guessWord), targetWord)
  {
    var g := Upper(guessWord);
    UpperIsUpper(guessWord);
    EvaluatorsAgree(g, targetWord);
    UpperIdempotent(guessWord);
    Context.ClassicWinIffSameWord(guessWord, targetWord);
  }

  /**
   * A playing game with the same number of tries and the same budget on
   * both sides moves to the same status, when the server receives the
   * upper-cased guess.
   */
  lemma PlayingGamesAgree(game: Context.ClientGame, gs: Models.GameState, guessWord: string, now: int)
    requires |guessWord| == |gs.targetWord| && IsUpper(gs.targetWord)
    requires game.gameStatus == Playing && gs.gameStatus == Playing
    requires |game.tries| == |gs.tries| && game.maxTries == gs.maxTries
    ensures Context.ClassicPlay(game, gs.targetWord, guessWord).gameStatus
         == Routes.Play(gs, Upper(guessWord), now).gameStatus
  {
    ClassicGuessIsServerJudge(guessWord, gs.targetWord);
    Context.ClassicPlayStatus(game, gs.targetWord, guessWord);
    Routes.PlayStatus(gs, Upper(guessWord), now);
  }
}
