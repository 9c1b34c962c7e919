/**
 * The records that the browser client and the Go server exchange:
 * per-letter verdicts, one evaluated guess, game status and game mode.
 */
module Types {
  import opened Wrappers

  /** 'correct' | 'incorrect-position' | 'incorrect' */
  datatype Status = Correct | IncorrectPosition | Incorrect

  /**
   * One cell of an evaluated guess. `letter` is `None` where the client
   * reads past the end of a guess shorter than the target (the letter is
   * `undefined` there).
   */
  datatype LetterResult = LetterResult(letter: Option<char>, status: Status)

  /** One submitted guess with its verdicts and whether it won. */
  datatype GuessResult = GuessResult(guessWord: string, letterResults: seq<LetterResult>, isCorrect: bool)

  /** 'playing' | 'won' | 'lost' | 'timeout' */
  datatype GameStatus = Playing | Won | Lost | Timeout

  /** 'classic' games are evaluated in the browser, 'speed' games by the server. */
  datatype Mode = Classic | Speed

  /** The client's `letterResultArray.every(r => r.status === 'correct')`. */
  predicate AllCorrect(r: seq<LetterResult>)
  {
    forall i :: 0 <= i < |r| ==> r[i].status == Correct
  }
}
