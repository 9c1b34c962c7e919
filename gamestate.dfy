/**
 * The server's game record and its rules (backend/models/gamestate.go):
 * creating a game, evaluating a guess with letter counts, the status after
 * a guess, and the table of games that `UpdateGameState`,
 * `TimeoutGameState` and `LeaveGameState` write to. The SQL table is a map
 * from id to record; timestamps are integers supplied by the caller.
 */
module Models {
  import opened Wrappers
  import opened Types
  import opened Text
  import opened Evaluation

  datatype GameState = GameState(
    id: int,
    targetWord: string,
    tries: seq<GuessResult>,
    gameStatus: GameStatus,
    mode: Mode,
    maxTries: int,
    wordSize: int,
    createdAt: int,
    updatedAt: int)

  datatype CreateError = MaxTriesOutOfRange(maxTries: int) | WordSizeOutOfRange(wordSize: int)

  /**
   * `CreateGameState`: the try budget must lie in [5, 7] and the word size
   * in [4, 6], checked in that order; a new game has no tries, is playing,
   * is a speed game, and was created and updated at the same instant. The
   * target word and the id are supplied by the caller.
   */
  function CreateGameState(maxTries: int, wordSize: int, targetWord: string, id: int, now: int)
    : (r: Result<GameState, CreateError>)
    ensures r.Ok? <==> 5 <= maxTries <= 7 && 4 <= wordSize <= 6
    ensures !(5 <= maxTries <= 7) ==> r == Err(MaxTriesOutOfRange(maxTries))
    ensures 5 <= maxTries <= 7 && !(4 <= wordSize <= 6) ==> r == Err(WordSizeOutOfRange(wordSize))
    ensures r.Ok? ==> && r.value.tries == [] && r.value.gameStatus == Playing && r.value.mode == Speed
                      && r.value.createdAt == now && r.value.updatedAt == now
                      && r.value.id == id && r.value.targetWord == targetWord
                      && r.value.maxTries == maxTries && r.value.wordSize == wordSize
  {
    if maxTries < 5 || maxTries > 7 then Err(MaxTriesOutOfRange(maxTries))
    else if wordSize < 4 || wordSize > 6 then Err(WordSizeOutOfRange(wordSize))
    else Ok(GameState(id, targetWord, [], Playing, Speed, maxTries, wordSize, now, now))
  }

  /** A playing game still has tries left. */
  ghost predicate WithinBudget(gs: GameState)
  {
    gs.gameStatus == Playing ==> |gs.tries| < gs.maxTries
  }

  /** Every game `CreateGameState` accepts is within its budget. */
  lemma CreatedGameWithinBudget(maxTries: int, wordSize: int, targetWord: string, id: int, now: int)
    requires CreateGameState(maxTries, wordSize, targetWord, id, now).Ok?
    ensures WithinBudget(CreateGameState(maxTries, wordSize, targetWord, id, now).value)
  {
  }

  /**
   * `DetermineGameStatus`: the status once a guess is added to `gs` — won
   * when the guess is correct, lost when it uses up the budget, and
   * otherwise whatever the status was.
   */
  function DetermineGameStatus(gs: GameState, isCorrect: bool): (r: GameStatus)
    ensures isCorrect ==> r == Won
    ensures r == Won || r == Lost || r == gs.gameStatus
  {
    if isCorrect then Won
    else if |gs.tries| + 1 >= gs.maxTries then Lost
    else gs.gameStatus
  }

  /**
   * With k the number of tries after the guess: the new status is `Won`
   * exactly when the guess is correct; `Lost` exactly when it is not and
   * k >= maxTries, or the game was already lost; and otherwise unchanged.
   */
  lemma DetermineGameStatusAfterGuess(gs: GameState, isCorrect: bool)
    ensures DetermineGameStatus(gs, isCorrect) == Won <==> isCorrect || (gs.gameStatus == Won && |gs.tries| + 1 < gs.maxTries)
    ensures DetermineGameStatus(gs, isCorrect) == Lost
        <==> !isCorrect && (|gs.tries| + 1 >= gs.maxTries || gs.gameStatus == Lost)
    ensures DetermineGameStatus(gs, isCorrect) == Playing
        <==> !isCorrect && |gs.tries| + 1 < gs.maxTries && gs.gameStatus == Playing
  {
  }

  /**
   * `UpdateGameState` on a stored record: the supplied tries are appended
   * after the stored ones, the status is replaced, the update time is
   * now, and every other field is kept.
   */
  function Merge(existing: GameState, tries: seq<GuessResult>, gameStatus: GameStatus, now: int): (r: GameState)
    ensures |r.tries| == |existing.tries| + |tries|
    ensures r.tries[..|existing.tries|] == existing.tries && r.tries[|existing.tries|..] == tries
    ensures r.gameStatus == gameStatus && r.updatedAt == now
    ensures r.id == existing.id && r.targetWord == existing.targetWord && r.mode == existing.mode
    ensures r.maxTries == existing.maxTries && r.wordSize == existing.wordSize && r.createdAt == existing.createdAt
  {
    existing.(tries := existing.tries + tries, gameStatus := gameStatus, updatedAt := now)
  }

  // ----- ValidateGuess -----

  /** What `ValidateGuess(guessWord, targetWord)` returns: the rule applied to the upper-cased words. */
  function ServerResult(guessWord: string, targetWord: string): seq<LetterResult>
  {
    Annotate(Lift(Upper(guessWord)), Upper(targetWord))
  }

  /** `targetLetterCounts[c]`: a Go map yields 0 for a missing key. */
  function Get(counts: map<char, int>, c: char): int
  {
    if c in counts then counts[c] else 0
  }

  /** The remaining counts after i positions of the second pass are the spare counts not yet handed out. */
  ghost predicate CountsMatchSpare(g: seq<Option<char>>, t: seq<char>, counts: map<char, int>, i: nat)
    requires i <= |g|
  {
    forall c {:trigger Get(counts, c)} :: Get(counts, c) + Min(Rank(g, t, c, i), Spare(g, t, c)) == Spare(g, t, c)
  }

  /** The letter counts of the target word. */
  method CountLetters(t: string) returns (counts: map<char, int>)
    ensures forall c :: Get(counts, c) == Count(t, c)
  {
    counts := map[];
    for k := 0 to |t|
      invariant forall c :: Get(counts, c) == Count(t[..k], c)
    {
      counts := counts[t[k] := Get(counts, t[k]) + 1];
      forall c ensures Get(counts, c) == Count(t[..k + 1], c) {
        CountSnoc(t, k, c);
      }
    }
    assert t[..|t|] == t;
  }

  /** What the first pass leaves at each position: `correct` at exact matches, nothing elsewhere. */
  function FirstPass(g: string, t: string): (m: seq<Option<LetterResult>>)
    ensures |m| == |g|
    ensures forall k :: 0 <= k < |g| ==> (m[k].Some? <==> Exact(Lift(g), t, k))
    ensures forall k :: 0 <= k < |g| && m[k].Some? ==> m[k] == Some(Annotate(Lift(g), t)[k])
  {
    seq(|g|, k requires 0 <= k < |g| =>
      if k < |t| && t[k] == g[k] then Some(LetterResult(Some(g[k]), Correct)) else None)
  }

  /** After i steps of the first pass, each letter's count has lost its exact matches before i. */
  ghost predicate ExactCounted(g: string, t: string, counts: map<char, int>, i: nat)
    requires i <= |g|
  {
    forall c {:trigger Get(counts, c)} :: Get(counts, c) + ExactCount(Lift(g), t, c, i) == Count(t, c)
  }

  /** An exact match at i takes one count of its letter; any other position takes none. */
  lemma ExactCountedStep(g: string, t: string, counts: map<char, int>, i: nat)
    requires i < |g| && ExactCounted(g, t, counts, i)
    ensures Exact(Lift(g), t, i) ==> ExactCounted(g, t, counts[g[i] := Get(counts, g[i]) - 1], i + 1)
    ensures !Exact(Lift(g), t, i) ==> ExactCounted(g, t, counts, i + 1)
  {
    var counts' := counts[g[i] := Get(counts, g[i]) - 1];
    forall c ensures Exact(Lift(g), t, i) ==> Get(counts', c) + ExactCount(Lift(g), t, c, i + 1) == Count(t, c) {
      assert Get(counts, c) + ExactCount(Lift(g), t, c, i) == Count(t, c);
    }
    forall c ensures !Exact(Lift(g), t, i) ==> Get(counts, c) + ExactCount(Lift(g), t, c, i + 1) == Count(t, c) {
      assert Get(counts, c) + ExactCount(Lift(g), t, c, i) == Count(t, c);
    }
  }

  /** Once every exact match has taken its count, the counts are the spare counts. */
  lemma ExactCountedSpare(g: string, t: string, counts: map<char, int>)
    requires ExactCounted(g, t, counts, |g|)
    ensures CountsMatchSpare(Lift(g), t, counts, 0)
  {
    forall c ensures Get(counts, c) + Min(Rank(Lift(g), t, c, 0), Spare(Lift(g), t, c)) == Spare(Lift(g), t, c) {
      assert Get(counts, c) + ExactCount(Lift(g), t, c, |g|) == Count(t, c);
      SpareNonNegative(Lift(g), t, c);
    }
  }

  /** The marks after i steps of the first pass: the first pass's marks before i, nothing from i on. */
  function ExactStage(g: string, t: string, i: nat): (m: seq<Option<LetterResult>>)
    requires i <= |g|
    ensures |m| == |g|
  {
    seq(|g|, k requires 0 <= k < |g| => if k < i then FirstPass(g, t)[k] else None)
  }

  lemma ExactStageStep(g: string, t: string, i: nat)
    requires i < |g|
    ensures Exact(Lift(g), t, i) ==>
      ExactStage(g, t, i)[i := Some(LetterResult(Some(g[i]), Correct))] == ExactStage(g, t, i + 1)
    ensures !Exact(Lift(g), t, i) ==> ExactStage(g, t, i) == ExactStage(g, t, i + 1)
  {
    assert Lift(g)[i] == Some(g[i]);
    assert FirstPass(g, t)[i] == if Exact(Lift(g), t, i) then Some(LetterResult(Some(g[i]), Correct)) else None;
  }

  /** First pass: exact matches are marked `correct` and take one count of their letter. */
  method MarkExactCounts(g: string, t: string, marks: array<Option<LetterResult>>, counts0: map<char, int>)
    returns (counts: map<char, int>)
    requires marks.Length == |g|
    requires forall k :: 0 <= k < marks.Length ==> marks[k] == None
    requires forall c :: Get(counts0, c) == Count(t, c)
    modifies marks
    ensures marks[..] == FirstPass(g, t)
    ensures CountsMatchSpare(Lift(g), t, counts, 0)
  {
    counts := counts0;
    assert marks[..] == ExactStage(g, t, 0);
    for i := 0 to |g|
      invariant marks[..] == ExactStage(g, t, i)
      invariant ExactCounted(g, t, counts, i)
    {
      ExactCountedStep(g, t, counts, i);
      ExactStageStep(g, t, i);
      if i < |t| && t[i] == g[i] {
        marks[i] := Some(LetterResult(Some(g[i]), Correct));
        counts := counts[g[i] := Get(counts, g[i]) - 1];
      }
    }
    assert ExactStage(g, t, |g|) == FirstPass(g, t);
    ExactCountedSpare(g, t, counts);
  }

  /** While the counts match the spare counts, none is negative. */
  lemma CountsNonNegative(g: seq<Option<char>>, t: seq<char>, counts: map<char, int>, i: nat)
    requires i <= |g|
    requires CountsMatchSpare(g, t, counts, i)
    ensures forall c :: Get(counts, c) >= 0
  {
    forall c ensures Get(counts, c) >= 0 {
      SpareNonNegative(g, t, c);
    }
  }

  /** An exact position is skipped by the second pass and changes no count. */
  lemma CountsExactSkipped(g: seq<Option<char>>, t: seq<char>, counts: map<char, int>, i: nat)
    requires i < |g| && Exact(g, t, i)
    requires CountsMatchSpare(g, t, counts, i)
    ensures CountsMatchSpare(g, t, counts, i + 1)
  {
  }

  /** A non-exact letter whose count is positive is `IncorrectPosition` and takes one count. */
  lemma CountsTaken(g: seq<Option<char>>, t: seq<char>, counts: map<char, int>, i: nat, c: char)
    requires i < |g| && !Exact(g, t, i) && g[i] == Some(c)
    requires Get(counts, c) > 0
    requires CountsMatchSpare(g, t, counts, i)
    ensures StatusAt(g, t, i) == IncorrectPosition
    ensures CountsMatchSpare(g, t, counts[c := Get(counts, c) - 1], i + 1)
  {
    var counts' := counts[c := Get(counts, c) - 1];
    forall d ensures Get(counts', d) + Min(Rank(g, t, d, i + 1), Spare(g, t, d)) == Spare(g, t, d) {
      assert Get(counts, d) + Min(Rank(g, t, d, i), Spare(g, t, d)) == Spare(g, t, d);
    }
  }

  /** A non-exact letter whose count is used up is `Incorrect` and changes no count. */
  lemma CountsMissed(g: seq<Option<char>>, t: seq<char>, counts: map<char, int>, i: nat, c: char)
    requires i < |g| && !Exact(g, t, i) && g[i] == Some(c)
    requires Get(counts, c) <= 0
    requires CountsMatchSpare(g, t, counts, i)
    ensures Get(counts, c) == 0
    ensures StatusAt(g, t, i) == Incorrect
    ensures CountsMatchSpare(g, t, counts, i + 1)
  {
    SpareNonNegative(g, t, c);
    assert Get(counts, c) + Min(Rank(g, t, c, i), Spare(g, t, c)) == Spare(g, t, c);
  }

  /** The marks after i steps of the second pass: the rule's entries before i, the first pass's from i on. */
  function RestStage(g: string, t: string, i: nat): (m: seq<Option<LetterResult>>)
    requires i <= |g|
    ensures |m| == |g|
  {
    seq(|g|, k requires 0 <= k < |g| => if k < i then Some(Annotate(Lift(g), t)[k]) else FirstPass(g, t)[k])
  }

  lemma RestStageStep(g: string, t: string, i: nat)
    requires i < |g|
    ensures RestStage(g, t, i)[i := Some(Annotate(Lift(g), t)[i])] == RestStage(g, t, i + 1)
  {
  }

  lemma RestStageEnds(g: string, t: string)
    ensures RestStage(g, t, 0) == FirstPass(g, t)
    ensures forall k :: 0 <= k < |g| ==> RestStage(g, t, |g|)[k] == Some(Annotate(Lift(g), t)[k])
  {
  }

  /**
   * One step of the second pass, at position i: an unmarked letter is
   * `incorrect-position` while its count is positive (and takes one),
   * `incorrect` otherwise; a marked one is left alone.
   */
  method MarkRestAt(g: string, t: string, marks: array<Option<LetterResult>>, counts0: map<char, int>, i: nat)
    returns (counts: map<char, int>)
    requires marks.Length == |g| && i < |g|
    requires marks[i] == FirstPass(g, t)[i]
    requires CountsMatchSpare(Lift(g), t, counts0, i)
    modifies marks
    ensures marks[..] == old(marks[..])[i := Some(Annotate(Lift(g), t)[i])]
    ensures CountsMatchSpare(Lift(g), t, counts, i + 1)
  {
    ghost var lg := Lift(g);
    assert lg[i] == Some(g[i]);
    assert Annotate(lg, t)[i] == LetterResult(Some(g[i]), StatusAt(lg, t, i));
    counts := counts0;
    if marks[i].None? {
      if Get(counts, g[i]) > 0 {
        CountsTaken(lg, t, counts, i, g[i]);
        marks[i] := Some(LetterResult(Some(g[i]), IncorrectPosition));
        counts := counts[g[i] := Get(counts, g[i]) - 1];
      } else {
        CountsMissed(lg, t, counts, i, g[i]);
        marks[i] := Some(LetterResult(Some(g[i]), Incorrect));
      }
    } else {
      assert marks[i] == Some(Annotate(lg, t)[i]);
      assert marks[..] == old(marks[..])[i := marks[i]];
      CountsExactSkipped(lg, t, counts, i);
    }
  }

  /** Second pass: every position ends with the rule's entry, and no count drops below zero. */
  method MarkRestCounts(g: string, t: string, marks: array<Option<LetterResult>>, counts0: map<char, int>)
    returns (counts: map<char, int>)
    requires marks.Length == |g|
    requires marks[..] == FirstPass(g, t)
    requires CountsMatchSpare(Lift(g), t, counts0, 0)
    modifies marks
    ensures forall k :: 0 <= k < marks.Length ==> marks[k] == Some(Annotate(Lift(g), t)[k])
    ensures forall c :: Get(counts, c) >= 0
  {
    counts := counts0;
    RestStageEnds(g, t);
    for i := 0 to |g|
      invariant marks[..] == RestStage(g, t, i)
      invariant CountsMatchSpare(Lift(g), t, counts, i)
    {
      assert marks[i] == marks[..][i];
      counts := MarkRestAt(g, t, marks, counts, i);
      RestStageStep(g, t, i);
    }
    assert forall k :: 0 <= k < marks.Length ==> marks[k] == marks[..][k];
    CountsNonNegative(Lift(g), t, counts, |g|);
  }

  /**
   * `ValidateGuess`: both words are upper-cased, the target's letters are
   * counted, exact matches take their counts, then the other positions
   * take what is left from left to right. The result is the
   * duplicate-letter rule applied to the upper-cased words, with one
   * entry per guess letter.
   */
  method ValidateGuess(guessWord: string, targetWord: string) returns (r: seq<LetterResult>)
    ensures r == ServerResult(guessWord, targetWord)
  {
    var marks := new Option<LetterResult>[|guessWord|](_ => None);
    var g := Upper(guessWord);
    var t := Upper(targetWord);
    var counts := CountLetters(t);
    counts := MarkExactCounts(g, t, marks, counts);
    counts := MarkRestCounts(g, t, marks, counts);
    r := seq(|g|, k requires 0 <= k < |g| && marks[k].Some? reads marks => marks[k].value);
  }

  // ----- Properties of the server's evaluation -----

  /** One entry per guess letter, each the upper-cased guess letter. */
  lemma ServerShape(guessWord: string, targetWord: string)
    ensures |ServerResult(guessWord, targetWord)| == |guessWord|
    ensures forall i :: 0 <= i < |guessWord| ==>
      ServerResult(guessWord, targetWord)[i].letter == Some(UpperChar(guessWord[i]))
  {
  }

  /** The result does not depend on the case of either word. */
  lemma ServerCaseInsensitive(guessWord: string, targetWord: string)
    ensures ServerResult(guessWord, targetWord) == ServerResult(Upper(guessWord), Upper(targetWord))
  {
    UpperIdempotent(guessWord);
    UpperIdempotent(targetWord);
  }

  /** An entry is `Correct` exactly when the letters at that position agree up to case. */
  lemma ServerCorrectIff(guessWord: string, targetWord: string, i: nat)
    requires i < |guessWord|
    ensures ServerResult(guessWord, targetWord)[i].status == Correct
        <==> i < |targetWord| && UpperChar(guessWord[i]) == UpperChar(targetWord[i])
  {
    ExactIffCorrect(Lift(Upper(guessWord)), Upper(targetWord), i);
  }

  /**
   * Letter conservation: the entries for letter c that are `Correct` or
   * `IncorrectPosition` number min(count of c in the upper-cased guess,
   * count in the upper-cased target). So no count is spent twice.
   */
  lemma ServerConservation(guessWord: string, targetWord: string, c: char)
    ensures Credited(ServerResult(guessWord, targetWord), c, |guessWord|)
        == Min(Count(Upper(guessWord), c), Count(Upper(targetWord), c))
  {
    WordConservation(Upper(guessWord), Upper(targetWord), c);
  }

  // ----- The game_states table -----

  /**
   * The `game_states` table, keyed by the primary key `id`. Each method is
   * the corresponding function of gamestate.go with the SQL statement
   * applied to the map.
   */
  class GameStore {
    var rows: map<int, GameState>

    /** Every row is stored under its own id. */
    ghost predicate Keyed()
      reads this
    {
      forall id :: id in rows ==> rows[id].id == id
    }

    /** Every playing game in the table still has tries left. */
    ghost predicate AllWithinBudget()
      reads this
    {
      forall id :: id in rows ==> WithinBudget(rows[id])
    }

    constructor ()
      ensures rows == map[]
      ensures Keyed() && AllWithinBudget()
    {
      rows := map[];
    }

    /** `GetGameStateByID`: the row with that id, if there is one. */
    function GetGameStateByID(id: int): (r: Option<GameState>)
      reads this
      ensures r.Some? <==> id in rows
      ensures r.Some? ==> r.value == rows[id]
    {
      if id in rows then Some(rows[id]) else None
    }

    /** `SaveGameState`: the INSERT fails when the id is already a key. */
    method SaveGameState(gs: GameState) returns (ok: bool)
      modifies this
      ensures ok <==> gs.id !in old(rows)
      ensures rows == if ok then old(rows)[gs.id := gs] else old(rows)
      ensures old(Keyed()) ==> Keyed()
      ensures old(AllWithinBudget()) && WithinBudget(gs) ==> AllWithinBudget()
    {
      ok := gs.id !in rows;
      if ok {
        rows := rows[gs.id := gs];
      }
    }

    /**
     * `UpdateGameState`: only the id, the tries and the status of `update`
     * are read. It fails when no row has that id; otherwise the row's tries
     * are extended, its status replaced and its update time set.
     */
    method UpdateGameState(id: int, tries: seq<GuessResult>, gameStatus: GameStatus, now: int) returns (ok: bool)
      modifies this
      ensures ok <==> id in old(rows)
      ensures rows == if ok then old(rows)[id := Merge(old(rows)[id], tries, gameStatus, now)] else old(rows)
      ensures old(Keyed()) ==> Keyed()
    {
      var existing := GetGameStateByID(id);
      ok := existing.Some?;
      if ok {
        rows := rows[id := Merge(existing.value, tries, gameStatus, now)];
      }
    }

    /** `LeaveGameState`: the row with the game's id, if any, becomes lost, whatever its status was. */
    method LeaveGameState(gs: GameState, now: int)
      modifies this
      ensures rows == if gs.id in old(rows)
                      then old(rows)[gs.id := old(rows)[gs.id].(gameStatus := Lost, updatedAt := now)]
                      else old(rows)
      ensures old(Keyed()) ==> Keyed()
      ensures old(AllWithinBudget()) ==> AllWithinBudget()
    {
      if gs.id in rows {
        rows := rows[gs.id := rows[gs.id].(gameStatus := Lost, updatedAt := now)];
      }
    }

    /**
     * `TimeoutGameState`: the row with the game's id, if any, is timed out,
     * whatever its status was, and so is the caller's copy.
     */
    method TimeoutGameState(gs: GameState, now: int) returns (updated: GameState)
      modifies this
      ensures rows == if gs.id in old(rows)
                      then old(rows)[gs.id := old(rows)[gs.id].(gameStatus := Timeout, updatedAt := now)]
                      else old(rows)
      ensures updated == gs.(gameStatus := Timeout, updatedAt := now)
      ensures old(Keyed()) ==> Keyed()
      ensures old(AllWithinBudget()) ==> AllWithinBudget()
    {
      if gs.id in rows {
        rows := rows[gs.id := rows[gs.id].(gameStatus := Timeout, updatedAt := now)];
      }
      updated := gs.(gameStatus := Timeout, updatedAt := now);
    }
  }
}
