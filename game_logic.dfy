/**
 * The browser's evaluator and dictionary check
 * (frontend/src/helpers/gameLogic.ts).
 */
module GameLogic {
  import opened Wrappers
  import opened Types
  import opened Evaluation
  import opened Dictionary

  /** `guess.split('')[i]`: the letter at i, or `undefined` past the end. */
  function LetterAt(s: string, i: nat): (l: Option<char>)
    ensures l.Some? <==> i < |s|
    ensures i < |s| ==> l == Some(s[i])
  {
    if i < |s| then Some(s[i]) else None
  }

  /** The guess letters the client reads: one per target position. */
  function Pad(s: string, n: nat): (g: seq<Option<char>>)
    ensures |g| == n
    ensures forall i :: 0 <= i < n ==> g[i] == LetterAt(s, i)
  {
    seq(n, i requires 0 <= i < n => LetterAt(s, i))
  }

  /** What `evaluateGuessLocal(guess, target)` returns. */
  function LocalResult(guess: string, target: string): seq<LetterResult>
  {
    Annotate(Pad(guess, |target|), target)
  }

  /** Target positions j below n, not in `used`, that hold `c`. */
  function FreeCount(t: seq<char>, used: set<int>, c: char, n: nat): nat
    requires n <= |t|
  {
    if n == 0 then 0
    else FreeCount(t, used, c, n - 1) + (if n - 1 !in used && t[n - 1] == c then 1 else 0)
  }

  /** With exactly the exact matches used, the free occurrences of c are its spare ones. */
  lemma {:induction false} FreeAfterExact(g: seq<Option<char>>, t: seq<char>, used: set<int>, c: char, n: nat)
    requires |g| == |t| && n <= |t|
    requires forall k :: 0 <= k < |t| ==> (k in used <==> Exact(g, t, k))
    ensures FreeCount(t, used, c, n) + ExactCount(g, t, c, n) == Count(t[..n], c)
  {
    if n > 0 {
      FreeAfterExact(g, t, used, c, n - 1);
      CountSnoc(t, n - 1, c);
    }
  }

  /** Taking one free occurrence of c lowers the free count of c by one and no other. */
  lemma {:induction false} FreeTake(t: seq<char>, used: set<int>, j: int, c: char, n: nat)
    requires n <= |t| && 0 <= j < |t| && j !in used
    ensures FreeCount(t, used + {j}, c, n)
         == FreeCount(t, used, c, n) - (if j < n && t[j] == c then 1 else 0)
  {
    if n > 0 {
      FreeTake(t, used, j, c, n - 1);
    }
  }

  /** When the scan finds nothing, no free occurrence of c is left. */
  lemma {:induction false} FreeNone(t: seq<char>, used: set<int>, c: char, n: nat)
    requires n <= |t|
    requires forall m :: 0 <= m < n ==> m in used || t[m] != c
    ensures FreeCount(t, used, c, n) == 0
  {
    if n > 0 {
      FreeNone(t, used, c, n - 1);
    }
  }

  /**
   * The inner scan of the second pass: the lowest target position that is
   * not yet used and holds `letter`, or |target| when there is none.
   */
  method ScanTarget(letter: Option<char>, target: string, used: set<int>) returns (j: int)
    ensures 0 <= j <= |target|
    ensures j < |target| ==> j !in used && letter == Some(target[j])
    ensures forall m :: 0 <= m < j ==> m in used || letter != Some(target[m])
  {
    j := 0;
    while j < |target|
      invariant 0 <= j <= |target|
      invariant forall m :: 0 <= m < j ==> m in used || letter != Some(target[m])
    {
      if j !in used && letter == Some(target[j]) {
        break;
      }
      j := j + 1;
    }
  }

  /** What the first pass leaves in each slot: `Correct` at the exact matches, nothing elsewhere. */
  function ExactMarks(guess: string, target: string): (m: seq<Option<LetterResult>>)
    ensures |m| == |target|
  {
    seq(|target|, k requires 0 <= k < |target| =>
      if Exact(Pad(guess, |target|), target, k) then Some(LetterResult(LetterAt(guess, k), Correct)) else None)
  }

  /** First pass: exact matches are marked `Correct` and their positions used. */
  method MarkExact(guess: string, target: string, marks: array<Option<LetterResult>>)
    returns (usedTarget: set<int>, usedGuess: set<int>)
    requires marks.Length == |target|
    requires forall k :: 0 <= k < marks.Length ==> marks[k] == None
    modifies marks
    ensures marks[..] == ExactMarks(guess, target)
    ensures forall k :: k in usedTarget <==> 0 <= k < |target| && Exact(Pad(guess, |target|), target, k)
    ensures usedGuess == usedTarget
  {
    var n := |target|;
    ghost var g := Pad(guess, n);
    ghost var first := ExactMarks(guess, target);
    usedTarget, usedGuess := {}, {};
    for i := 0 to n
      invariant forall k :: 0 <= k < i ==> marks[k] == first[k]
      invariant forall k :: i <= k < n ==> marks[k] == None
      invariant forall k :: k in usedTarget <==> 0 <= k < i && Exact(g, target, k)
      invariant usedGuess == usedTarget
    {
      if LetterAt(guess, i) == Some(target[i]) {
        marks[i] := Some(LetterResult(LetterAt(guess, i), Correct));
        usedTarget := usedTarget + {i};
        usedGuess := usedGuess + {i};
      }
    }
    assert marks[..] == first;
  }

  /**
   * The second pass's bookkeeping after i positions: for every letter, the
   * unused target occurrences are the spare ones not yet handed out.
   */
  ghost predicate FreeMatchesSpare(g: seq<Option<char>>, t: seq<char>, used: set<int>, i: nat)
    requires i <= |g|
  {
    forall c :: FreeCount(t, used, c, |t|) + Min(Rank(g, t, c, i), Spare(g, t, c)) == Spare(g, t, c)
  }

  /** Before the second pass only the exact matches are used. */
  lemma FreeMatchesSpareInitially(g: seq<Option<char>>, t: seq<char>, used: set<int>)
    requires |g| == |t|
    requires forall k :: 0 <= k < |t| ==> (k in used <==> Exact(g, t, k))
    ensures FreeMatchesSpare(g, t, used, 0)
  {
    forall c ensures FreeCount(t, used, c, |t|) == Spare(g, t, c) {
      FreeAfterExact(g, t, used, c, |t|);
      assert t[..|t|] == t;
    }
  }

  /** An exact position is skipped and changes no count. */
  lemma ExactSkipped(g: seq<Option<char>>, t: seq<char>, used: set<int>, i: nat)
    requires i < |g| && Exact(g, t, i)
    requires FreeMatchesSpare(g, t, used, i)
    ensures FreeMatchesSpare(g, t, used, i + 1)
  {
  }

  /** A non-exact position whose scan finds target position j is `IncorrectPosition`. */
  lemma PresentTaken(g: seq<Option<char>>, t: seq<char>, used: set<int>, i: nat, j: int)
    requires i < |g| && !Exact(g, t, i)
    requires 0 <= j < |t| && j !in used && g[i] == Some(t[j])
    requires FreeMatchesSpare(g, t, used, i)
    ensures StatusAt(g, t, i) == IncorrectPosition
    ensures FreeMatchesSpare(g, t, used + {j}, i + 1)
  {
    var c := t[j];
    FreeTake(t, used, j, c, |t|);
    forall d ensures FreeCount(t, used + {j}, d, |t|) + Min(Rank(g, t, d, i + 1), Spare(g, t, d)) == Spare(g, t, d) {
      FreeTake(t, used, j, d, |t|);
    }
  }

  /** A non-exact position whose scan finds nothing is `Incorrect`. */
  lemma PresentMissed(g: seq<Option<char>>, t: seq<char>, used: set<int>, i: nat)
    requires i < |g| && !Exact(g, t, i)
    requires forall m :: 0 <= m < |t| ==> m in used || g[i] != Some(t[m])
    requires FreeMatchesSpare(g, t, used, i)
    ensures StatusAt(g, t, i) == Incorrect
    ensures FreeMatchesSpare(g, t, used, i + 1)
  {
    if g[i].Some? {
      FreeNone(t, used, g[i].value, |t|);
      SpareNonNegative(g, t, g[i].value);
    }
  }

  /** What the second pass leaves in each slot: the rule's entry unless it is `Incorrect`. */
  function PresentMarks(guess: string, target: string): (m: seq<Option<LetterResult>>)
    ensures |m| == |target|
  {
    var want := LocalResult(guess, target);
    seq(|target|, k requires 0 <= k < |target| => if want[k].status == Incorrect then None else Some(want[k]))
  }

  /** The slots after i steps of the second pass. */
  function PresentStage(guess: string, target: string, i: nat): (m: seq<Option<LetterResult>>)
    requires i <= |target|
    ensures |m| == |target|
  {
    seq(|target|, k requires 0 <= k < |target| =>
      if k < i then PresentMarks(guess, target)[k] else ExactMarks(guess, target)[k])
  }

  lemma PresentStageStep(guess: string, target: string, i: nat)
    requires i < |target|
    ensures PresentStage(guess, target, i)[i := PresentMarks(guess, target)[i]] == PresentStage(guess, target, i + 1)
  {
  }

  lemma PresentStageEnds(guess: string, target: string)
    ensures PresentStage(guess, target, 0) == ExactMarks(guess, target)
    ensures PresentStage(guess, target, |target|) == PresentMarks(guess, target)
  {
  }

  /** The used guess positions follow the filled slots from one step to the next. */
  lemma UsedGuessStep(guess: string, target: string, i: nat, usedGuess0: set<int>, usedGuess: set<int>)
    requires i < |target|
    requires forall k :: k in usedGuess0 <==> 0 <= k < |target| && PresentStage(guess, target, i)[k].Some?
    requires usedGuess == if ExactMarks(guess, target)[i].None? && PresentMarks(guess, target)[i].Some?
                          then usedGuess0 + {i} else usedGuess0
    ensures forall k :: k in usedGuess <==> 0 <= k < |target| && PresentStage(guess, target, i + 1)[k].Some?
  {
    PresentStageStep(guess, target, i);
    forall k | 0 <= k < |target| && k != i
      ensures PresentStage(guess, target, i + 1)[k] == PresentStage(guess, target, i)[k]
    {
      assert PresentStage(guess, target, i + 1)[k] == PresentStage(guess, target, i)[i := PresentMarks(guess, target)[i]][k];
    }
    ExactMarkedPresent(guess, target, i);
  }

  /** A slot the first pass fills keeps the same entry in the second. */
  lemma ExactMarkedPresent(guess: string, target: string, i: nat)
    requires i < |target|
    ensures ExactMarks(guess, target)[i].Some? ==> PresentMarks(guess, target)[i] == ExactMarks(guess, target)[i]
  {
    ExactIffCorrect(Pad(guess, |target|), target, i);
  }

  /**
   * One step of the second pass, at position i: an unmarked slot takes
   * the first unused target position holding its letter and becomes
   * `IncorrectPosition`, or stays empty when there is none.
   */
  method MarkPresentAt(guess: string, target: string, marks: array<Option<LetterResult>>,
                       usedTarget0: set<int>, usedGuess0: set<int>, i: nat)
    returns (usedTarget: set<int>, usedGuess: set<int>)
    requires marks.Length == |target| && i < |target|
    requires marks[i] == ExactMarks(guess, target)[i]
    requires forall k :: k in usedTarget0 ==> 0 <= k < |target|
    requires FreeMatchesSpare(Pad(guess, |target|), target, usedTarget0, i)
    modifies marks
    ensures marks[..] == old(marks[..])[i := PresentMarks(guess, target)[i]]
    ensures forall k :: k in usedTarget ==> 0 <= k < |target|
    ensures usedGuess == if ExactMarks(guess, target)[i].None? && PresentMarks(guess, target)[i].Some?
                         then usedGuess0 + {i} else usedGuess0
    ensures FreeMatchesSpare(Pad(guess, |target|), target, usedTarget, i + 1)
  {
    ghost var g := Pad(guess, |target|);
    usedTarget, usedGuess := usedTarget0, usedGuess0;
    if marks[i].Some? {
      ExactSkipped(g, target, usedTarget, i);
      return;
    }
    var j := ScanTarget(LetterAt(guess, i), target, usedTarget);
    if j < |target| {
      PresentTaken(g, target, usedTarget, i, j);
      marks[i] := Some(LetterResult(LetterAt(guess, i), IncorrectPosition));
      usedTarget := usedTarget + {j};
      usedGuess := usedGuess + {i};
    } else {
      PresentMissed(g, target, usedTarget, i);
    }
  }

  /**
   * Second pass: each unmarked position takes the first unused target
   * position that holds its letter and becomes `IncorrectPosition`; a
   * position that finds none stays unmarked.
   */
  method MarkPresent(guess: string, target: string, marks: array<Option<LetterResult>>,
                     usedTarget0: set<int>, usedGuess0: set<int>)
    returns (usedTarget: set<int>, usedGuess: set<int>)
    requires marks.Length == |target|
    requires marks[..] == ExactMarks(guess, target)
    requires forall k :: k in usedTarget0 <==> 0 <= k < |target| && Exact(Pad(guess, |target|), target, k)
    requires usedGuess0 == usedTarget0
    modifies marks
    ensures marks[..] == PresentMarks(guess, target)
    ensures forall k :: k in usedGuess <==> 0 <= k < |target| && marks[k].Some?
  {
    var n := |target|;
    usedTarget, usedGuess := usedTarget0, usedGuess0;
    FreeMatchesSpareInitially(Pad(guess, n), target, usedTarget);
    PresentStageEnds(guess, target);
    for i := 0 to n
      invariant marks[..] == PresentStage(guess, target, i)
      invariant forall k :: k in usedTarget ==> 0 <= k < n
      invariant forall k :: k in usedGuess <==> 0 <= k < n && PresentStage(guess, target, i)[k].Some?
      invariant FreeMatchesSpare(Pad(guess, n), target, usedTarget, i)
    {
      assert marks[i] == marks[..][i];
      ghost var usedGuess0 := usedGuess;
      usedTarget, usedGuess := MarkPresentAt(guess, target, marks, usedTarget, usedGuess, i);
      PresentStageStep(guess, target, i);
      UsedGuessStep(guess, target, i, usedGuess0, usedGuess);
    }
    assert forall k :: 0 <= k < n ==> marks[k] == marks[..][k];
  }

  /** The slots after i steps of the third pass. */
  function AbsentStage(guess: string, target: string, i: nat): (m: seq<Option<LetterResult>>)
    requires i <= |target|
    ensures |m| == |target|
  {
    seq(|target|, k requires 0 <= k < |target| =>
      if k < i then Some(LocalResult(guess, target)[k]) else PresentMarks(guess, target)[k])
  }

  /** An empty slot after the second pass is the rule's `Incorrect` entry for that position. */
  lemma EmptyIsIncorrect(guess: string, target: string, i: nat)
    requires i < |target|
    ensures PresentMarks(guess, target)[i].None? ==>
      LocalResult(guess, target)[i] == LetterResult(LetterAt(guess, i), Incorrect)
    ensures PresentMarks(guess, target)[i].Some? ==> PresentMarks(guess, target)[i] == Some(LocalResult(guess, target)[i])
  {
    assert Pad(guess, |target|)[i] == LetterAt(guess, i);
  }

  /** An empty slot at i is the rule's `Incorrect` entry; a filled one is already the rule's entry. */
  lemma AbsentStageStep(guess: string, target: string, i: nat)
    requires i < |target|
    ensures AbsentStage(guess, target, i)[i] == PresentMarks(guess, target)[i]
    ensures PresentMarks(guess, target)[i].None? ==>
      AbsentStage(guess, target, i)[i := Some(LetterResult(LetterAt(guess, i), Incorrect))] == AbsentStage(guess, target, i + 1)
    ensures PresentMarks(guess, target)[i].Some? ==> AbsentStage(guess, target, i) == AbsentStage(guess, target, i + 1)
  {
    EmptyIsIncorrect(guess, target, i);
    var a, b := AbsentStage(guess, target, i), AbsentStage(guess, target, i + 1);
    var x := Some(LocalResult(guess, target)[i]);
    assert b == a[i := x] by {
      forall k | 0 <= k < |target| ensures b[k] == a[i := x][k] {
      }
    }
  }

  /** Third pass: every position still unmarked becomes `Incorrect`. */
  method MarkAbsent(guess: string, target: string, marks: array<Option<LetterResult>>)
    requires marks.Length == |target|
    requires marks[..] == PresentMarks(guess, target)
    modifies marks
    ensures forall k :: 0 <= k < |target| ==> marks[k] == Some(LocalResult(guess, target)[k])
  {
    assert AbsentStage(guess, target, 0) == PresentMarks(guess, target);
    for i := 0 to |target|
      invariant marks[..] == AbsentStage(guess, target, i)
    {
      AbsentStageStep(guess, target, i);
      assert marks[i] == marks[..][i];
      if marks[i].None? {
        marks[i] := Some(LetterResult(LetterAt(guess, i), Incorrect));
      }
    }
    assert forall k :: 0 <= k < |target| ==> marks[k] == marks[..][k];
  }

  /**
   * `evaluateGuessLocal`: three passes over the target's positions. The
   * result is the duplicate-letter rule of `Evaluation`, so it has one
   * entry per target letter, carries the guess letter at each position,
   * and is `Correct` exactly at the exact matches.
   */
  method EvaluateGuessLocal(guess: string, target: string) returns (r: seq<LetterResult>)
    ensures r == LocalResult(guess, target)
  {
    var marks := new Option<LetterResult>[|target|](_ => None);
    var usedTarget, usedGuess := MarkExact(guess, target, marks);
    usedTarget, usedGuess := MarkPresent(guess, target, marks, usedTarget, usedGuess);
    MarkAbsent(guess, target, marks);
    r := seq(|target|, k requires 0 <= k < |target| && marks[k].Some? reads marks => marks[k].value);
  }

  /**
   * `isWordInList`: the word is looked up exactly as given (the caller
   * upper-cases it) in the list for its length.
   */
  function IsWordInList(lists: WordLists, word: string): bool
  {
    lists.Contains(word)
  }

  /** Lengths other than 4, 5 and 6 are refused; the others select their own list. */
  lemma IsWordInListDispatch(lists: WordLists, word: string)
    ensures !(4 <= |word| <= 6) ==> !IsWordInList(lists, word)
    ensures |word| == 4 ==> (IsWordInList(lists, word) <==> word in lists.four)
    ensures |word| == 5 ==> (IsWordInList(lists, word) <==> word in lists.five)
    ensures |word| == 6 ==> (IsWordInList(lists, word) <==> word in lists.six)
  {
  }

  // ----- Properties of the client's evaluation -----

  /** One entry per target letter, each carrying the guess letter at its position. */
  lemma LocalShape(guess: string, target: string)
    ensures |LocalResult(guess, target)| == |target|
    ensures forall i :: 0 <= i < |target| ==> LocalResult(guess, target)[i].letter == LetterAt(guess, i)
  {
  }

  /** An entry is `Correct` exactly when guess and target agree at that position. */
  lemma LocalCorrectIffSameLetter(guess: string, target: string, i: nat)
    requires i < |target|
    ensures LocalResult(guess, target)[i].status == Correct <==> i < |guess| && guess[i] == target[i]
  {
    ExactIffCorrect(Pad(guess, |target|), target, i);
  }

  /**
   * On words of equal length, the entries for letter c that are `Correct`
   * or `IncorrectPosition` number min(count of c in guess, count in target).
   */
  lemma LocalConservation(guess: string, target: string, c: char)
    requires |guess| == |target|
    ensures Credited(LocalResult(guess, target), c, |target|) == Min(Count(guess, c), Count(target, c))
  {
    assert Pad(guess, |target|) == Lift(guess);
    WordConservation(guess, target, c);
  }

  /** Guessing the target itself gives `Correct` everywhere. */
  lemma LocalEqualAllCorrect(target: string)
    ensures AllCorrect(LocalResult(target, target))
  {
    assert Pad(target, |target|) == Lift(target);
    EqualAllCorrect(target);
  }

  /** A guess that shares no letter with the target gives `Incorrect` everywhere. */
  lemma LocalDisjointAllIncorrect(guess: string, target: string)
    requires forall i, j :: 0 <= i < |guess| && 0 <= j < |target| ==> guess[i] != target[j]
    ensures forall i :: 0 <= i < |target| ==> LocalResult(guess, target)[i].status == Incorrect
  {
    DisjointAllIncorrect(Pad(guess, |target|), target);
  }

  /**
   * The client measures the guess by the target's length, so a longer
   * guess that starts with the target is judged all `Correct`.
   */
  lemma LongerGuessWithTargetPrefixAllCorrect(guess: string, target: string)
    requires |guess| >= |target| && guess[..|target|] == target
    ensures AllCorrect(LocalResult(guess, target))
  {
    forall i | 0 <= i < |target| ensures LocalResult(guess, target)[i].status == Correct {
      assert guess[i] == guess[..|target|][i];
    }
  }
}
