/**
 * The duplicate-letter rule of Wordle, stated declaratively. Both
 * evaluators in the repository (the client's index-based three passes and
 * the server's letter-count two passes) are proved equal to `Annotate`.
 *
 * A guess is a sequence of optional letters, so that positions where the
 * client reads past the end of a short guess (`undefined`) never match.
 * Position i is an exact match when the target has the same letter at i.
 * Every other position holding letter c is `IncorrectPosition` exactly
 * when fewer earlier non-exact positions hold c than there are target
 * occurrences of c left over after the exact matches (`Spare`): the spare
 * occurrences go to the non-exact guess positions from left to right.
 */
module Evaluation {
  import opened Wrappers
  import opened Types

  /** Number of occurrences of `c` in `s`. */
  function Count(s: seq<char>, c: char): nat
  {
    if s == [] then 0 else Count(s[..|s| - 1], c) + (if s[|s| - 1] == c then 1 else 0)
  }

  function Min(a: int, b: int): int
  {
    if a <= b then a else b
  }

  /** Guess position i holds the target's letter at i. */
  predicate Exact(g: seq<Option<char>>, t: seq<char>, i: nat)
    requires i < |g|
  {
    i < |t| && g[i] == Some(t[i])
  }

  /** Exact matches of letter `c` among the first `n` guess positions. */
  function ExactCount(g: seq<Option<char>>, t: seq<char>, c: char, n: nat): nat
    requires n <= |g|
  {
    if n == 0 then 0
    else ExactCount(g, t, c, n - 1) + (if Exact(g, t, n - 1) && t[n - 1] == c then 1 else 0)
  }

  /** Non-exact guess positions before `i` that hold letter `c`. */
  function Rank(g: seq<Option<char>>, t: seq<char>, c: char, i: nat): nat
    requires i <= |g|
  {
    if i == 0 then 0
    else Rank(g, t, c, i - 1) + (if !Exact(g, t, i - 1) && g[i - 1] == Some(c) then 1 else 0)
  }

  /** Target occurrences of `c` not taken by an exact match. */
  function Spare(g: seq<Option<char>>, t: seq<char>, c: char): int
  {
    Count(t, c) - ExactCount(g, t, c, |g|)
  }

  /** The verdict on guess position i. */
  function StatusAt(g: seq<Option<char>>, t: seq<char>, i: nat): Status
    requires i < |g|
  {
    if Exact(g, t, i) then Correct
    else if g[i].Some? && Rank(g, t, g[i].value, i) < Spare(g, t, g[i].value) then IncorrectPosition
    else Incorrect
  }

  /** The evaluated guess: every position with its letter and verdict. */
  function Annotate(g: seq<Option<char>>, t: seq<char>): (r: seq<LetterResult>)
    ensures |r| == |g|
    ensures forall i :: 0 <= i < |g| ==> r[i].letter == g[i]
  {
    seq(|g|, i requires 0 <= i < |g| => LetterResult(g[i], StatusAt(g, t, i)))
  }

  /** The letters of a word, each present. */
  function Lift(s: string): (g: seq<Option<char>>)
    ensures |g| == |s|
    ensures forall i :: 0 <= i < |s| ==> g[i] == Some(s[i])
  {
    seq(|s|, i requires 0 <= i < |s| => Some(s[i]))
  }

  /** Positions of `g` holding letter `c`. */
  function Occurrences(g: seq<Option<char>>, c: char, n: nat): nat
    requires n <= |g|
  {
    if n == 0 then 0 else Occurrences(g, c, n - 1) + (if g[n - 1] == Some(c) then 1 else 0)
  }

  /** Positions of `r` holding letter `c` that are not `Incorrect`. */
  function Credited(r: seq<LetterResult>, c: char, n: nat): nat
    requires n <= |r|
  {
    if n == 0 then 0
    else Credited(r, c, n - 1) + (if r[n - 1].letter == Some(c) && r[n - 1].status != Incorrect then 1 else 0)
  }

  // ----- Counting facts -----

  lemma {:induction false} CountSnoc(s: seq<char>, k: nat, c: char)
    requires k < |s|
    ensures Count(s[..k + 1], c) == Count(s[..k], c) + (if s[k] == c then 1 else 0)
  {
    assert s[..k + 1][..k] == s[..k];
  }

  lemma {:induction false} CountAbsent(s: seq<char>, c: char)
    requires forall j :: 0 <= j < |s| ==> s[j] != c
    ensures Count(s, c) == 0
  {
    if s != [] {
      CountAbsent(s[..|s| - 1], c);
    }
  }

  /** An exact match of `c` takes a distinct occurrence of `c` in the target. */
  lemma {:induction false} ExactCountBound(g: seq<Option<char>>, t: seq<char>, c: char, n: nat)
    requires n <= |g|
    ensures ExactCount(g, t, c, n) <= Count(t[..Min(n, |t|)], c)
  {
    if n > 0 {
      ExactCountBound(g, t, c, n - 1);
      if n <= |t| {
        CountSnoc(t, n - 1, c);
      }
    }
  }

  /** The spare count of every letter is never negative. */
  lemma SpareNonNegative(g: seq<Option<char>>, t: seq<char>, c: char)
    ensures Spare(g, t, c) >= 0
  {
    ExactCountBound(g, t, c, |g|);
    assert t[..Min(|g|, |t|)] == t || |g| < |t|;
    if |g| < |t| {
      CountPrefixBound(t, |g|, c);
    }
  }

  lemma {:induction false} CountPrefixBound(s: seq<char>, k: nat, c: char)
    requires k <= |s|
    ensures Count(s[..k], c) <= Count(s, c)
    decreases |s| - k
  {
    if k < |s| {
      CountSnoc(s, k, c);
      CountPrefixBound(s, k + 1, c);
    } else {
      assert s[..k] == s;
    }
  }

  /** Occurrences split into exact ones and non-exact ones. */
  lemma {:induction false} OccurrencesSplit(g: seq<Option<char>>, t: seq<char>, c: char, n: nat)
    requires n <= |g|
    ensures Occurrences(g, c, n) == ExactCount(g, t, c, n) + Rank(g, t, c, n)
  {
    if n > 0 {
      OccurrencesSplit(g, t, c, n - 1);
    }
  }

  /** Among the first n positions, exact matches plus the spare occurrences handed out so far. */
  lemma {:induction false} CreditedPrefix(g: seq<Option<char>>, t: seq<char>, c: char, n: nat)
    requires n <= |g|
    ensures Credited(Annotate(g, t), c, n)
         == ExactCount(g, t, c, n) + Min(Rank(g, t, c, n), Spare(g, t, c))
  {
    if n == 0 {
      SpareNonNegative(g, t, c);
    } else {
      CreditedPrefix(g, t, c, n - 1);
      CreditedAt(g, t, c, n);
    }
  }

  /** What position n - 1 adds to the credited count: its exact match, or its share of the spare occurrences. */
  lemma CreditedAt(g: seq<Option<char>>, t: seq<char>, c: char, n: nat)
    requires 0 < n <= |g|
    ensures Credited(Annotate(g, t), c, n) - Credited(Annotate(g, t), c, n - 1)
      == (ExactCount(g, t, c, n) - ExactCount(g, t, c, n - 1))
       + (Min(Rank(g, t, c, n), Spare(g, t, c)) - Min(Rank(g, t, c, n - 1), Spare(g, t, c)))
  {
    SpareNonNegative(g, t, c);
  }

  // ----- Properties of the rule -----

  /** A position is `Correct` exactly when it is an exact match. */
  lemma ExactIffCorrect(g: seq<Option<char>>, t: seq<char>, i: nat)
    requires i < |g|
    ensures Annotate(g, t)[i].status == Correct <==> i < |t| && g[i] == Some(t[i])
  {
  }

  /**
   * Letter conservation: the positions holding `c` that score `Correct`
   * or `IncorrectPosition` number min(occurrences in guess, occurrences in
   * target); in particular no target occurrence is credited twice.
   */
  lemma Conservation(g: seq<Option<char>>, t: seq<char>, c: char)
    ensures Credited(Annotate(g, t), c, |g|) == Min(Occurrences(g, c, |g|), Count(t, c))
  {
    CreditedPrefix(g, t, c, |g|);
    OccurrencesSplit(g, t, c, |g|);
  }

  /** Occurrences of a letter in a lifted word are its occurrences in the word. */
  lemma {:induction false} OccurrencesOfLift(s: string, c: char, n: nat)
    requires n <= |s|
    ensures Occurrences(Lift(s), c, n) == Count(s[..n], c)
  {
    if n > 0 {
      OccurrencesOfLift(s, c, n - 1);
      CountSnoc(s, n - 1, c);
    }
  }

  /** The letters of ERASE that the example below needs, counted. */
  lemma EraseCounts()
    ensures Count("ERASE", 'S') == 1 && Count("ERASE", 'E') == 2 && Count("ERASE", 'P') == 0 && Count("ERASE", 'D') == 0
  {
    var t := "ERASE";
    assert t[..4] == "ERAS" && t[..4][..3] == "ERA" && t[..4][..3][..2] == "ER" && t[..4][..3][..2][..1] == "E";
    assert Count("E", 'S') == 0 && Count("E", 'E') == 1 && Count("E", 'P') == 0 && Count("E", 'D') == 0;
    assert Count("ER", 'E') == 1 && Count("ERA", 'E') == 1 && Count("ERAS", 'E') == 1;
    assert Count("ER", 'S') == 0 && Count("ERA", 'S') == 0;
  }

  /**
   * The duplicate-letter rule on target ERASE and guess SPEED: both Es of
   * the guess are yellow because the target has two spare Es, the S is
   * yellow, and P and D are grey.
   */
  lemma EraseSpeed()
    ensures var r := Annotate(Lift("SPEED"), "ERASE");
      && r[0].status == IncorrectPosition && r[1].status == Incorrect && r[2].status == IncorrectPosition
      && r[3].status == IncorrectPosition && r[4].status == Incorrect
  {
    var g, t := Lift("SPEED"), "ERASE";
    EraseCounts();
    assert g == [Some('S'), Some('P'), Some('E'), Some('E'), Some('D')];
    assert ExactCount(g, t, 'S', 5) == 0 && ExactCount(g, t, 'E', 5) == 0;
    assert ExactCount(g, t, 'P', 5) == 0 && ExactCount(g, t, 'D', 5) == 0;
    assert Rank(g, t, 'E', 3) == 1;
  }

  /** Letter conservation for a guess that is a whole word. */
  lemma WordConservation(guess: string, target: string, c: char)
    ensures Credited(Annotate(Lift(guess), target), c, |guess|) == Min(Count(guess, c), Count(target, c))
  {
    Conservation(Lift(guess), target, c);
    OccurrencesOfLift(guess, c, |guess|);
    assert guess[..|guess|] == guess;
  }

  /** A guess equal to the target scores `Correct` everywhere. */
  lemma EqualAllCorrect(w: string)
    ensures AllCorrect(Annotate(Lift(w), w))
  {
  }

  /** On words of equal length, all `Correct` means the guess is the target. */
  lemma AllCorrectIffEqual(guess: string, target: string)
    requires |guess| == |target|
    ensures AllCorrect(Annotate(Lift(guess), target)) <==> guess == target
  {
    if AllCorrect(Annotate(Lift(guess), target)) {
      forall i | 0 <= i < |guess| ensures guess[i] == target[i] {
        assert Annotate(Lift(guess), target)[i].status == Correct;
      }
    }
  }

  /** A guess sharing no letter with the target scores `Incorrect` everywhere. */
  lemma DisjointAllIncorrect(g: seq<Option<char>>, t: seq<char>)
    requires forall i, j :: 0 <= i < |g| && 0 <= j < |t| ==> g[i] != Some(t[j])
    ensures forall i :: 0 <= i < |g| ==> Annotate(g, t)[i].status == Incorrect
  {
    forall i | 0 <= i < |g| && g[i].Some?
      ensures Spare(g, t, g[i].value) <= 0
    {
      var c := g[i].value;
      assert forall j :: 0 <= j < |t| ==> t[j] != c by {
        forall j | 0 <= j < |t| ensures t[j] != c {
          assert g[i] != Some(t[j]);
        }
      }
      CountAbsent(t, c);
    }
  }
}
