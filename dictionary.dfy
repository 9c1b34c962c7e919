/**
 * The three curated word lists, one per supported word length. Their
 * contents are not part of this model: they are arbitrary sets of strings.
 */
module Dictionary {

  datatype WordLists = WordLists(four: set<string>, five: set<string>, six: set<string>)
  {
    /** Every list holds only words of its own length. */
    predicate WellFormed()
    {
      && (forall w :: w in four ==> |w| == 4)
      && (forall w :: w in five ==> |w| == 5)
      && (forall w :: w in six ==> |w| == 6)
    }

    function AllWords(): set<string>
    {
      four + five + six
    }

    /**
     * The length dispatch both halves share: a word of length 4, 5 or 6 is
     * looked up in the list for that length; any other length is refused.
     */
    function Contains(word: string): (r: bool)
      ensures r ==> 4 <= |word| <= 6
      ensures r ==> word in AllWords()
      ensures WellFormed() ==> (r <==> word in AllWords())
    {
      match |word|
      case 4 => word in four
      case 5 => word in five
      case 6 => word in six
      case _ => false
    }
  }
}
