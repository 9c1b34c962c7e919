/** The server's helpers (backend/helpers/helpers.go). */
module Helpers {
  import opened Wrappers
  import opened Text
  import opened Dictionary

  /**
   * `IsWordInList`: the word is trimmed and upper-cased, then looked up in
   * the list for its normalised length.
   */
  function IsWordInList(lists: WordLists, word: string): (r: bool)
    ensures r ==> 4 <= |Normalize(word)| <= 6
    ensures lists.WellFormed() ==> (r <==> Normalize(word) in lists.AllWords())
  {
    lists.Contains(Normalize(word))
  }

  /** Checking a word and checking its normalised form give the same answer. */
  lemma IsWordInListNormalized(lists: WordLists, word: string)
    ensures IsWordInList(lists, word) == IsWordInList(lists, Normalize(word))
  {
    NormalizeIdempotent(word);
  }

  /** Lengths other than 4, 5 and 6 after normalisation are refused; the others select their own list. */
  lemma IsWordInListDispatch(lists: WordLists, word: string)
    ensures !(4 <= |Normalize(word)| <= 6) ==> !IsWordInList(lists, word)
    ensures |Normalize(word)| == 4 ==> (IsWordInList(lists, word) <==> Normalize(word) in lists.four)
    ensures |Normalize(word)| == 5 ==> (IsWordInList(lists, word) <==> Normalize(word) in lists.five)
    ensures |Normalize(word)| == 6 ==> (IsWordInList(lists, word) <==> Normalize(word) in lists.six)
  {
  }

  /** `m` is what `SELECT MAX(id)` answers for a table whose ids are `ids` (NULL when empty). */
  ghost predicate IsMaxOf(m: Option<int>, ids: set<int>)
  {
    && (m.None? <==> ids == {})
    && (m.Some? ==> m.value in ids && forall k :: k in ids ==> k <= m.value)
  }

  lemma NonEmptyHasMember(ids: set<int>)
    requires ids != {}
    ensures exists k :: k in ids
  {
    if forall k :: k !in ids {
      assert false;
    }
  }

  /**
   * The `SELECT MAX(id)` query of `GetNextID`, as a scan over the ids in
   * the table.
   */
  method QueryMaxId(ids: set<int>) returns (m: Option<int>)
    ensures IsMaxOf(m, ids)
  {
    m := None;
    var rest := ids;
    while rest != {}
      invariant rest <= ids
      invariant IsMaxOf(m, ids - rest)
      decreases rest
    {
      NonEmptyHasMember(rest);
      var k :| k in rest;
      ghost var seen := ids - rest;
      if m.None? || m.value < k {
        m := Some(k);
      }
      rest := rest - {k};
      assert ids - rest == seen + {k};
    }
    assert ids - rest == ids;
  }

  /** `GetNextID` after its query: one more than the largest id, or 1 for an empty table. */
  function NextId(maxId: Option<int>): (id: int)
    ensures maxId.None? ==> id == 1
    ensures maxId.Some? ==> id > maxId.value
  {
    if maxId.Some? then maxId.value + 1 else 1
  }

  /** `id` is what `GetNextID` answers for a table whose ids are `ids`. */
  ghost predicate IsNextId(id: int, ids: set<int>)
  {
    && (ids == {} ==> id == 1)
    && (ids != {} ==> id - 1 in ids && forall k :: k in ids ==> k < id)
  }

  /**
   * `GetNextID`: one more than the largest id, or 1 for an empty table;
   * either way above every id in the table, hence unused.
   */
  lemma NextIdIsFresh(maxId: Option<int>, ids: set<int>)
    requires IsMaxOf(maxId, ids)
    ensures IsNextId(NextId(maxId), ids)
    ensures forall k :: k in ids ==> k < NextId(maxId)
    ensures NextId(maxId) !in ids
  {
  }
}
