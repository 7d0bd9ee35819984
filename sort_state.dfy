/** The three-state sort toggle and the indicator each header shows. */
module SortState {
  import opened Products

  /** Key and direction are set together and cleared together. */
  predicate WellFormed(c: SortConfig)
  {
    c.key.None? <==> c.direction.None?
  }

  /**
    The configuration after pressing `key`'s header button: ascending becomes
    descending, descending clears the sort, and anything else starts ascending.
  */
  function NextSortConfig(c: SortConfig, key: SortKey): (r: SortConfig)
    ensures WellFormed(r)
    ensures r == Unsorted <==> c == SortConfig(Some(key), Some(Descending))
    ensures r != Unsorted ==> r.key == Some(key)
    ensures c == SortConfig(Some(key), Some(Ascending)) ==> r == SortConfig(Some(key), Some(Descending))
    ensures c.key != Some(key) ==> r == SortConfig(Some(key), Some(Ascending))
  {
    if c.key == Some(key) && c.direction == Some(Ascending) then SortConfig(Some(key), Some(Descending))
    else if c.key == Some(key) && c.direction == Some(Descending) then Unsorted
    else SortConfig(Some(key), Some(Ascending))
  }

  /**
    Repeated presses of one button cycle through ascending, descending and
    unsorted: from that button's own states (or no sort at all) three presses
    come back to the start, and from any state the fourth press repeats the first.
  */
  lemma SortCycle(c: SortConfig, key: SortKey)
    ensures NextSortConfig(NextSortConfig(NextSortConfig(NextSortConfig(c, key), key), key), key)
            == NextSortConfig(c, key)
    ensures WellFormed(c) && (c.key.None? || c.key == Some(key)) ==>
            NextSortConfig(NextSortConfig(NextSortConfig(c, key), key), key) == c
  {
    if WellFormed(c) && c.key == Some(key) {
      if c.direction.value == Ascending {
        assert c == SortConfig(Some(key), Some(Ascending));
      } else {
        assert c == SortConfig(Some(key), Some(Descending));
      }
    }
  }

  /** The glyph a header shows: neutral, ascending, descending, or none at all. */
  datatype SortIcon = Neutral | AscendingIcon | DescendingIcon | NoIcon

  function SortIconFor(c: SortConfig, key: SortKey): (r: SortIcon)
    ensures r == Neutral <==> c.key != Some(key)
    ensures r == AscendingIcon <==> c == SortConfig(Some(key), Some(Ascending))
    ensures r == DescendingIcon <==> c == SortConfig(Some(key), Some(Descending))
  {
    if c.key != Some(key) then Neutral
    else if c.direction == Some(Ascending) then AscendingIcon
    else if c.direction == Some(Descending) then DescendingIcon
    else NoIcon
  }

  /** A well-formed configuration never leaves a header without a glyph. */
  lemma WellFormedHasIcon(c: SortConfig, key: SortKey)
    requires WellFormed(c)
    ensures SortIconFor(c, key) != NoIcon
  {
    if c.key == Some(key) {
      if c.direction.value == Ascending {
        assert c == SortConfig(Some(key), Some(Ascending));
      } else {
        assert c == SortConfig(Some(key), Some(Descending));
      }
    }
  }

  /** After a press, only the pressed column can show a direction. */
  lemma IconsAfterPress(c: SortConfig, key: SortKey, other: SortKey)
    requires other != key
    ensures SortIconFor(NextSortConfig(c, key), other) == Neutral
    ensures SortIconFor(NextSortConfig(c, key), key) != NoIcon
  {
  }
}
