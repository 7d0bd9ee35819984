/**
  The selected ids: a list the grid uses as a set. Every transition here is one
  of the list expressions the handlers pass to `setSelectedRows`.
*/
module Selection {

  predicate NoDuplicates(s: seq<int>)
  {
    forall i, j :: 0 <= i < j < |s| ==> s[i] != s[j]
  }

  /** `s.filter(x => !ids.includes(x))`. */
  function Without(s: seq<int>, ids: seq<int>): (r: seq<int>)
    ensures |r| <= |s|
  {
    if s == [] then [] else (if s[0] in ids then [] else [s[0]]) + Without(s[1..], ids)
  }

  /** Exactly the values of `s` outside `ids` survive the filter. */
  lemma {:induction false} WithoutMembers(s: seq<int>, ids: seq<int>)
    ensures forall x :: x in Without(s, ids) <==> x in s && x !in ids
  {
    if s != [] {
      WithoutMembers(s[1..], ids);
      assert s == [s[0]] + s[1..];
    }
  }

  /** Filtering out a superset of the values leaves nothing. */
  lemma {:induction false} WithoutEverything(s: seq<int>, ids: seq<int>)
    requires forall i :: 0 <= i < |s| ==> s[i] in ids
    ensures Without(s, ids) == []
  {
    if s != [] {
      WithoutEverything(s[1..], ids);
    }
  }

  /** Filtering works element by element, so it keeps the relative order of what it keeps. */
  lemma {:induction false} WithoutAppend(a: seq<int>, b: seq<int>, ids: seq<int>)
    ensures Without(a + b, ids) == Without(a, ids) + Without(b, ids)
  {
    if a == [] {
      assert a + b == b;
    } else {
      var first := if a[0] in ids then [] else [a[0]];
      WithoutAppend(a[1..], b, ids);
      assert (a + b)[0] == a[0] && (a + b)[1..] == a[1..] + b;
      assert Without(a + b, ids) == first + Without(a[1..] + b, ids);
      assert Without(a, ids) == first + Without(a[1..], ids);
    }
  }

  lemma {:induction false} WithoutNothing(s: seq<int>, ids: seq<int>)
    requires forall i :: 0 <= i < |s| ==> s[i] !in ids
    ensures Without(s, ids) == s
  {
    if s != [] {
      WithoutNothing(s[1..], ids);
      assert s == [s[0]] + s[1..];
    }
  }

  lemma {:induction false} WithoutKeepsNoDuplicates(s: seq<int>, ids: seq<int>)
    requires NoDuplicates(s)
    ensures NoDuplicates(Without(s, ids))
  {
    if s != [] {
      WithoutKeepsNoDuplicates(s[1..], ids);
      WithoutMembers(s[1..], ids);
      assert s[0] !in s[1..];
    }
  }

  /** `handleRowSelect`: drop every copy of `id` if present, else append it. */
  function Toggle(selected: seq<int>, id: int): (r: seq<int>)
    ensures id in r <==> id !in selected
    ensures forall x :: x != id ==> (x in r <==> x in selected)
  {
    WithoutMembers(selected, [id]);
    if id in selected then Without(selected, [id]) else selected + [id]
  }

  lemma ToggleKeepsNoDuplicates(selected: seq<int>, id: int)
    requires NoDuplicates(selected)
    ensures NoDuplicates(Toggle(selected, id))
  {
    if id in selected {
      WithoutKeepsNoDuplicates(selected, [id]);
    }
  }

  /** Toggling an unselected id twice gives back the very same list. */
  lemma ToggleTwice(selected: seq<int>, id: int)
    requires id !in selected
    ensures Toggle(Toggle(selected, id), id) == selected
  {
    WithoutAppend(selected, [id], [id]);
    WithoutNothing(selected, [id]);
  }

  /**
    The values of `s` a JavaScript `Set` that already holds `seen` would add, in
    the order it adds them: each value not yet present, at its first occurrence.
  */
  function AddNew(seen: seq<int>, s: seq<int>): (r: seq<int>)
    ensures |r| <= |s|
    decreases |s|
  {
    if s == [] then []
    else if s[0] in seen then AddNew(seen, s[1..])
    else [s[0]] + AddNew(seen + [s[0]], s[1..])
  }

  /** `[...new Set(s)]`: insertion order, each value once. */
  function Dedup(s: seq<int>): seq<int>
  {
    AddNew([], s)
  }

  /** The set adds exactly the unseen values, and none twice. */
  lemma {:induction false} AddNewMembers(seen: seq<int>, s: seq<int>)
    ensures forall x :: x in AddNew(seen, s) ==> x in s && x !in seen
    ensures forall x :: x in s && x !in seen ==> x in AddNew(seen, s)
    ensures NoDuplicates(AddNew(seen, s))
    decreases |s|
  {
    if s != [] {
      assert s == [s[0]] + s[1..];
      if s[0] in seen {
        AddNewMembers(seen, s[1..]);
      } else {
        AddNewMembers(seen + [s[0]], s[1..]);
        var rest := AddNew(seen + [s[0]], s[1..]);
        assert s[0] in seen + [s[0]];
        assert forall x :: x in rest ==> x != s[0];
        assert AddNew(seen, s) == [s[0]] + rest;
        assert forall x :: x in seen + [s[0]] <==> x in seen || x == s[0];
      }
    }
  }

  /** Nothing is added when every value is already present. */
  lemma {:induction false} AddNewNothing(seen: seq<int>, s: seq<int>)
    requires forall i :: 0 <= i < |s| ==> s[i] in seen
    ensures AddNew(seen, s) == []
  {
    if s != [] {
      AddNewNothing(seen, s[1..]);
    }
  }

  /**
    Values with no repeats, none already present, are all added in order, and
    afterwards count as seen.
  */
  lemma {:induction false} AddNewAppend(seen: seq<int>, a: seq<int>, b: seq<int>)
    requires NoDuplicates(a)
    requires forall i :: 0 <= i < |a| ==> a[i] !in seen
    ensures AddNew(seen, a + b) == a + AddNew(seen + a, b)
    decreases |a|
  {
    if a == [] {
      assert a + b == b && seen + a == seen;
    } else {
      assert (a + b)[0] == a[0] && (a + b)[1..] == a[1..] + b;
      assert forall i :: 0 <= i < |a[1..]| ==> a[1..][i] != a[0];
      AddNewAppend(seen + [a[0]], a[1..], b);
      assert seen + [a[0]] + a[1..] == seen + a;
    }
  }

  /** The header checkbox ticked: the page's ids join the selection. */
  function SelectAll(selected: seq<int>, pageIds: seq<int>): (r: seq<int>)
    ensures forall x :: x in r <==> x in selected || x in pageIds
    ensures NoDuplicates(r)
  {
    AddNewMembers([], selected + pageIds);
    Dedup(selected + pageIds)
  }

  /**
    Ticking keeps the old selection first, in its order, followed by the page's
    ids that were not selected yet, each once.
  */
  lemma SelectAllAppends(selected: seq<int>, pageIds: seq<int>)
    requires NoDuplicates(selected)
    ensures SelectAll(selected, pageIds) == selected + AddNew(selected, pageIds)
  {
    AddNewAppend([], selected, pageIds);
    assert [] + selected == selected;
  }

  /** Ticking twice is the same as ticking once. */
  lemma SelectAllIdempotent(selected: seq<int>, pageIds: seq<int>)
    ensures SelectAll(SelectAll(selected, pageIds), pageIds) == SelectAll(selected, pageIds)
  {
    var r := SelectAll(selected, pageIds);
    SelectAllAppends(r, pageIds);
    AddNewNothing(r, pageIds);
  }

  /** The header checkbox cleared: exactly the page's ids leave the selection. */
  function UnselectAll(selected: seq<int>, pageIds: seq<int>): (r: seq<int>)
    ensures forall x :: x in r <==> x in selected && x !in pageIds
  {
    WithoutMembers(selected, pageIds);
    Without(selected, pageIds)
  }

  /**
    Ticking then clearing the header checkbox leaves the selections of the other
    pages, in their order.
  */
  lemma SelectThenUnselect(selected: seq<int>, pageIds: seq<int>)
    requires NoDuplicates(selected)
    ensures UnselectAll(SelectAll(selected, pageIds), pageIds) == UnselectAll(selected, pageIds)
  {
    var added := AddNew(selected, pageIds);
    SelectAllAppends(selected, pageIds);
    WithoutAppend(selected, added, pageIds);
    AddNewMembers(selected, pageIds);
    assert forall i :: 0 <= i < |added| ==> added[i] in pageIds;
    WithoutEverything(added, pageIds);
  }
}
