/**
  The comparators `sortData` hands to `Array.prototype.sort`, and a stable
  insertion sort standing for that call.
*/
module Sorting {
  import opened Products

  /** `String.prototype.localeCompare`: negative, zero or positive. */
  type LocaleCompare = (string, string) -> int

  /**
    What the sort needs of `localeCompare`: swapping the operands flips the sign,
    and "not after" is transitive. Any locale's collation has both properties.
  */
  ghost predicate ValidLocaleCompare(lc: LocaleCompare)
  {
    && (forall s, t :: lc(s, t) < 0 <==> lc(t, s) > 0)
    && (forall s, t, u :: lc(s, t) <= 0 && lc(t, u) <= 0 ==> lc(s, u) <= 0)
  }

  /** Everything one sort call depends on. */
  datatype Order = Order(lc: LocaleCompare, key: SortKey, direction: SortDirection)

  /** The ascending comparator for a key: price difference, or string collation. */
  function KeyCompare(lc: LocaleCompare, key: SortKey, a: Product, b: Product): int
  {
    match key
    case Price => a.price - b.price
    case Name => lc(a.name, b.name)
    case Available => lc(a.available, b.available)
  }

  /** Descending swaps the operands of the ascending comparator. */
  function Compare(o: Order, a: Product, b: Product): int
  {
    match o.direction
    case Ascending => KeyCompare(o.lc, o.key, a, b)
    case Descending => KeyCompare(o.lc, o.key, b, a)
  }

  /** `a` may come before `b`. */
  predicate Le(o: Order, a: Product, b: Product)
  {
    Compare(o, a, b) <= 0
  }

  /** `a` and `b` compare equal, so a stable sort keeps their relative order. */
  predicate Tied(o: Order, a: Product, b: Product)
  {
    Le(o, a, b) && Le(o, b, a)
  }

  lemma LeTotal(o: Order, a: Product, b: Product)
    requires ValidLocaleCompare(o.lc)
    ensures Le(o, a, b) || Le(o, b, a)
  {
    match o.key
    case Price =>
    case Name => assert o.lc(a.name, b.name) < 0 <==> o.lc(b.name, a.name) > 0;
    case Available => assert o.lc(a.available, b.available) < 0 <==> o.lc(b.available, a.available) > 0;
  }

  lemma LeTransitive(o: Order, a: Product, b: Product, c: Product)
    requires ValidLocaleCompare(o.lc)
    requires Le(o, a, b) && Le(o, b, c)
    ensures Le(o, a, c)
  {
    match o.key
    case Price =>
    case Name =>
      if o.direction == Ascending {
        assert o.lc(a.name, b.name) <= 0 && o.lc(b.name, c.name) <= 0;
      } else {
        assert o.lc(c.name, b.name) <= 0 && o.lc(b.name, a.name) <= 0;
      }
    case Available =>
      if o.direction == Ascending {
        assert o.lc(a.available, b.available) <= 0 && o.lc(b.available, c.available) <= 0;
      } else {
        assert o.lc(c.available, b.available) <= 0 && o.lc(b.available, a.available) <= 0;
      }
  }

  /** Every row may come before every later row. */
  ghost predicate Sorted(o: Order, s: seq<Product>)
  {
    forall i, j {:trigger Le(o, s[i], s[j])} :: 0 <= i < j < |s| ==> Le(o, s[i], s[j])
  }

  /** Places `x` after every row of `t` that may come before it. */
  function Insert(o: Order, t: seq<Product>, x: Product): seq<Product>
  {
    if t == [] then [x]
    else if Le(o, t[0], x) then [t[0]] + Insert(o, t[1..], x)
    else [x] + t
  }

  /** Insertion sort, inserting the rows from first to last. */
  function InsertionSort(o: Order, s: seq<Product>): seq<Product>
  {
    if s == [] then [] else Insert(o, InsertionSort(o, s[..|s| - 1]), s[|s| - 1])
  }

  lemma {:induction false} InsertPermutes(o: Order, t: seq<Product>, x: Product)
    ensures multiset(Insert(o, t, x)) == multiset(t) + multiset{x}
  {
    if t != [] && Le(o, t[0], x) {
      InsertPermutes(o, t[1..], x);
      assert t == [t[0]] + t[1..];
    }
  }

  /** The sort neither adds, drops nor duplicates a row. */
  lemma {:induction false} InsertionSortPermutes(o: Order, s: seq<Product>)
    ensures multiset(InsertionSort(o, s)) == multiset(s)
  {
    if s != [] {
      var init, last := s[..|s| - 1], s[|s| - 1];
      InsertionSortPermutes(o, init);
      InsertPermutes(o, InsertionSort(o, init), last);
      assert InsertionSort(o, s) == Insert(o, InsertionSort(o, init), last);
      assert s == init + [last];
      assert multiset(s) == multiset(init) + multiset{last};
    }
  }

  lemma {:induction false} InsertKeepsSorted(o: Order, t: seq<Product>, x: Product)
    requires ValidLocaleCompare(o.lc)
    requires Sorted(o, t)
    ensures Sorted(o, Insert(o, t, x))
  {
    if t != [] {
      var r := Insert(o, t, x);
      if Le(o, t[0], x) {
        InsertKeepsSorted(o, t[1..], x);
        InsertPermutes(o, t[1..], x);
        forall j | 1 <= j < |r|
          ensures Le(o, r[0], r[j])
        {
          assert r[j] in multiset(Insert(o, t[1..], x));
          if r[j] != x {
            var m :| 1 <= m < |t| && t[m] == r[j];
          }
        }
      } else {
        LeTotal(o, t[0], x);
        forall j | 1 <= j < |r|
          ensures Le(o, r[0], r[j])
        {
          if j > 1 {
            LeTransitive(o, x, t[0], t[j - 1]);
          }
        }
      }
    }
  }

  /** The sort's result is ordered by the comparator. */
  lemma {:induction false} InsertionSortSorted(o: Order, s: seq<Product>)
    requires ValidLocaleCompare(o.lc)
    ensures Sorted(o, InsertionSort(o, s))
  {
    if s != [] {
      InsertionSortSorted(o, s[..|s| - 1]);
      InsertKeepsSorted(o, InsertionSort(o, s[..|s| - 1]), s[|s| - 1]);
    }
  }

  /** The rows of `s` tied with `x`, in their order in `s`. */
  function Ties(o: Order, s: seq<Product>, x: Product): seq<Product>
  {
    if s == [] then [] else (if Tied(o, s[0], x) then [s[0]] else []) + Ties(o, s[1..], x)
  }

  lemma {:induction false} TiesAppend(o: Order, a: seq<Product>, b: seq<Product>, x: Product)
    ensures Ties(o, a + b, x) == Ties(o, a, x) + Ties(o, b, x)
  {
    if a == [] {
      assert a + b == b;
    } else {
      var first := if Tied(o, a[0], x) then [a[0]] else [];
      TiesAppend(o, a[1..], b, x);
      assert (a + b)[0] == a[0] && (a + b)[1..] == a[1..] + b;
      assert Ties(o, a + b, x) == first + Ties(o, a[1..] + b, x);
      assert Ties(o, a, x) == first + Ties(o, a[1..], x);
    }
  }

  /** A sorted list whose first row must follow `y` has no row tied with `y`'s ties. */
  lemma {:induction false} NoTiesAboveInsert(o: Order, t: seq<Product>, y: Product, x: Product)
    requires ValidLocaleCompare(o.lc)
    requires Sorted(o, t)
    requires t != [] && !Le(o, t[0], y)
    requires Tied(o, y, x)
    ensures Ties(o, t, x) == []
  {
    if Tied(o, t[0], x) {
      LeTransitive(o, t[0], x, y);
    }
    if |t| > 1 {
      if Le(o, t[1], y) {
        LeTransitive(o, t[0], t[1], y);
      }
      NoTiesAboveInsert(o, t[1..], y, x);
    }
  }

  lemma {:induction false} InsertTies(o: Order, t: seq<Product>, y: Product, x: Product)
    requires ValidLocaleCompare(o.lc)
    requires Sorted(o, t)
    ensures Ties(o, Insert(o, t, y), x) == Ties(o, t, x) + (if Tied(o, y, x) then [y] else [])
  {
    if t == [] {
      assert Insert(o, t, y) == [y];
      assert Ties(o, [y], x) == (if Tied(o, y, x) then [y] else []) + Ties(o, [], x);
    } else if Le(o, t[0], y) {
      var rest := Insert(o, t[1..], y);
      InsertTies(o, t[1..], y, x);
      assert Insert(o, t, y) == [t[0]] + rest;
      assert ([t[0]] + rest)[1..] == rest;
    } else {
      assert Insert(o, t, y) == [y] + t;
      assert ([y] + t)[1..] == t;
      if Tied(o, y, x) {
        NoTiesAboveInsert(o, t, y, x);
      }
    }
  }

  /**
    The sort is stable: the rows tied with any `x` appear in the result in the
    same order as in the input.
  */
  lemma {:induction false} InsertionSortStable(o: Order, s: seq<Product>, x: Product)
    requires ValidLocaleCompare(o.lc)
    ensures Ties(o, InsertionSort(o, s), x) == Ties(o, s, x)
  {
    if s != [] {
      var init, last := s[..|s| - 1], s[|s| - 1];
      InsertionSortStable(o, init, x);
      InsertionSortSorted(o, init);
      InsertTies(o, InsertionSort(o, init), last, x);
      TiesAppend(o, init, [last], x);
      assert s == init + [last];
    }
  }

  /** The rows of `s` from last to first. */
  function Reverse(s: seq<Product>): (r: seq<Product>)
    ensures |r| == |s|
    ensures forall i :: 0 <= i < |s| ==> r[i] == s[|s| - 1 - i]
  {
    if s == [] then [] else Reverse(s[1..]) + [s[0]]
  }

  lemma {:induction false} ReversePermutes(s: seq<Product>)
    ensures multiset(Reverse(s)) == multiset(s)
  {
    if s != [] {
      ReversePermutes(s[1..]);
      assert s == [s[0]] + s[1..];
    }
  }

  /** Read backwards, a list sorted ascending is sorted descending by the same key. */
  lemma ReverseSorted(lc: LocaleCompare, key: SortKey, s: seq<Product>)
    requires Sorted(Order(lc, key, Ascending), s)
    ensures Sorted(Order(lc, key, Descending), Reverse(s))
  {
    var r := Reverse(s);
    forall i, j | 0 <= i < j < |r|
      ensures Le(Order(lc, key, Descending), r[i], r[j])
    {
      assert Le(Order(lc, key, Ascending), s[|s| - 1 - j], s[|s| - 1 - i]);
    }
  }

  /**
    Two sorted lists holding the same rows are the same list, provided only
    identical rows compare equal.
  */
  lemma {:induction false} SortedUnique(o: Order, a: seq<Product>, b: seq<Product>)
    requires ValidLocaleCompare(o.lc)
    requires Sorted(o, a) && Sorted(o, b)
    requires multiset(a) == multiset(b)
    requires forall x, y :: x in a && y in a && Tied(o, x, y) ==> x == y
    ensures a == b
  {
    if a != [] {
      assert a[0] in multiset(b);
      var k :| 0 <= k < |b| && b[k] == a[0];
      assert b[0] in multiset(a);
      var m :| 0 <= m < |a| && a[m] == b[0];
      LeTotal(o, a[0], a[0]);
      LeTotal(o, b[0], b[0]);
      assert Le(o, b[0], b[k]);
      assert Le(o, a[0], a[m]);
      assert a[0] in a && a[m] in a && Tied(o, a[0], a[m]);
      assert a[0] == b[0];
      assert a == [a[0]] + a[1..];
      assert b == [b[0]] + b[1..];
      assert multiset(a[1..]) == multiset(a) - multiset{a[0]};
      assert multiset(b[1..]) == multiset(b) - multiset{b[0]};
      SortedUnique(o, a[1..], b[1..]);
    }
  }

  /**
    When no two different rows tie on the key, sorting the ascending result
    descending gives exactly the ascending result reversed.
  */
  lemma DescendingReversesAscending(lc: LocaleCompare, key: SortKey, s: seq<Product>)
    requires ValidLocaleCompare(lc)
    requires forall x, y :: x in s && y in s && Tied(Order(lc, key, Ascending), x, y) ==> x == y
    ensures InsertionSort(Order(lc, key, Descending), InsertionSort(Order(lc, key, Ascending), s))
            == Reverse(InsertionSort(Order(lc, key, Ascending), s))
  {
    var up, down := Order(lc, key, Ascending), Order(lc, key, Descending);
    var a := InsertionSort(up, s);
    var d := InsertionSort(down, a);
    InsertionSortPermutes(up, s);
    InsertionSortPermutes(down, a);
    InsertionSortSorted(up, s);
    InsertionSortSorted(down, a);
    ReverseSorted(lc, key, a);
    ReversePermutes(a);
    forall x, y | x in d && y in d && Tied(down, x, y)
      ensures x == y
    {
      assert x in multiset(d) && y in multiset(d);
      assert Tied(up, x, y);
    }
    SortedUnique(down, d, Reverse(a));
  }

  /**
    Inserting `x` into sorted `t` puts it at the first index `j` whose row must
    come after `x`.
  */
  lemma {:induction false} InsertAt(o: Order, t: seq<Product>, x: Product, j: nat)
    requires ValidLocaleCompare(o.lc)
    requires Sorted(o, t)
    requires j <= |t|
    requires j == 0 || Le(o, t[j - 1], x)
    requires forall k :: j <= k < |t| ==> !Le(o, t[k], x)
    ensures Insert(o, t, x) == t[..j] + [x] + t[j..]
  {
    if j > 0 {
      if j > 1 {
        LeTransitive(o, t[0], t[j - 1], x);
      }
      InsertAt(o, t[1..], x, j - 1);
      assert t[..j] == [t[0]] + t[1..][..j - 1];
      assert t[j..] == t[1..][j - 1..];
    }
  }

  /**
    One step of the in-place sort: the row at index `i` moves left past every row
    of `a[..i]` that must come after it, and lands at index `j`.
  */
  method InsertLast(a: array<Product>, i: nat, o: Order) returns (j: nat)
    requires i < a.Length
    modifies a
    ensures j <= i
    ensures forall k :: 0 <= k < j ==> a[k] == old(a[k])
    ensures a[j] == old(a[i])
    ensures forall k :: j < k <= i ==> a[k] == old(a[k - 1])
    ensures forall k :: i < k < a.Length ==> a[k] == old(a[k])
    ensures j == 0 || Le(o, old(a[j - 1]), old(a[i]))
    ensures forall k :: j <= k < i ==> !Le(o, old(a[k]), old(a[i]))
  {
    var x := a[i];
    j := i;
    while j > 0 && !Le(o, a[j - 1], x)
      invariant 0 <= j <= i
      invariant forall k :: 0 <= k < j ==> a[k] == old(a[k])
      invariant forall k :: j < k <= i ==> a[k] == old(a[k - 1])
      invariant forall k :: i < k < a.Length ==> a[k] == old(a[k])
      invariant forall k :: j <= k < i ==> !Le(o, old(a[k]), x)
    {
      a[j] := a[j - 1];
      j := j - 1;
    }
    a[j] := x;
  }

  /** What `InsertLast` leaves in the array, read as a sequence. */
  lemma ShiftedPrefix(before: seq<Product>, after: seq<Product>, i: nat, j: nat)
    requires j <= i < |before| == |after|
    requires forall k :: 0 <= k < j ==> after[k] == before[k]
    requires after[j] == before[i]
    requires forall k :: j < k <= i ==> after[k] == before[k - 1]
    requires forall k :: i < k < |after| ==> after[k] == before[k]
    ensures after[..i + 1] == before[..i][..j] + [before[i]] + before[..i][j..]
    ensures after[i + 1..] == before[i + 1..]
  {
    var shifted := before[..i][..j] + [before[i]] + before[..i][j..];
    forall k | 0 <= k <= i
      ensures after[k] == shifted[k]
    {
      if k < j {
        assert shifted[k] == before[k];
      } else if k > j {
        assert shifted[k] == before[k - 1];
      }
    }
  }

  /**
    The in-place sort of the copied rows: afterwards the array holds exactly the
    stable insertion sort of what it held before.
  */
  method SortInPlace(a: array<Product>, o: Order)
    requires ValidLocaleCompare(o.lc)
    modifies a
    ensures a[..] == InsertionSort(o, old(a[..]))
  {
    ghost var input := a[..];
    var i := 0;
    while i < a.Length
      invariant 0 <= i <= a.Length
      invariant a[..i] == InsertionSort(o, input[..i])
      invariant a[i..] == input[i..]
    {
      ghost var before := a[..];
      ghost var t, x := before[..i], before[i];
      assert x == input[i] by {
        assert a[i..][0] == input[i..][0];
      }
      InsertionSortSorted(o, input[..i]);
      var j := InsertLast(a, i, o);
      ShiftedPrefix(before, a[..], i, j);
      InsertAt(o, t, x, j);
      assert a[i + 1..] == input[i + 1..] by {
        assert before[i + 1..] == before[i..][1..] && input[i + 1..] == input[i..][1..];
      }
      assert input[..i + 1][..i] == input[..i];
      assert InsertionSort(o, input[..i + 1]) == Insert(o, t, input[i]);
      i := i + 1;
    }
    assert input[..i] == input;
  }

  /**
    `[...data].sort(comparator)`: copy the rows into a fresh array, sort the copy
    in place, and hand back its contents.
  */
  method SortedCopy(rows: seq<Product>, o: Order) returns (r: seq<Product>)
    requires ValidLocaleCompare(o.lc)
    ensures r == InsertionSort(o, rows)
  {
    var copy := new Product[|rows|](i requires 0 <= i < |rows| => rows[i]);
    assert copy[..] == rows;
    SortInPlace(copy, o);
    r := copy[..];
  }
}
