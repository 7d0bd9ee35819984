/**
  Filters over the working list keyed by the selection, and the selected-price
  total the grid shows under the table.
*/
module Rows {
  import opened Products

  /** `data.filter(product => !selectedRows.includes(product.id))`. */
  function Unselected(data: seq<Product>, selected: seq<int>): (r: seq<Product>)
    ensures |r| <= |data|
  {
    if data == [] then []
    else (if data[0].id in selected then [] else [data[0]]) + Unselected(data[1..], selected)
  }

  /** `data.filter(product => selectedRows.includes(product.id))`. */
  function Chosen(data: seq<Product>, selected: seq<int>): (r: seq<Product>)
    ensures |r| <= |data|
  {
    if data == [] then []
    else (if data[0].id in selected then [data[0]] else []) + Chosen(data[1..], selected)
  }

  /** `rows.reduce((total, product) => total + product.price, 0)`. */
  function PriceSum(rows: seq<Product>): int
  {
    if rows == [] then 0 else rows[0].price + PriceSum(rows[1..])
  }

  /** `totalSelectedAmount`: the prices of the listed rows whose id is selected. */
  function SelectedTotal(data: seq<Product>, selected: seq<int>): int
  {
    PriceSum(Chosen(data, selected))
  }

  /** Deleting keeps exactly the unselected rows and never adds one. */
  lemma {:induction false} UnselectedMembers(data: seq<Product>, selected: seq<int>)
    ensures forall p :: p in Unselected(data, selected) ==> p in data && p.id !in selected
    ensures forall p :: p in data && p.id !in selected ==> p in Unselected(data, selected)
    ensures multiset(Unselected(data, selected)) <= multiset(data)
  {
    if data != [] {
      UnselectedMembers(data[1..], selected);
      assert data == [data[0]] + data[1..];
    }
  }

  /** The total counts exactly the listed rows whose id is selected. */
  lemma {:induction false} ChosenMembers(data: seq<Product>, selected: seq<int>)
    ensures forall p :: p in Chosen(data, selected) ==> p in data && p.id in selected
    ensures forall p :: p in data && p.id in selected ==> p in Chosen(data, selected)
  {
    if data != [] {
      ChosenMembers(data[1..], selected);
      assert data == [data[0]] + data[1..];
    }
  }

  /** The rows the total counts and the rows deletion keeps make up the whole list. */
  lemma {:induction false} ChosenAndUnselected(data: seq<Product>, selected: seq<int>)
    ensures multiset(Chosen(data, selected)) + multiset(Unselected(data, selected)) == multiset(data)
  {
    if data != [] {
      var rest := data[1..];
      ChosenAndUnselected(rest, selected);
      assert data == [data[0]] + rest;
      if data[0].id in selected {
        assert Chosen(data, selected) == [data[0]] + Chosen(rest, selected);
        assert Unselected(data, selected) == Unselected(rest, selected);
      } else {
        assert Chosen(data, selected) == Chosen(rest, selected);
        assert Unselected(data, selected) == [data[0]] + Unselected(rest, selected);
      }
    }
  }

  /** Deletion filters row by row, so the kept rows stay in their relative order. */
  lemma {:induction false} UnselectedAppend(a: seq<Product>, b: seq<Product>, selected: seq<int>)
    ensures Unselected(a + b, selected) == Unselected(a, selected) + Unselected(b, selected)
  {
    if a == [] {
      assert a + b == b;
    } else {
      var first := if a[0].id in selected then [] else [a[0]];
      UnselectedAppend(a[1..], b, selected);
      assert (a + b)[0] == a[0] && (a + b)[1..] == a[1..] + b;
      assert Unselected(a + b, selected) == first + Unselected(a[1..] + b, selected);
      assert Unselected(a, selected) == first + Unselected(a[1..], selected);
    }
  }

  /** With nothing selected, deletion keeps the list as it is. */
  lemma {:induction false} UnselectedNone(data: seq<Product>)
    ensures Unselected(data, []) == data
  {
    if data != [] {
      UnselectedNone(data[1..]);
      assert data == [data[0]] + data[1..];
    }
  }

  lemma {:induction false} PriceSumAppend(a: seq<Product>, b: seq<Product>)
    ensures PriceSum(a + b) == PriceSum(a) + PriceSum(b)
  {
    if a == [] {
      assert a + b == b;
    } else {
      PriceSumAppend(a[1..], b);
      assert (a + b)[1..] == a[1..] + b;
    }
  }

  /**
    The selected total plus the total of what a deletion would keep is the total
    of the whole list: the selected rows are exactly the ones deletion removes.
  */
  lemma {:induction false} SelectedPlusKept(data: seq<Product>, selected: seq<int>)
    ensures SelectedTotal(data, selected) + PriceSum(Unselected(data, selected)) == PriceSum(data)
  {
    if data != [] {
      var rest := data[1..];
      var chosen := if data[0].id in selected then [data[0]] else [];
      var kept := if data[0].id in selected then [] else [data[0]];
      SelectedPlusKept(rest, selected);
      PriceSumAppend(chosen, Chosen(rest, selected));
      PriceSumAppend(kept, Unselected(rest, selected));
    }
  }

  /** An empty selection totals 0. */
  lemma {:induction false} NothingSelectedTotalsZero(data: seq<Product>)
    ensures SelectedTotal(data, []) == 0
  {
    if data != [] {
      NothingSelectedTotalsZero(data[1..]);
      assert data[0].id !in [];
      assert Chosen(data, []) == Chosen(data[1..], []);
    }
  }

  /**
    The total depends only on which ids of the list are selected: order, repeats
    and selected ids with no row in the list make no difference.
  */
  lemma {:induction false} SelectedTotalByMembership(data: seq<Product>, s1: seq<int>, s2: seq<int>)
    requires forall i :: 0 <= i < |data| ==> (data[i].id in s1 <==> data[i].id in s2)
    ensures SelectedTotal(data, s1) == SelectedTotal(data, s2)
  {
    if data != [] {
      SelectedTotalByMembership(data[1..], s1, s2);
      var first := if data[0].id in s1 then [data[0]] else [];
      assert Chosen(data, s1) == first + Chosen(data[1..], s1);
      assert Chosen(data, s2) == first + Chosen(data[1..], s2);
      PriceSumAppend(first, Chosen(data[1..], s1));
      PriceSumAppend(first, Chosen(data[1..], s2));
    }
  }

  /** With non-negative prices the total lies between 0 and the whole list's total. */
  lemma {:induction false} SelectedTotalBounds(data: seq<Product>, selected: seq<int>)
    requires forall i :: 0 <= i < |data| ==> data[i].price >= 0
    ensures 0 <= SelectedTotal(data, selected) <= PriceSum(data)
  {
    if data != [] {
      SelectedTotalBounds(data[1..], selected);
      var first := if data[0].id in selected then [data[0]] else [];
      PriceSumAppend(first, Chosen(data[1..], selected));
    }
  }
}
