/** The value types the product grid works on: records, sort keys and the sort configuration. */
module Products {

  datatype Option<T> = None | Some(value: T)

  /**
    One row of the grid. Prices are JavaScript numbers in the original; here they
    are whole numbers of cents.
  */
  datatype Product = Product(id: int, name: string, price: int, available: string)

  /** The three columns whose header button sorts the grid. */
  datatype SortKey = Name | Price | Available

  datatype SortDirection = Ascending | Descending

  /** The grid's `{key, direction}` pair; `None` stands for JavaScript's `null`. */
  datatype SortConfig = SortConfig(key: Option<SortKey>, direction: Option<SortDirection>)

  const Unsorted: SortConfig := SortConfig(None, None)

  /** The ids of `rows`, in order (`rows.map(product => product.id)`). */
  function Ids(rows: seq<Product>): seq<int>
  {
    seq(|rows|, i requires 0 <= i < |rows| => rows[i].id)
  }

  /** Rows with the same members have the same ids. */
  lemma SameMembersSameIds(a: seq<Product>, b: seq<Product>)
    requires forall p :: p in a ==> p in b
    ensures forall x :: x in Ids(a) ==> x in Ids(b)
  {
    forall x | x in Ids(a)
      ensures x in Ids(b)
    {
      var i :| 0 <= i < |a| && Ids(a)[i] == x;
      assert a[i] in b;
      var j :| 0 <= j < |b| && b[j] == a[i];
      assert Ids(b)[j] == x;
    }
  }
}
