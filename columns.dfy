/** Column widths in pixels and the arithmetic of a drag on a header's resize handle. */
module Columns {

  datatype Column = ProductId | Name | Price | Available

  datatype Widths = Widths(productId: int, name: int, price: int, available: int)

  /** The widths the grid starts with. */
  const InitialWidths: Widths := Widths(100, 200, 150, 150)

  function Width(ws: Widths, c: Column): int
  {
    match c
    case ProductId => ws.productId
    case Name => ws.name
    case Price => ws.price
    case Available => ws.available
  }

  /** `{...prevWidths, [columnKey]: newWidth}`: one column changes, no clamping. */
  function Resized(ws: Widths, c: Column, w: int): (r: Widths)
    ensures Width(r, c) == w
    ensures forall d :: d != c ==> Width(r, d) == Width(ws, d)
  {
    match c
    case ProductId => ws.(productId := w)
    case Name => ws.(name := w)
    case Price => ws.(price := w)
    case Available => ws.(available := w)
  }

  /** A later resize of the same column overrides an earlier one. */
  lemma ResizedTwice(ws: Widths, c: Column, w1: int, w2: int)
    ensures Resized(Resized(ws, c, w1), c, w2) == Resized(ws, c, w2)
  {
  }

  /** Resizes of different columns do not interfere. */
  lemma ResizedCommute(ws: Widths, c: Column, d: Column, v: int, w: int)
    requires c != d
    ensures Resized(Resized(ws, c, v), d, w) == Resized(Resized(ws, d, w), c, v)
  {
  }

  /**
    The width set on each mouse move: the width at press time plus how far the
    pointer has moved since the press.
  */
  function DragWidth(initialWidth: int, startX: int, pageX: int): (w: int)
    ensures pageX == startX ==> w == initialWidth
    ensures pageX > startX ==> w > initialWidth
    ensures pageX < startX ==> w < initialWidth
  {
    initialWidth + (pageX - startX)
  }

  /** The widths after the mouse moves to each of `moves` in turn during one drag of column `c`. */
  function Dragged(ws: Widths, c: Column, initialWidth: int, startX: int, moves: seq<int>): (r: Widths)
    ensures forall d :: d != c ==> Width(r, d) == Width(ws, d)
  {
    if moves == [] then ws
    else Resized(Dragged(ws, c, initialWidth, startX, moves[..|moves| - 1]), c,
                 DragWidth(initialWidth, startX, moves[|moves| - 1]))
  }

  /**
    However the pointer wanders, a drag leaves the column at the width its last
    position gives, and leaves the other columns as they were.
  */
  lemma {:induction false} DragEndsAtLastMove(ws: Widths, c: Column, startX: int, moves: seq<int>)
    requires moves != []
    ensures Dragged(ws, c, Width(ws, c), startX, moves)
            == Resized(ws, c, DragWidth(Width(ws, c), startX, moves[|moves| - 1]))
  {
    var init := moves[..|moves| - 1];
    if init != [] {
      DragEndsAtLastMove(ws, c, startX, init);
      ResizedTwice(ws, c, DragWidth(Width(ws, c), startX, init[|init| - 1]),
                   DragWidth(Width(ws, c), startX, moves[|moves| - 1]));
    }
  }
}
