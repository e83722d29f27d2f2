/** Window and board layout of the memory puzzle, the mapping from a grid
    cell to the pixel rectangle it is drawn in, and the inverse lookup from a
    clicked pixel back to a cell. */
module Layout {

  datatype Option<T> = None | Some(value: T)

  /** A grid position: `col` counts columns from the left (the source's
      `box_x`), `row` counts rows from the top (`box_y`). */
  datatype Cell = Cell(col: int, row: int)

  const WindowWidth: int := 640
  const WindowHeight: int := 480
  const BoardWidth: int := 4
  const BoardHeight: int := 4
  const BoxSize: int := 40
  const GapSize: int := 10

  /** Distance between the left (or top) edges of two neighbouring boxes. */
  const Stride: int := BoxSize + GapSize

  /** Left and top margins of the board (220 and 140). The formula counts one
      gap per column and per row, one more than lies between the boxes, so
      the right and bottom margins come out a gap wider (230 and 150) and the
      board sits 5 pixels left of and above the centre of the window. The
      source divides with Python's floor division, and both numerators are
      non-negative, so Dafny's `/` gives the same value. */
  const XMargin: int := (WindowWidth - BoardWidth * Stride) / 2
  const YMargin: int := (WindowHeight - BoardHeight * Stride) / 2

  predicate InBoard(c: Cell) {
    0 <= c.col < BoardWidth && 0 <= c.row < BoardHeight
  }

  /** Pixel coordinates of the top-left corner of the box drawn for column
      `boxX`, row `boxY`. Every box of the board lies inside the window with
      at least the margin to spare on each side; the first column and row
      start exactly at the margins, and the last column and row leave the
      margin plus one gap free at the right and bottom edges. */
  function LeftTopCoordsOfBox(boxX: int, boxY: int): (r: (int, int))
    ensures InBoard(Cell(boxX, boxY)) ==>
              XMargin <= r.0 && r.0 + BoxSize + XMargin <= WindowWidth &&
              YMargin <= r.1 && r.1 + BoxSize + YMargin <= WindowHeight
    ensures boxX == 0 ==> r.0 == XMargin
    ensures boxY == 0 ==> r.1 == YMargin
    ensures boxX == BoardWidth - 1 ==> WindowWidth - (r.0 + BoxSize) == XMargin + GapSize
    ensures boxY == BoardHeight - 1 ==> WindowHeight - (r.1 + BoxSize) == YMargin + GapSize
  {
    (boxX * Stride + XMargin, boxY * Stride + YMargin)
  }

  /** The containment test of a `BoxSize` by `BoxSize` rectangle at the box's
      corner: half-open, so the right and bottom edges belong to the gap. A
      pixel inside any box lies outside the gaps along both axes. */
  predicate Collides(c: Cell, x: int, y: int): (r: bool)
    ensures r ==> (x - XMargin) % Stride < BoxSize && (y - YMargin) % Stride < BoxSize
  {
    var (left, top) := LeftTopCoordsOfBox(c.col, c.row);
    if left <= x < left + BoxSize && top <= y < top + BoxSize then
      DivModUnique(x - XMargin, c.col, x - left);
      DivModUnique(y - YMargin, c.row, y - top);
      true
    else
      false
  }

  /** No pixel lies in the boxes of two different cells. */
  lemma BoxesDisjoint(c: Cell, d: Cell, x: int, y: int)
    requires Collides(c, x, y) && Collides(d, x, y)
    ensures c == d
  {
  }

  /** Closed-form inverse of `LeftTopCoordsOfBox`: the cell whose box holds
      pixel (x, y), or None when the pixel is in a margin, in a gap or off the
      board. */
  function BoxAt(x: int, y: int): (r: Option<Cell>)
    ensures r.Some? ==> InBoard(r.value) && Collides(r.value, x, y)
    ensures r.None? ==> forall c :: InBoard(c) ==> !Collides(c, x, y)
  {
    var dx, dy := x - XMargin, y - YMargin;
    if dx < 0 || dy < 0 then None
    else if dx / Stride < BoardWidth && dy / Stride < BoardHeight &&
            dx % Stride < BoxSize && dy % Stride < BoxSize
    then Some(Cell(dx / Stride, dy / Stride))
    else
      assert forall c :: InBoard(c) ==> !Collides(c, x, y) by {
        forall c | InBoard(c) && Collides(c, x, y) ensures false {
          DivModUnique(dx, c.col, dx - c.col * Stride);
          DivModUnique(dy, c.row, dy - c.row * Stride);
        }
      }
      None
  }

  lemma DivModUnique(d: int, q: int, m: int)
    requires 0 <= m < Stride && d == q * Stride + m
    ensures d / Stride == q && d % Stride == m
  {
  }

  /** A pixel inside the box of an on-board cell maps to exactly that cell. */
  lemma BoxAtFindsCollidingCell(c: Cell, x: int, y: int)
    requires InBoard(c) && Collides(c, x, y)
    ensures BoxAt(x, y) == Some(c)
  {
    var found := BoxAt(x, y);
    BoxesDisjoint(found.value, c, x, y);
  }

  /** The source's lookup: scan the columns, and within each column the rows,
      and answer the first cell whose box contains the pixel. */
  method GetBoxAtPixel(x: int, y: int) returns (r: Option<Cell>)
    ensures r == BoxAt(x, y)
  {
    var boxX := 0;
    while boxX < BoardWidth
      invariant 0 <= boxX <= BoardWidth
      invariant forall i, j :: 0 <= i < boxX && 0 <= j < BoardHeight ==> !Collides(Cell(i, j), x, y)
    {
      var boxY := 0;
      while boxY < BoardHeight
        invariant 0 <= boxY <= BoardHeight
        invariant forall j :: 0 <= j < boxY ==> !Collides(Cell(boxX, j), x, y)
      {
        if Collides(Cell(boxX, boxY), x, y) {
          BoxAtFindsCollidingCell(Cell(boxX, boxY), x, y);
          return Some(Cell(boxX, boxY));
        }
        boxY := boxY + 1;
      }
      boxX := boxX + 1;
    }
    return None;
  }

  /** Round trip: every pixel of the box of an on-board cell maps back to
      that cell. */
  lemma PixelInBoxMapsBack(boxX: int, boxY: int, dx: int, dy: int)
    requires InBoard(Cell(boxX, boxY))
    requires 0 <= dx < BoxSize && 0 <= dy < BoxSize
    ensures BoxAt(LeftTopCoordsOfBox(boxX, boxY).0 + dx, LeftTopCoordsOfBox(boxX, boxY).1 + dy)
            == Some(Cell(boxX, boxY))
  {
    var (left, top) := LeftTopCoordsOfBox(boxX, boxY);
    BoxAtFindsCollidingCell(Cell(boxX, boxY), left + dx, top + dy);
  }

  /** A pixel left of or above the board, right of or below it, or in the gap
      after a box along either axis maps to no cell. */
  lemma MarginOrGapMapsToNothing(x: int, y: int)
    requires x < XMargin || y < YMargin ||
             x >= XMargin + BoardWidth * Stride || y >= YMargin + BoardHeight * Stride ||
             (x - XMargin) % Stride >= BoxSize || (y - YMargin) % Stride >= BoxSize
    ensures BoxAt(x, y) == None
  {
    var dx, dy := x - XMargin, y - YMargin;
    if dx >= 0 && dy >= 0 && dx / Stride < BoardWidth && dy / Stride < BoardHeight {
      DivModUnique(dx, dx / Stride, dx % Stride);
      DivModUnique(dy, dy / Stride, dy % Stride);
    }
  }
}
