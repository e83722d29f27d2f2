/** The rules of a turn: a click reveals a face-down cell; the first cell of a
    turn stays face-up while the player picks a second; the second pick ends
    the turn, leaving both face-up when their icons match and covering both
    again when they differ. Also the win check. */
module Turns {
  import opened Layout
  import opened Board

  /** Face-up flags as a value, indexed like the board: column, then row. */
  type Grid = seq<seq<bool>>

  predicate IsGrid(g: Grid) {
    |g| == BoardWidth && forall x :: 0 <= x < |g| ==> |g[x]| == BoardHeight
  }

  predicate IsUp(g: Grid, c: Cell)
    requires IsGrid(g) && InBoard(c)
  {
    g[c.col][c.row]
  }

  /** `g` with the flag of cell `c` set to `v`. */
  function SetFlag(g: Grid, c: Cell, v: bool): (r: Grid)
    requires IsGrid(g) && InBoard(c)
    ensures IsGrid(r) && IsUp(r, c) == v
    ensures forall d :: InBoard(d) && d != c ==> IsUp(r, d) == IsUp(g, d)
  {
    g[c.col := g[c.col][c.row := v]]
  }

  /** Every cell is face-up. */
  ghost predicate AllUp(g: Grid)
    requires IsGrid(g)
  {
    forall c :: InBoard(c) ==> IsUp(g, c)
  }

  /** The invariant of the turn controller: a pending first pick is a cell
      of the board and is face-up. */
  predicate SelectionShown(g: Grid, first: Option<Cell>)
    requires IsGrid(g)
  {
    first.Some? ==> InBoard(first.value) && IsUp(g, first.value)
  }

  /** The outcome of a click: the new face-up flags and the new pending
      first pick. */
  datatype Outcome = Outcome(revealed: Grid, selection: Option<Cell>)

  /** One click that resolved to `hit` (None for a pixel outside every box),
      with `first` the pending first pick. Only the clicked cell and the first
      pick can change; a pending pick afterwards is the old one or, when there
      was none, the cell just clicked; a click on no cell or on a face-up cell
      changes nothing. */
  function ClickCell(board: seq<seq<int>>, g: Grid, first: Option<Cell>, hit: Option<Cell>): (r: Outcome)
    requires IsShape(board) && IsGrid(g)
    requires first.Some? ==> InBoard(first.value)
    requires hit.Some? ==> InBoard(hit.value)
    ensures IsGrid(r.revealed)
    ensures forall d :: InBoard(d) && Some(d) != hit && Some(d) != first ==>
              IsUp(r.revealed, d) == IsUp(g, d)
    ensures r.selection.Some? ==> r.selection == first || (first.None? && r.selection == hit)
    ensures hit.None? || IsUp(g, hit.value) ==> r == Outcome(g, first)
  {
    match hit
    case None => Outcome(g, first)
    case Some(c) =>
      if IsUp(g, c) then Outcome(g, first)
      else
        var shown := SetFlag(g, c, true);
        match first
        case None => Outcome(shown, Some(c))
        case Some(f) =>
          if board[f.col][f.row] != board[c.col][c.row]
          then Outcome(SetFlag(SetFlag(shown, f, false), c, false), None)
          else Outcome(shown, None)
  }

  /** Re-clicking the pending first pick, or any face-up cell, is a no-op. */
  lemma ReclickIsNoOp(board: seq<seq<int>>, g: Grid, first: Option<Cell>, c: Cell)
    requires IsShape(board) && IsGrid(g) && InBoard(c)
    requires SelectionShown(g, first)
    requires IsUp(g, c) || first == Some(c)
    ensures ClickCell(board, g, first, Some(c)) == Outcome(g, first)
  {
  }

  /** With no pending pick, clicking a face-down cell turns up that cell
      alone and makes it the pending pick. */
  lemma FirstPick(board: seq<seq<int>>, g: Grid, c: Cell)
    requires IsShape(board) && IsGrid(g) && InBoard(c) && !IsUp(g, c)
    ensures var r := ClickCell(board, g, None, Some(c));
            r.selection == Some(c) && IsUp(r.revealed, c) &&
            forall d :: InBoard(d) && d != c ==> IsUp(r.revealed, d) == IsUp(g, d)
  {
  }

  /** With a pending (face-up) pick `f`, clicking a face-down cell `c` ends
      the turn: equal icons leave both face-up, different icons leave both
      face-down, and no other cell changes. */
  lemma SecondPick(board: seq<seq<int>>, g: Grid, f: Cell, c: Cell)
    requires IsShape(board) && IsGrid(g) && InBoard(f) && InBoard(c)
    requires IsUp(g, f) && !IsUp(g, c)
    ensures var r := ClickCell(board, g, Some(f), Some(c));
            var matched := board[f.col][f.row] == board[c.col][c.row];
            r.selection == None &&
            IsUp(r.revealed, f) == matched && IsUp(r.revealed, c) == matched &&
            forall d :: InBoard(d) && d != c && d != f ==> IsUp(r.revealed, d) == IsUp(g, d)
  {
  }

  /** Every click keeps the controller's invariant. */
  lemma ClickKeepsSelectionShown(board: seq<seq<int>>, g: Grid, first: Option<Cell>, hit: Option<Cell>)
    requires IsShape(board) && IsGrid(g)
    requires hit.Some? ==> InBoard(hit.value)
    requires SelectionShown(g, first)
    ensures var r := ClickCell(board, g, first, hit);
            SelectionShown(r.revealed, r.selection)
  {
  }

  /** A face-up cell that is not the pending first pick stays face-up: a
      matched pair is never covered again. */
  lemma MatchedStaysUp(board: seq<seq<int>>, g: Grid, first: Option<Cell>, hit: Option<Cell>, d: Cell)
    requires IsShape(board) && IsGrid(g) && InBoard(d)
    requires hit.Some? ==> InBoard(hit.value)
    requires SelectionShown(g, first)
    requires IsUp(g, d) && first != Some(d)
    ensures IsUp(ClickCell(board, g, first, hit).revealed, d)
  {
  }

  /** Once every cell is face-up, no click changes anything. */
  lemma WonBoardIgnoresClicks(board: seq<seq<int>>, g: Grid, first: Option<Cell>, hit: Option<Cell>)
    requires IsShape(board) && IsGrid(g) && AllUp(g)
    requires first.Some? ==> InBoard(first.value)
    requires hit.Some? ==> InBoard(hit.value)
    ensures ClickCell(board, g, first, hit) == Outcome(g, first)
  {
  }

  /** The win check: true exactly when no cell is face-down; it stops at the
      first face-down cell it meets. */
  method CheckForWin(revealed: array2<bool>) returns (win: bool)
    ensures win <==> forall x, y :: 0 <= x < revealed.Length0 && 0 <= y < revealed.Length1 ==> revealed[x, y]
  {
    var x := 0;
    while x < revealed.Length0
      invariant 0 <= x <= revealed.Length0
      invariant forall i, j :: 0 <= i < x && 0 <= j < revealed.Length1 ==> revealed[i, j]
    {
      var y := 0;
      while y < revealed.Length1
        invariant 0 <= y <= revealed.Length1
        invariant forall j :: 0 <= j < y ==> revealed[x, j]
      {
        if !revealed[x, y] {
          return false;
        }
        y := y + 1;
      }
      x := x + 1;
    }
    return true;
  }

  /** One game session: the board dealt at the start, the face-up flags that
      clicks update in place, and the pending first pick. */
  class Game {
    const board: seq<seq<int>>
    const revealed: array2<bool>
    var firstSelection: Option<Cell>

    ghost predicate Valid()
      reads this, revealed
    {
      IsShape(board) &&
      revealed.Length0 == BoardWidth && revealed.Length1 == BoardHeight &&
      (firstSelection.Some? ==>
         InBoard(firstSelection.value) &&
         revealed[firstSelection.value.col, firstSelection.value.row])
    }

    /** The face-up flags as a value. */
    ghost function Flags(): (g: Grid)
      reads this, revealed
      requires revealed.Length0 == BoardWidth && revealed.Length1 == BoardHeight
      ensures IsGrid(g)
      ensures forall c :: InBoard(c) ==> IsUp(g, c) == revealed[c.col, c.row]
    {
      seq(BoardWidth, x requires 0 <= x < BoardWidth reads revealed =>
        seq(BoardHeight, y requires 0 <= y < BoardHeight reads revealed => revealed[x, y]))
    }

    /** A new session: a freshly generated board, every cell face-down and
        no pending pick. */
    constructor (draws: seq<int>)
      requires ValidDraws(draws, CellCount)
      ensures Valid() && fresh(revealed)
      ensures forall v :: multiset(Flatten(board))[v] == if 0 <= v < IconCount then 2 else 0
      ensures forall c :: InBoard(c) ==> !revealed[c.col, c.row]
      ensures firstSelection == None
    {
      var dealt := GenerateBoard(draws);
      board := dealt;
      revealed := new bool[BoardWidth, BoardHeight]((x, y) => false);
      firstSelection := None;
    }

    /** A click at pixel (mx, my): the new flags and pending pick are those
        `ClickCell` gives for the cell under the pixel. */
    method HandleBoxClick(mx: int, my: int)
      requires Valid()
      modifies this, revealed
      ensures Valid()
      ensures var r := ClickCell(board, old(Flags()), old(firstSelection), BoxAt(mx, my));
              firstSelection == r.selection &&
              forall c :: InBoard(c) ==> revealed[c.col, c.row] == IsUp(r.revealed, c)
    {
      ghost var g := Flags();
      ghost var first := firstSelection;
      ClickKeepsSelectionShown(board, g, first, BoxAt(mx, my));
      var hit := GetBoxAtPixel(mx, my);
      if hit.None? {
        return;
      }
      var c := hit.value;
      if !revealed[c.col, c.row] {
        revealed[c.col, c.row] := true;
        if firstSelection.None? {
          firstSelection := Some(c);
        } else {
          var f := firstSelection.value;
          if board[f.col][f.row] != board[c.col][c.row] {
            revealed[f.col, f.row] := false;
            revealed[c.col, c.row] := false;
          }
          firstSelection := None;
        }
      }
    }
  }
}
