/** Generation of a fresh board: every icon is put in a list twice, the list
    is shuffled, and the shuffled list is dealt into the columns of the
    board by taking elements off its end. */
module Board {
  import opened Layout

  const CellCount: int := BoardWidth * BoardHeight
  const IconCount: int := CellCount / 2

  /** The cells of a board read column by column, the order in which they
      are dealt. */
  function Flatten(board: seq<seq<int>>): seq<int> {
    if board == [] then [] else Flatten(board[..|board| - 1]) + board[|board| - 1]
  }

  predicate IsShape(board: seq<seq<int>>) {
    |board| == BoardWidth && forall x :: 0 <= x < |board| ==> |board[x]| == BoardHeight
  }

  /** The icon list before shuffling holds every icon of `0 .. IconCount - 1`
      exactly twice and nothing else. */
  method MakeIcons() returns (icons: seq<int>)
    ensures |icons| == CellCount
    ensures forall v :: multiset(icons)[v] == if 0 <= v < IconCount then 2 else 0
  {
    icons := [];
    var i := 0;
    while i < IconCount
      invariant 0 <= i <= IconCount && |icons| == 2 * i
      invariant forall v :: multiset(icons)[v] == if 0 <= v < i then 2 else 0
    {
      icons := icons + [i];
      icons := icons + [i];
      i := i + 1;
    }
  }

  /** The random draws of a shuffle of a list of `n` elements: at step `i`
      (for `i` from `n - 1` down to 1) the shuffle swaps position `i` with
      position `draws[i]`, which lies in `0 .. i`. Every permutation of the
      list arises from some choice of draws (a known property of the
      Fisher-Yates pass, not proved here). */
  predicate ValidDraws(draws: seq<int>, n: int) {
    |draws| == n && forall i :: 0 <= i < |draws| ==> 0 <= draws[i] <= i
  }

  /** The library shuffle as a Fisher-Yates pass whose random choices are
      given: the result is a rearrangement of the input. */
  method Shuffle(icons: seq<int>, draws: seq<int>) returns (shuffled: seq<int>)
    requires ValidDraws(draws, |icons|)
    ensures |shuffled| == |icons|
    ensures multiset(shuffled) == multiset(icons)
  {
    shuffled := icons;
    var i := |icons| - 1;
    while i >= 1
      invariant -1 <= i < |icons|
      invariant |shuffled| == |icons|
      invariant multiset(shuffled) == multiset(icons)
    {
      var j := draws[i];
      shuffled := shuffled[i := shuffled[j]][j := shuffled[i]];
      i := i - 1;
    }
  }

  lemma FlattenAppend(board: seq<seq<int>>, column: seq<int>)
    ensures Flatten(board + [column]) == Flatten(board) + column
  {
    assert (board + [column])[..|board|] == board;
  }

  /** One column of the deal: `BoardHeight` elements popped off the end of
      the list, the first popped at the top. */
  method DealColumn(rest: seq<int>) returns (column: seq<int>, remaining: seq<int>)
    requires |rest| >= BoardHeight
    ensures |column| == BoardHeight
    ensures forall j :: 0 <= j < BoardHeight ==> column[j] == rest[|rest| - 1 - j]
    ensures remaining == rest[..|rest| - BoardHeight]
    ensures multiset(column) + multiset(remaining) == multiset(rest)
  {
    column, remaining := [], rest;
    var y := 0;
    while y < BoardHeight
      invariant 0 <= y <= BoardHeight && |column| == y
      invariant forall j :: 0 <= j < y ==> column[j] == rest[|rest| - 1 - j]
      invariant remaining == rest[..|rest| - y]
      invariant multiset(column) + multiset(remaining) == multiset(rest)
    {
      var last := remaining[|remaining| - 1];
      assert remaining == remaining[..|remaining| - 1] + [last];
      remaining := remaining[..|remaining| - 1];
      column := column + [last];
      y := y + 1;
    }
  }

  /** Dealing: column by column, each column filled top to bottom, every
      cell takes the element popped off the end of the list, so cell (x, y)
      receives the element `x * BoardHeight + y` places from the end. The
      board holds exactly the elements of the list. */
  method Deal(icons: seq<int>) returns (board: seq<seq<int>>)
    requires |icons| == CellCount
    ensures IsShape(board)
    ensures forall x, y :: 0 <= x < BoardWidth && 0 <= y < BoardHeight ==>
              board[x][y] == icons[CellCount - 1 - (x * BoardHeight + y)]
    ensures multiset(Flatten(board)) == multiset(icons)
  {
    var rest := icons;
    board := [];
    var x := 0;
    while x < BoardWidth
      invariant 0 <= x <= BoardWidth && |board| == x
      invariant forall i :: 0 <= i < x ==> |board[i]| == BoardHeight
      invariant forall i, j :: 0 <= i < x && 0 <= j < BoardHeight ==>
                  board[i][j] == icons[CellCount - 1 - (i * BoardHeight + j)]
      invariant rest == icons[..CellCount - x * BoardHeight]
      invariant multiset(Flatten(board)) + multiset(rest) == multiset(icons)
    {
      var column;
      column, rest := DealColumn(rest);
      FlattenAppend(board, column);
      board := board + [column];
      x := x + 1;
    }
  }

  /** The board of a new game: `BoardWidth` columns of `BoardHeight` icons,
      where every icon of `0 .. IconCount - 1` occurs exactly twice and no
      other value occurs. */
  method GenerateBoard(draws: seq<int>) returns (board: seq<seq<int>>)
    requires ValidDraws(draws, CellCount)
    ensures IsShape(board)
    ensures forall v :: multiset(Flatten(board))[v] == if 0 <= v < IconCount then 2 else 0
    ensures forall x, y :: 0 <= x < BoardWidth && 0 <= y < BoardHeight ==> 0 <= board[x][y] < IconCount
  {
    var icons := MakeIcons();
    icons := Shuffle(icons, draws);
    board := Deal(icons);
    CellsAreIcons(board);
  }

  /** A cell's value is among the dealt elements. */
  lemma {:induction false} CellInFlatten(board: seq<seq<int>>, x: int, y: int)
    requires 0 <= x < |board| && 0 <= y < |board[x]|
    ensures board[x][y] in multiset(Flatten(board))
  {
    if x < |board| - 1 {
      CellInFlatten(board[..|board| - 1], x, y);
    }
  }

  /** Every cell of a generated board holds one of the icons. */
  lemma CellsAreIcons(board: seq<seq<int>>)
    requires IsShape(board)
    requires forall v :: multiset(Flatten(board))[v] == if 0 <= v < IconCount then 2 else 0
    ensures forall x, y :: 0 <= x < BoardWidth && 0 <= y < BoardHeight ==> 0 <= board[x][y] < IconCount
  {
    forall x, y | 0 <= x < BoardWidth && 0 <= y < BoardHeight
      ensures 0 <= board[x][y] < IconCount
    {
      CellInFlatten(board, x, y);
    }
  }
}
