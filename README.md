# Memory puzzle rules in Dafny

A model of the rules of a single-screen memory game written with pygame: a
4 by 4 grid of face-down boxes hides eight icons, each twice; the player
turns up two boxes per turn, which stay up when their icons match and are
covered again when they differ, until every box is face-up.

The model has three modules:

- `Layout` (`layout.dfy`): the window and board constants (640 by 480
  window, 4 columns, 4 rows, 40-pixel boxes, 10-pixel gaps, left and top
  margins 220 and 140), `LeftTopCoordsOfBox` from a cell to the pixel
  corner of its box, and `GetBoxAtPixel`, the column-major scan from a pixel
  back to a cell. The scan is proved equal to `BoxAt`, a closed-form
  inverse computed with division and remainder, whose contract says that it
  names the box holding the pixel, or none when no box holds it. The box
  test is half-open like a pygame rectangle's: `left <= x < left + 40`.
  The margin formula counts one gap per column and per row, one more than
  lies between the boxes, so the boxes span x 220..410 and y 140..330: the
  right and bottom margins are 230 and 150, and the board sits 5 pixels
  left of and above the centre of the window.
- `Board` (`board.dfy`): board generation. `MakeIcons` builds the list
  holding every icon twice, `Shuffle` rearranges it, and `Deal` fills the
  columns by popping from the end of the list (one column at a time, by
  `DealColumn`), so cell (x, y) gets the element `x * 4 + y` places from
  the end. `GenerateBoard` composes them and proves that every icon
  `0 .. 7` occurs exactly twice on the board and no other value occurs.
- `Turns` (`turns.dfy`): the turn controller. `ClickCell` is the effect
  of one click as a function on values: the face-up flags and the pending
  first pick. The lemmas beside it state the transitions and the invariant
  that a pending first pick is face-up. `Game` is the session object. It
  holds the board, the face-up flags in a 2-D array updated in place, and
  the pending pick. Its `HandleBoxClick` takes the clicked pixel and is
  proved to produce exactly what `ClickCell` gives. `CheckForWin` scans the
  flags and answers true exactly when none is false.

The pointer position and the random choices of the shuffle are parameters:
`HandleBoxClick` receives the pixel, and `Shuffle` receives its draws. At
step `i`, counting down from `n - 1` to 1, the draw `draws[i]` in
`0 .. i` picks the position to swap with `i`. This is the Fisher-Yates
pass of Python's library shuffle. Any list of draws gives a rearrangement,
and every rearrangement comes from some list of draws (a known property of
the Fisher-Yates pass, not proved here).

The source leaves the board size unchecked. With an odd number of cells
the list would hold one element too few and the last pop of the deal would
fail, but the constants fix a 4 by 4 board, so no check is modelled.

## Model

| member | source | states |
|---|---|---|
| `Layout.LeftTopCoordsOfBox` | memory_puzzle_game.py:89-95 | every on-board box lies inside the window with at least the margin free on each side; the first column and row start at the margins 220 and 140, and the last column and row leave 230 and 150 pixels free at the right and bottom, so the board sits 5 pixels off centre |
| `Layout.Collides` | memory_puzzle_game.py:84-85 | the half-open containment test of a box's 40 by 40 rectangle (`left <= x < left + 40`, likewise for y); a pixel that passes it for any cell lies outside the gaps along both axes |
| `Layout.BoxesDisjoint` | memory_puzzle_game.py:83-85 | no pixel lies in the boxes of two different cells, so the scan's answer is unambiguous |
| `Layout.BoxAt` | memory_puzzle_game.py:77-87 | the closed-form lookup: a cell it returns is on the board and its box holds the pixel; when it returns none, no on-board box holds the pixel |
| `Layout.BoxAtFindsCollidingCell` | memory_puzzle_game.py:81-86 | a pixel inside an on-board cell's box maps to exactly that cell |
| `Layout.GetBoxAtPixel` | memory_puzzle_game.py:77-87 | the column-major scan with early return gives the same answer as the closed-form lookup, for every pixel |
| `Layout.PixelInBoxMapsBack` | memory_puzzle_game.py:77-95 | round trip: for every on-board cell and offsets `0 <= dx, dy < 40`, the pixel at corner plus offset maps back to that cell |
| `Layout.MarginOrGapMapsToNothing` | memory_puzzle_game.py:81-87 | a pixel in the margin, beyond the board, or in a gap along either axis maps to no cell |
| `Board.MakeIcons` | memory_puzzle_game.py:61-65 | the unshuffled list has 16 elements and holds every icon `0 .. 7` exactly twice and nothing else |
| `Board.Shuffle` | memory_puzzle_game.py:66 | the shuffled list is a rearrangement of the input (same length, same multiset) |
| `Board.DealColumn` | memory_puzzle_game.py:71-73 | one column takes the last four elements, last one on top, and the list keeps the rest; nothing is lost or added |
| `Board.Deal` | memory_puzzle_game.py:68-75 | the board has 4 columns of 4 cells, cell (x, y) holds the element `x * 4 + y` places from the end of the list, and the board holds exactly the list's elements |
| `Board.GenerateBoard` | memory_puzzle_game.py:57-75 | the generated board has 4 columns of 4 cells, every icon `0 .. 7` occurs exactly twice, no other value occurs, and every cell holds an icon in `0 .. 7` |
| `Board.CellInFlatten` | memory_puzzle_game.py:68-75 | every cell's value is among the dealt elements |
| `Board.CellsAreIcons` | memory_puzzle_game.py:61-75 | on a board where each icon occurs twice and nothing else occurs, every cell holds an icon in `0 .. 7` |
| `Turns.ClickCell` | memory_puzzle_game.py:109-137 | only the clicked cell and the pending pick can change; a pending pick afterwards is the old one or, if there was none, the clicked cell; a click on no cell or on a face-up cell changes nothing |
| `Turns.ReclickIsNoOp` | memory_puzzle_game.py:114-137 | clicking a face-up cell, including the pending first pick itself, leaves flags and pending pick unchanged |
| `Turns.FirstPick` | memory_puzzle_game.py:114-120 | with no pending pick, clicking a face-down cell turns up that cell alone and makes it the pending pick |
| `Turns.SecondPick` | memory_puzzle_game.py:122-136 | with a pending pick, clicking a face-down cell clears the pick; both cells end face-up on equal icons and face-down on different icons; no other cell changes |
| `Turns.ClickKeepsSelectionShown` | memory_puzzle_game.py:116-136 | every click keeps the invariant that a pending first pick is on the board and face-up |
| `Turns.MatchedStaysUp` | memory_puzzle_game.py:127-136 | a face-up cell other than the pending pick stays face-up, so a matched pair is never covered again |
| `Turns.WonBoardIgnoresClicks` | memory_puzzle_game.py:114-137 | once every cell is face-up, no click changes anything |
| `Turns.CheckForWin` | memory_puzzle_game.py:159-166 | returns true exactly when every entry of the face-up grid is true, false when any entry is false |
| `Turns.Game.constructor` | memory_puzzle_game.py:190-192 | a new session has a generated board with every icon exactly twice, every cell face-down and no pending pick |
| `Turns.Game.HandleBoxClick` | memory_puzzle_game.py:102-137 | the new face-up flags and pending pick are exactly those `ClickCell` gives for the cell under the pixel, and the session invariant is kept |

## Left out

- The reveal and cover animations, `draw_board`, `draw_icon` and `show_win_message`: pixel drawing and font rendering, with no effect on the game state.
- Every `pygame.time.wait`: cosmetic delays.
- The event loop of `game_loop`, quit handling and process exit: I/O plumbing; one call of `Game.HandleBoxClick` stands for one button-release event.
- `pygame.mouse.get_pos()`: the pixel is a parameter of `Game.HandleBoxClick`.
- The randomness of `random.shuffle`: the random draws are a parameter of `Board.Shuffle`.
- Board.Shuffle: states only that the result is a rearrangement of its input, not which one the draws select; the claim that every rearrangement comes from some draws is not proved.
- The module-level `revealed_boxes` grid, which `game_loop` shadows with its own.
- The second element of the pair `handle_box_click` returns, which is always `None` and which the caller discards; `Game.HandleBoxClick` stores the new pending pick in the session.
- Game.HandleBoxClick: requires the session invariant (a pending pick is on the board and face-up); the session establishes it and every click keeps it, so a call from any other state is not modelled. `Turns.ClickCell` itself accepts any on-board pending pick.
