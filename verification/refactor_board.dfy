/**
 * The board of the older `refactor` engine. Its cell vector, bounds test,
 * index arithmetic, writes, state replacement and reset are the same as the
 * main board's (module `Boards`); only the constructor takes its arguments in
 * the other order, width first.
 */
module RefactorBoard {
  import opened Cells
  import opened Boards

  /** `Board::new(width, height)`: an all-empty board, width given first. */
  function New(width: nat, height: nat): (b: Board)
    ensures b.Valid() && b.width == width && b.height == height
    ensures |b.cells| == width * height && AllEmpty(b)
  {
    Board(seq(width * height, _ => Empty), width, height)
  }

  /** The two constructors build the same board once their arguments are swapped. */
  lemma NewSwapsArguments(width: nat, height: nat)
    ensures New(width, height) == Boards.New(height, width)
  {
  }

  /**
   * The source's test of `get_coords`: on `new(4, 3)` (4 wide, 3 high),
   * indices 0, 1, 6 lie at (0,0), (0,1), (1,2), and (1,2) has index 6
   * again.
   */
  lemma GetCoordsExample()
    ensures New(4, 3).GetCoords(0) == Coords(0, 0)
    ensures New(4, 3).GetCoords(1) == Coords(0, 1)
    ensures New(4, 3).GetCoords(6) == Coords(1, 2)
    ensures New(4, 3).GetIndex(1, 2) == 6
  {
  }
}
