/**
 * The plain data shared by every part of the engine: cell markers, coordinates,
 * step vectors, moves, and the value that marks a won position.
 */
module Cells {

  /** A board cell: empty or holding one side's marker. */
  datatype Cell = Empty | X | O

  /** An absolute board position; rows grow downward. */
  datatype Coords = Coords(row: nat, col: nat)

  /** A signed step vector used to walk along a line. */
  datatype DeltaCoords = DeltaCoords(row: int, col: int)

  /** A move: where a marker was placed and which side placed it. */
  datatype BoardMove = BoardMove(coords: Coords, side: Cell)

  /** The value of a position that X has won; O's win is its negation. */
  const XWinValue: int := 1000000

  /** True for the two values reserved for won positions. */
  predicate IsWin(v: int) {
    v == XWinValue || v == -XWinValue
  }

  /** The side that moves after `side`; the source panics on `Empty`. */
  function NextSide(side: Cell): (next: Cell)
    requires side != Empty
    ensures next != Empty && next != side
  {
    if side == X then O else X
  }

  /** Maps the winner of a line to a position value. */
  function WinnerValue(winner: Cell): (v: int)
    ensures IsWin(v) <==> winner != Empty
    ensures v > 0 <==> winner == X
    ensures v < 0 <==> winner == O
  {
    match winner
    case X => XWinValue
    case O => -XWinValue
    case Empty => 0
  }
}
