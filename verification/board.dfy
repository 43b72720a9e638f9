/**
 * The game board: a row-major grid of cells.
 *
 * `Board` is the board as a value, which is how game states own it (each child
 * state works on a clone). `MutableBoard` is the same board updated in place by
 * `set_cell`, `set_state` and `reset`; its methods are proved against the
 * functions of `Board`.
 */
module Boards {
  import opened Wrappers
  import opened Cells

  datatype Board = Board(cells: seq<Cell>, width: nat, height: nat) {

    /** The cell vector always holds `width * height` cells. */
    predicate Valid() {
      |cells| == width * height
    }

    /**
     * True when (row, col) lies on the board. The source takes unsigned
     * coordinates; a walk that steps below zero wraps to a huge value and
     * fails this test, which is what `0 <= row` and `0 <= col` model.
     */
    predicate InBounds(row: int, col: int) {
      0 <= row < height && 0 <= col < width
    }

    /** The row-major index of (row, col); unchecked, as in the source. */
    function GetIndex(row: nat, col: nat): nat {
      row * width + col
    }

    /** The position of a row-major index; dividing by a zero width panics in the source. */
    function GetCoords(idx: nat): Coords
      requires width > 0
    {
      Coords(idx / width, idx % width)
    }

    /** The marker at (row, col), or an error off the board. */
    function GetCell(row: int, col: int): (r: Result<Cell, ()>)
      requires Valid()
      ensures r.Err? <==> !InBounds(row, col)
      ensures r.Ok? ==> GetIndex(row, col) < |cells| && r.value == cells[GetIndex(row, col)]
    {
      if InBounds(row, col) then
        IndexInRange(this, row, col);
        Ok(cells[GetIndex(row, col)])
      else
        Err(())
    }

    /**
     * The board after `set_cell(row, col, mark)`, and whether the write took
     * place: only an empty cell on the board is written.
     */
    function SetCell(row: int, col: int, mark: Cell): (r: (Board, bool))
      requires Valid()
      ensures r.0.Valid() && r.0.width == width && r.0.height == height
      ensures r.1 <==> GetCell(row, col) == Ok(Empty)
      ensures r.1 ==> r.0.cells == cells[GetIndex(row, col) := mark]
      ensures !r.1 ==> r.0 == this
    {
      if !InBounds(row, col) then
        (this, false)
      else if GetCell(row, col) != Ok(Empty) then
        (this, false)
      else
        (this.(cells := cells[GetIndex(row, col) := mark]), true)
    }

    /** The board after `set_state(state)`: a vector of the wrong length is refused. */
    function SetState(state: seq<Cell>): (r: Result<Board, ()>)
      requires Valid()
      ensures r.Err? <==> |state| != width * height
      ensures r.Ok? ==> r.value.Valid() && r.value.cells == state
                        && r.value.width == width && r.value.height == height
    {
      if |state| != width * height then Err(()) else Ok(this.(cells := state))
    }

    /** The board after `reset`: every cell empty, dimensions kept. */
    function Reset(): (r: Board)
      requires Valid()
      ensures r.Valid() && r.width == width && r.height == height
      ensures forall i | 0 <= i < |r.cells| :: r.cells[i] == Empty
    {
      this.(cells := seq(|cells|, _ => Empty))
    }

    /**
     * The largest row below `k` whose cell in column `col` is empty, searching
     * upward from row `k - 1`; a column off the board has no empty cell.
     */
    function LowestEmptyRow(col: int, k: nat): (r: Option<nat>)
      requires Valid()
      ensures r.Some? ==> r.value < k && GetCell(r.value, col) == Ok(Empty)
      ensures r.Some? ==> forall row | r.value < row < k :: GetCell(row, col) != Ok(Empty)
      ensures r.None? ==> forall row | 0 <= row < k :: GetCell(row, col) != Ok(Empty)
      decreases k
    {
      if k == 0 then None
      else if GetCell(k - 1, col) == Ok(Empty) then Some(k - 1)
      else LowestEmptyRow(col, k - 1)
    }

    /**
     * The lowest empty position in column `col`, scanning from the bottom row
     * up; a full column (or a column off the board) yields the sentinel (0, col).
     */
    function FirstEmptyInColumn(col: nat): (c: Coords)
      requires Valid()
      ensures c.col == col
      ensures GetCell(c.row, col) == Ok(Empty) ==>
                forall row | c.row < row < height :: GetCell(row, col) != Ok(Empty)
      ensures (exists row | 0 <= row < height :: GetCell(row, col) == Ok(Empty)) ==>
                GetCell(c.row, col) == Ok(Empty)
      ensures (forall row | 0 <= row < height :: GetCell(row, col) != Ok(Empty)) ==> c.row == 0
    {
      match LowestEmptyRow(col, height)
      case Some(row) => Coords(row, col)
      case None => Coords(0, col)
    }
  }

  /** `Board::new(height, width)`: an all-empty board of the given dimensions. */
  function New(height: nat, width: nat): (b: Board)
    ensures b.Valid() && b.height == height && b.width == width
    ensures forall i | 0 <= i < |b.cells| :: b.cells[i] == Empty
  {
    Board(seq(width * height, _ => Empty), width, height)
  }

  /** True when every cell of the board is empty. */
  predicate AllEmpty(b: Board) {
    forall i | 0 <= i < |b.cells| :: b.cells[i] == Empty
  }

  /** Multiplication by a natural number is monotonic. */
  lemma MulMonotonic(a: nat, b: nat, w: nat)
    requires a <= b
    ensures a * w <= b * w
  {
  }

  /** An in-bounds position has a row-major index inside the cell vector. */
  lemma IndexInRange(b: Board, row: int, col: int)
    requires b.InBounds(row, col)
    ensures b.GetIndex(row, col) < b.width * b.height
  {
    MulMonotonic(row + 1, b.height, b.width);
    assert (row + 1) * b.width == row * b.width + b.width;
  }

  /** The quotient and remainder of `row * width + col` by `width` are `row` and `col`. */
  lemma DivModUnique(row: nat, col: nat, width: nat)
    requires col < width
    ensures (row * width + col) / width == row
    ensures (row * width + col) % width == col
  {
    var i := row * width + col;
    var q, r := i / width, i % width;
    assert i == q * width + r;
    if q < row {
      MulMonotonic(q + 1, row, width);
      assert false;
    } else if q > row {
      MulMonotonic(row + 1, q, width);
      assert false;
    }
  }

  /**
   * `get_coords` inverts `get_index`: on a board with positive width, an
   * in-bounds position survives the round trip through its index.
   */
  lemma CoordsOfIndex(b: Board, row: nat, col: nat)
    requires b.InBounds(row, col)
    ensures b.width > 0 && b.GetCoords(b.GetIndex(row, col)) == Coords(row, col)
  {
    DivModUnique(row, col, b.width);
  }

  /**
   * `get_index` inverts `get_coords`: every index of the cell vector comes
   * back from its coordinates, and those coordinates are on the board.
   */
  lemma IndexOfCoords(b: Board, idx: nat)
    requires b.Valid() && idx < |b.cells|
    ensures b.width > 0
    ensures b.InBounds(b.GetCoords(idx).row, b.GetCoords(idx).col)
    ensures b.GetIndex(b.GetCoords(idx).row, b.GetCoords(idx).col) == idx
  {
    var w := b.width;
    assert w > 0 by {
      if w == 0 { assert false; }
    }
    var q, r := idx / w, idx % w;
    assert idx == q * w + r;
    if q >= b.height {
      MulMonotonic(b.height, q, w);
      assert false;
    }
  }

  /**
   * After a write succeeds, reading the cell gives the marker back and every
   * other cell reads as before; a second write to the same cell fails and
   * leaves the board unchanged.
   */
  lemma SetThenGet(b: Board, row: int, col: int, mark: Cell, row': int, col': int)
    requires b.Valid() && b.SetCell(row, col, mark).1
    requires mark != Empty
    ensures b.SetCell(row, col, mark).0.GetCell(row, col) == Ok(mark)
    ensures (row', col') != (row, col) ==>
              b.SetCell(row, col, mark).0.GetCell(row', col') == b.GetCell(row', col')
    ensures !b.SetCell(row, col, mark).0.SetCell(row, col, mark).1
    ensures b.SetCell(row, col, mark).0.SetCell(row, col, mark).0 == b.SetCell(row, col, mark).0
  {
    var b' := b.SetCell(row, col, mark).0;
    if (row', col') != (row, col) && b.InBounds(row', col') {
      IndexInRange(b, row', col');
      if b.GetIndex(row', col') == b.GetIndex(row, col) {
        CoordsOfIndex(b, row', col');
        CoordsOfIndex(b, row, col);
        assert false;
      }
    }
  }

  /** Resetting a board gives the board `new` builds with the same dimensions. */
  lemma ResetIsNew(b: Board)
    requires b.Valid()
    ensures b.Reset() == New(b.height, b.width)
  {
  }

  /** The column query finds the bottom row on an empty board. */
  lemma FirstEmptyOnEmptyBoard(b: Board, col: nat)
    requires b.Valid() && AllEmpty(b) && col < b.width
    ensures b.height > 0 ==> b.FirstEmptyInColumn(col) == Coords(b.height - 1, col)
  {
    if b.height > 0 {
      IndexInRange(b, b.height - 1, col);
      assert b.GetCell(b.height - 1, col) == Ok(Empty);
    }
  }

  /** The source's test of `get_coords`: on `new(3, 4)`, indices 0, 1, 6 lie at (0,0), (0,1), (1,2). */
  lemma GetCoordsExample()
    ensures New(3, 4).GetCoords(0) == Coords(0, 0)
    ensures New(3, 4).GetCoords(1) == Coords(0, 1)
    ensures New(3, 4).GetCoords(6) == Coords(1, 2)
  {
  }

  /**
   * The board as the source updates it in place. The width and height never
   * change after construction.
   */
  class MutableBoard {
    var cells: seq<Cell>
    const width: nat
    const height: nat

    ghost predicate Valid()
      reads this
    {
      Value().Valid()
    }

    /** The board's current value. */
    function Value(): Board
      reads this
    {
      Board(cells, width, height)
    }

    /** `Board::new(height, width)`. */
    constructor (height: nat, width: nat)
      ensures Valid() && Value() == New(height, width)
    {
      this.width := width;
      this.height := height;
      cells := seq(width * height, _ => Empty);
    }

    method SetCell(row: int, col: int, mark: Cell) returns (ok: bool)
      requires Valid()
      modifies this
      ensures Valid()
      ensures (Value(), ok) == old(Value()).SetCell(row, col, mark)
    {
      if !(0 <= row < height && 0 <= col < width) {
        return false;
      }
      IndexInRange(Value(), row, col);
      var idx := row * width + col;
      if cells[idx] != Empty {
        return false;
      }
      cells := cells[idx := mark];
      ok := true;
    }

    method SetState(state: seq<Cell>) returns (r: Result<(), ()>)
      requires Valid()
      modifies this
      ensures Valid()
      ensures r.Err? <==> old(Value()).SetState(state).Err?
      ensures r.Ok? ==> Value() == old(Value()).SetState(state).value
      ensures r.Err? ==> Value() == old(Value())
    {
      if |state| != width * height {
        return Err(());
      }
      cells := state;
      r := Ok(());
    }

    method Reset()
      requires Valid()
      modifies this
      ensures Valid()
      ensures Value() == old(Value()).Reset()
    {
      var i := 0;
      while i < |cells|
        invariant 0 <= i <= |cells| == old(|cells|)
        invariant forall k | 0 <= k < i :: cells[k] == Empty
      {
        cells := cells[i := Empty];
        i := i + 1;
      }
    }
  }
}
