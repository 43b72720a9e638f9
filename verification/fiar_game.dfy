/**
 * Four-in-a-row game states. Expanding a state drops the next side's stone
 * into each column that still has room, where it lands on the lowest empty
 * row; the position value asks `line_winner` for a run of 4 through the last
 * move.
 */
module FiarGame {
  import opened Wrappers
  import opened Cells
  import opened Boards
  import opened Lines

  datatype FiarGameState = FiarGameState(board: Board, lastMove: BoardMove) {
    /** The side that made the last move; the other side moves next. */
    function Side(): Cell {
      lastMove.side
    }

    /** A consistent board whose last move lies on it. */
    predicate WellFormed() {
      board.Valid() && board.InBounds(lastMove.coords.row, lastMove.coords.col)
    }
  }

  /** The start of a game: an empty board 6 rows high and 7 columns wide, "last" side O. */
  function Default(): (s: FiarGameState)
    ensures s.WellFormed() && s.Side() == O
    ensures s.board.height == 6 && s.board.width == 7 && AllEmpty(s.board)
    ensures s.lastMove.coords == Coords(0, 0)
  {
    FiarGameState(New(6, 7), BoardMove(Coords(0, 0), O))
  }

  /** The child in which `next` drops a stone onto (row, col). */
  function Drop(s: FiarGameState, next: Cell, row: nat, col: nat): FiarGameState
    requires s.board.Valid()
  {
    FiarGameState(s.board.SetCell(row, col, next).0, BoardMove(Coords(row, col), next))
  }

  /** The children for the columns from `col` on: one per column with an empty cell. */
  function ChildrenFrom(s: FiarGameState, next: Cell, col: nat): seq<FiarGameState>
    requires s.board.Valid() && col <= s.board.width
    decreases s.board.width - col
  {
    if col == s.board.width then
      []
    else
      match s.board.LowestEmptyRow(col, s.board.height)
      case Some(row) => [Drop(s, next, row, col)] + ChildrenFrom(s, next, col + 1)
      case None => ChildrenFrom(s, next, col + 1)
  }

  /** What `expand` returns; the source panics when the last side is `Empty`. */
  function Children(s: FiarGameState): seq<FiarGameState>
    requires s.board.Valid() && s.Side() != Empty
  {
    ChildrenFrom(s, NextSide(s.Side()), 0)
  }

  /**
   * `expand`: for each column, scan from the bottom row up and drop the next
   * side's stone on the first empty cell, then go on with the next column.
   */
  method Expand(s: FiarGameState) returns (kids: seq<FiarGameState>)
    requires s.board.Valid() && s.Side() != Empty
    ensures kids == Children(s)
  {
    var next := match s.lastMove.side
      case X => O
      case O => X;
    kids := [];
    label ColumnLoop:
    for col := 0 to s.board.width
      invariant kids + ChildrenFrom(s, next, col) == Children(s)
    {
      for row := s.board.height downto 0
        invariant s.board.LowestEmptyRow(col, s.board.height) == s.board.LowestEmptyRow(col, row)
      {
        if s.board.GetCell(row, col) == Ok(Empty) {
          kids := kids + [Drop(s, next, row, col)];
          continue ColumnLoop;
        }
      }
    }
  }

  /** `position_value`: the value of the winner on the lines through the last move, run length 4. */
  function PositionValue(s: FiarGameState): int
    requires s.WellFormed()
  {
    WinnerValue(LineWinner(s.board, s.lastMove.coords, 4))
  }

  /**
   * `k` drops `next`'s stone into its column: the stone lands on the lowest
   * empty row of that column, and the board changes in that cell only.
   */
  predicate IsDrop(s: FiarGameState, next: Cell, k: FiarGameState)
    requires s.board.Valid()
  {
    var c := k.lastMove.coords;
    && c.col < s.board.width
    && k.lastMove.side == next
    && s.board.LowestEmptyRow(c.col, s.board.height) == Some(c.row)
    && k.board == s.board.(cells := s.board.cells[s.board.GetIndex(c.row, c.col) := next])
  }

  /** A drop onto the lowest empty row of a column is a drop in the sense of `IsDrop`. */
  lemma DropSpec(s: FiarGameState, next: Cell, row: nat, col: nat)
    requires s.board.Valid() && col < s.board.width
    requires s.board.LowestEmptyRow(col, s.board.height) == Some(row)
    ensures IsDrop(s, next, Drop(s, next, row, col))
    ensures Drop(s, next, row, col).lastMove.coords == Coords(row, col)
  {
  }

  /**
   * The children for the columns from `col` on are drops into columns at or
   * after `col`, at most one per column.
   */
  lemma {:induction false} ChildrenFromDrops(s: FiarGameState, next: Cell, col: nat)
    requires s.board.Valid() && col <= s.board.width
    ensures |ChildrenFrom(s, next, col)| <= s.board.width - col
    ensures forall j | 0 <= j < |ChildrenFrom(s, next, col)| ::
      IsDrop(s, next, ChildrenFrom(s, next, col)[j]) && col <= ChildrenFrom(s, next, col)[j].lastMove.coords.col
    decreases s.board.width - col
  {
    if col < s.board.width {
      ChildrenFromDrops(s, next, col + 1);
      var rest := ChildrenFrom(s, next, col + 1);
      var kids := ChildrenFrom(s, next, col);
      match s.board.LowestEmptyRow(col, s.board.height)
      case Some(row) =>
        DropSpec(s, next, row, col);
        assert kids == [Drop(s, next, row, col)] + rest;
        forall j | 0 <= j < |kids| ensures IsDrop(s, next, kids[j]) && col <= kids[j].lastMove.coords.col {
          if j > 0 {
            assert kids[j] == rest[j - 1];
          }
        }
      case None =>
        assert kids == rest;
    }
  }

  /** The children for the columns from `col` on come in strictly increasing column order. */
  lemma {:induction false} ChildrenFromOrdered(s: FiarGameState, next: Cell, col: nat)
    requires s.board.Valid() && col <= s.board.width
    ensures forall j, j' | 0 <= j < j' < |ChildrenFrom(s, next, col)| ::
      ChildrenFrom(s, next, col)[j].lastMove.coords.col < ChildrenFrom(s, next, col)[j'].lastMove.coords.col
    decreases s.board.width - col
  {
    if col < s.board.width {
      ChildrenFromOrdered(s, next, col + 1);
      ChildrenFromDrops(s, next, col + 1);
      var rest := ChildrenFrom(s, next, col + 1);
      var kids := ChildrenFrom(s, next, col);
      match s.board.LowestEmptyRow(col, s.board.height)
      case Some(row) =>
        DropSpec(s, next, row, col);
        assert kids == [Drop(s, next, row, col)] + rest;
        forall j, j' | 0 <= j < j' < |kids|
          ensures kids[j].lastMove.coords.col < kids[j'].lastMove.coords.col
        {
          assert kids[j'] == rest[j' - 1];
          if j > 0 {
            assert kids[j] == rest[j - 1];
          }
        }
      case None =>
        assert kids == rest;
    }
  }

  /** Some child in `kids` sits in column `col`. */
  ghost predicate HasChildInColumn(kids: seq<FiarGameState>, col: nat) {
    exists j | 0 <= j < |kids| :: kids[j].lastMove.coords.col == col
  }

  /** Every column at or after `col` that has an empty cell gets a child. */
  lemma {:induction false} ChildrenFromCovers(s: FiarGameState, next: Cell, col: nat)
    requires s.board.Valid() && col <= s.board.width
    ensures forall c | col <= c < s.board.width && s.board.LowestEmptyRow(c, s.board.height).Some? ::
      HasChildInColumn(ChildrenFrom(s, next, col), c)
    decreases s.board.width - col
  {
    if col < s.board.width {
      ChildrenFromCovers(s, next, col + 1);
      var rest := ChildrenFrom(s, next, col + 1);
      var kids := ChildrenFrom(s, next, col);
      match s.board.LowestEmptyRow(col, s.board.height)
      case Some(row) =>
        assert kids == [Drop(s, next, row, col)] + rest;
        forall c | col <= c < s.board.width && s.board.LowestEmptyRow(c, s.board.height).Some?
          ensures HasChildInColumn(kids, c)
        {
          if c == col {
            assert kids[0].lastMove.coords.col == c;
          } else {
            assert HasChildInColumn(rest, c);
            var j :| 0 <= j < |rest| && rest[j].lastMove.coords.col == c;
            assert kids[j + 1].lastMove.coords.col == c;
          }
        }
      case None =>
        assert kids == rest;
    }
  }

  /**
   * `expand` yields at most `width` children, at most one per column, in
   * increasing column order; each drops the next side's stone onto the
   * lowest empty row of its column and changes no other cell. A column has
   * a child exactly when it has an empty cell, so a full column has none.
   */
  lemma ChildrenSpec(s: FiarGameState)
    requires s.board.Valid() && s.Side() != Empty
    ensures var kids, next := Children(s), NextSide(s.Side());
      && |kids| <= s.board.width
      && (forall j | 0 <= j < |kids| :: IsDrop(s, next, kids[j]))
      && (forall j, j' | 0 <= j < j' < |kids| :: kids[j].lastMove.coords.col < kids[j'].lastMove.coords.col)
      && (forall c | 0 <= c < s.board.width ::
            HasChildInColumn(kids, c) <==> s.board.LowestEmptyRow(c, s.board.height).Some?)
  {
    var next := NextSide(s.Side());
    ChildrenFromDrops(s, next, 0);
    ChildrenFromOrdered(s, next, 0);
    ChildrenFromCovers(s, next, 0);
    var kids := Children(s);
    forall c | 0 <= c < s.board.width && HasChildInColumn(kids, c)
      ensures s.board.LowestEmptyRow(c, s.board.height).Some?
    {
      var j :| 0 <= j < |kids| && kids[j].lastMove.coords.col == c;
      assert IsDrop(s, next, kids[j]);
    }
  }

  /**
   * Every child is a well-formed state of the same dimensions whose side is
   * the opposite of the parent's, never `Empty`.
   */
  lemma ChildrenWellFormed(s: FiarGameState)
    requires s.board.Valid() && s.Side() != Empty
    ensures forall k | k in Children(s) ::
      && k.WellFormed() && k.board.width == s.board.width && k.board.height == s.board.height
      && k.Side() != Empty && k.Side() != s.Side()
  {
    ChildrenSpec(s);
    forall k | k in Children(s)
      ensures k.WellFormed() && k.board.width == s.board.width && k.board.height == s.board.height
    {
      var j :| 0 <= j < |Children(s)| && Children(s)[j] == k;
      assert IsDrop(s, NextSide(s.Side()), k);
      var c := k.lastMove.coords;
      assert s.board.GetCell(c.row, c.col) == Ok(Empty);
    }
  }

  /**
   * On an empty board of positive height, the children from column `col`
   * on are one per column, in order, each on the bottom row.
   */
  lemma {:induction false} EmptyBoardChildrenFrom(s: FiarGameState, next: Cell, col: nat)
    requires s.board.Valid() && AllEmpty(s.board) && s.board.height > 0 && col <= s.board.width
    ensures |ChildrenFrom(s, next, col)| == s.board.width - col
    ensures forall j | 0 <= j < |ChildrenFrom(s, next, col)| ::
      ChildrenFrom(s, next, col)[j].lastMove.coords == Coords(s.board.height - 1, col + j)
    decreases s.board.width - col
  {
    if col < s.board.width {
      FirstEmptyOnEmptyBoard(s.board, col);
      EmptyBoardChildrenFrom(s, next, col + 1);
      var rest := ChildrenFrom(s, next, col + 1);
      assert s.board.LowestEmptyRow(col, s.board.height) == Some(s.board.height - 1);
      var kids := ChildrenFrom(s, next, col);
      assert kids == [Drop(s, next, s.board.height - 1, col)] + rest;
      forall j | 0 <= j < |kids| ensures kids[j].lastMove.coords == Coords(s.board.height - 1, col + j) {
        if j > 0 {
          assert kids[j] == rest[j - 1];
        }
      }
    }
  }

  /** Every cell of the rows above `bottom` is empty. */
  ghost predicate EmptyAbove(b: Board, bottom: int) {
    b.Valid() && forall row, col | 0 <= row < bottom && 0 <= col < b.width :: b.GetCell(row, col) == Ok(Empty)
  }

  /**
   * A drop onto the bottom row of an empty board leaves every cell above the
   * bottom row empty.
   */
  lemma BottomDropKeepsUpperRowsEmpty(s: FiarGameState, next: Cell, k: FiarGameState)
    requires s.board.Valid() && AllEmpty(s.board) && IsDrop(s, next, k)
    requires k.lastMove.coords.row == s.board.height - 1
    ensures EmptyAbove(k.board, s.board.height - 1)
  {
    var c := k.lastMove.coords;
    forall row, col | 0 <= row < s.board.height - 1 && 0 <= col < s.board.width
      ensures k.board.GetCell(row, col) == Ok(Empty)
    {
      DropKeepsHigherCell(s, next, k, row, col);
    }
  }

  /** A drop leaves every cell in a row above the dropped piece as it was on an empty board. */
  lemma DropKeepsHigherCell(s: FiarGameState, next: Cell, k: FiarGameState, row: nat, col: nat)
    requires s.board.Valid() && AllEmpty(s.board) && IsDrop(s, next, k)
    requires row < k.lastMove.coords.row && col < s.board.width
    ensures k.board.GetCell(row, col) == Ok(Empty)
  {
    var b, c := s.board, k.lastMove.coords;
    MulMonotonic(row + 1, c.row, b.width);
    assert (row + 1) * b.width == row * b.width + b.width;
    var i := b.GetIndex(row, col);
    assert i < b.GetIndex(c.row, c.col);
    IndexInRange(b, row, col);
    assert k.board.cells[i] == b.cells[i];
  }

  /**
   * The source's test of `expand` on the empty board: every column gets a
   * child, on the bottom row, and every cell above the bottom row of each
   * child's board is still empty.
   */
  lemma EmptyBoardChildren(s: FiarGameState)
    requires s.board.Valid() && AllEmpty(s.board) && s.board.height > 0 && s.Side() != Empty
    ensures |Children(s)| == s.board.width
    ensures forall j | 0 <= j < |Children(s)| ::
      Children(s)[j].lastMove.coords == Coords(s.board.height - 1, j)
    ensures forall k | k in Children(s) :: EmptyAbove(k.board, s.board.height - 1)
  {
    var next := NextSide(s.Side());
    EmptyBoardChildrenFrom(s, next, 0);
    ChildrenSpec(s);
    forall k | k in Children(s)
      ensures EmptyAbove(k.board, s.board.height - 1)
    {
      var j :| 0 <= j < |Children(s)| && Children(s)[j] == k;
      BottomDropKeepsUpperRowsEmpty(s, next, k);
    }
  }

  /** The default game starts with 7 children, one per column, each on row 5. */
  lemma DefaultChildren()
    ensures |Children(Default())| == 7
    ensures forall j | 0 <= j < 7 :: Children(Default())[j].lastMove == BoardMove(Coords(5, j), X)
  {
    EmptyBoardChildren(Default());
  }

  /**
   * The position value is a win exactly when one of the four lines through
   * the last move holds 4 equal non-empty cells. The first such line, in the
   * order horizontal, vertical, diagonal down, diagonal up, decides:
   * X_WIN_VALUE when it holds an X run, its negation when it holds an O run.
   */
  lemma PositionValueSpec(s: FiarGameState)
    requires s.WellFormed()
    ensures var v, m := PositionValue(s), s.lastMove.coords;
      && (v == XWinValue ==> exists k, e | 0 <= k < 4 :: RunEndsAt(LineOf(s.board, m, k), e, 4, X)
                                && forall k', e', c | 0 <= k' < k :: !RunEndsAt(LineOf(s.board, m, k'), e', 4, c))
      && (v == -XWinValue ==> exists k, e | 0 <= k < 4 :: RunEndsAt(LineOf(s.board, m, k), e, 4, O)
                                && forall k', e', c | 0 <= k' < k :: !RunEndsAt(LineOf(s.board, m, k'), e', 4, c))
      && (v == 0 <==> forall k, e, c | 0 <= k < 4 :: !RunEndsAt(LineOf(s.board, m, k), e, 4, c))
      && (v == XWinValue || v == -XWinValue || v == 0)
  {
    LineWinnerSpec(s.board, s.lastMove.coords, 4);
  }
}
