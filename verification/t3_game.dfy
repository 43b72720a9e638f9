/**
 * Tic-tac-toe game states: a board and the move that produced it. Expanding a
 * state places the next side's stone on each empty cell in turn, in row-major
 * index order; the position value asks `line_winner` for a run of 3 through
 * the last move.
 */
module T3Game {
  import opened Wrappers
  import opened Cells
  import opened Boards
  import opened Lines

  datatype T3GameState = T3GameState(board: Board, lastMove: BoardMove) {
    /** The side that made the last move; the other side moves next. */
    function Side(): Cell {
      lastMove.side
    }

    /** A consistent board whose last move lies on it. */
    predicate WellFormed() {
      board.Valid() && board.InBounds(lastMove.coords.row, lastMove.coords.col)
    }

    /** The row-major index of the last move. */
    function MoveIndex(): nat {
      board.GetIndex(lastMove.coords.row, lastMove.coords.col)
    }
  }

  /** The start of a game: an empty 3×3 board; X moves first, so the "last" side was O. */
  function Default(): (s: T3GameState)
    ensures s.WellFormed() && s.Side() == O
    ensures s.board.height == 3 && s.board.width == 3 && AllEmpty(s.board)
    ensures s.lastMove.coords == Coords(0, 0)
  {
    T3GameState(New(3, 3), BoardMove(Coords(0, 0), O))
  }

  /**
   * `k` is a child of `s` obtained by `next` placing a stone: its move is on
   * an empty cell of the parent, its board is the parent's with exactly that
   * cell set to `next`, and its side is `next`.
   */
  predicate IsPlacement(s: T3GameState, next: Cell, k: T3GameState)
    requires s.board.Valid()
  {
    var c := k.lastMove.coords;
    && k.lastMove.side == next
    && s.board.GetCell(c.row, c.col) == Ok(Empty)
    && k.board == s.board.(cells := s.board.cells[s.board.GetIndex(c.row, c.col) := next])
  }

  /** The child in which `next` places a stone on the cell of row-major index `i`. */
  function Placement(s: T3GameState, next: Cell, i: nat): T3GameState
    requires s.board.Valid() && i < |s.board.cells|
  {
    IndexOfCoords(s.board, i);
    var c := s.board.GetCoords(i);
    T3GameState(s.board.SetCell(c.row, c.col, next).0, BoardMove(c, next))
  }

  /** The `filter_map` of `expand` over the cells from index `i` on. */
  function ExpandFrom(s: T3GameState, next: Cell, i: nat): seq<T3GameState>
    requires s.board.Valid() && i <= |s.board.cells|
    decreases |s.board.cells| - i
  {
    if i == |s.board.cells| then
      []
    else if s.board.cells[i] == Empty then
      [Placement(s, next, i)] + ExpandFrom(s, next, i + 1)
    else
      ExpandFrom(s, next, i + 1)
  }

  /** `expand`: one child per empty cell; the source panics when the last side is `Empty`. */
  function Expand(s: T3GameState): seq<T3GameState>
    requires s.board.Valid() && s.Side() != Empty
  {
    ExpandFrom(s, NextSide(s.Side()), 0)
  }

  /** `position_value`: the value of the winner on the lines through the last move, run length 3. */
  function PositionValue(s: T3GameState): int
    requires s.WellFormed()
  {
    WinnerValue(LineWinner(s.board, s.lastMove.coords, 3))
  }

  /** The number of empty cells. */
  function EmptyCount(cells: seq<Cell>): nat {
    multiset(cells)[Empty]
  }

  /** Placing on an empty cell is a placement whose move has index `i`. */
  lemma PlacementSpec(s: T3GameState, next: Cell, i: nat)
    requires s.board.Valid() && i < |s.board.cells| && s.board.cells[i] == Empty
    ensures IsPlacement(s, next, Placement(s, next, i)) && Placement(s, next, i).MoveIndex() == i
  {
    IndexOfCoords(s.board, i);
  }

  /** The children from index `i` on number the empty cells at or after `i`. */
  lemma {:induction false} ExpandFromCount(s: T3GameState, next: Cell, i: nat)
    requires s.board.Valid() && i <= |s.board.cells|
    ensures |ExpandFrom(s, next, i)| == EmptyCount(s.board.cells[i..])
    decreases |s.board.cells| - i
  {
    var cells := s.board.cells;
    if i < |cells| {
      assert cells[i..] == [cells[i]] + cells[i + 1..];
      ExpandFromCount(s, next, i + 1);
    }
  }

  /** The children from index `i` on are placements on cells at or after `i`. */
  lemma {:induction false} ExpandFromPlacements(s: T3GameState, next: Cell, i: nat)
    requires s.board.Valid() && i <= |s.board.cells|
    ensures forall j | 0 <= j < |ExpandFrom(s, next, i)| ::
      IsPlacement(s, next, ExpandFrom(s, next, i)[j]) && i <= ExpandFrom(s, next, i)[j].MoveIndex()
    decreases |s.board.cells| - i
  {
    if i < |s.board.cells| {
      ExpandFromPlacements(s, next, i + 1);
      var rest := ExpandFrom(s, next, i + 1);
      if s.board.cells[i] == Empty {
        PlacementSpec(s, next, i);
        var kids := ExpandFrom(s, next, i);
        assert kids == [Placement(s, next, i)] + rest;
        forall j | 0 <= j < |kids| ensures IsPlacement(s, next, kids[j]) && i <= kids[j].MoveIndex() {
          if j > 0 {
            assert kids[j] == rest[j - 1];
            assert IsPlacement(s, next, rest[j - 1]) && i + 1 <= rest[j - 1].MoveIndex();
          }
        }
      }
    }
  }

  /** The children from index `i` on come in strictly increasing cell index order. */
  lemma {:induction false} ExpandFromOrdered(s: T3GameState, next: Cell, i: nat)
    requires s.board.Valid() && i <= |s.board.cells|
    ensures forall j, j' | 0 <= j < j' < |ExpandFrom(s, next, i)| ::
      ExpandFrom(s, next, i)[j].MoveIndex() < ExpandFrom(s, next, i)[j'].MoveIndex()
    decreases |s.board.cells| - i
  {
    if i < |s.board.cells| {
      ExpandFromOrdered(s, next, i + 1);
      ExpandFromPlacements(s, next, i + 1);
      var rest := ExpandFrom(s, next, i + 1);
      if s.board.cells[i] == Empty {
        PlacementSpec(s, next, i);
        var kids := ExpandFrom(s, next, i);
        assert kids == [Placement(s, next, i)] + rest;
        forall j, j' | 0 <= j < j' < |kids| ensures kids[j].MoveIndex() < kids[j'].MoveIndex() {
          assert kids[j'] == rest[j' - 1];
          assert i + 1 <= rest[j' - 1].MoveIndex();
          if j > 0 {
            assert kids[j] == rest[j - 1];
          }
        }
      }
    }
  }

  /** Some child in `kids` places its stone on the cell of index `idx`. */
  ghost predicate HasChildAt(kids: seq<T3GameState>, idx: nat) {
    exists j | 0 <= j < |kids| :: kids[j].MoveIndex() == idx
  }

  /** Every empty cell at or after `i` has a child among those from index `i` on. */
  lemma {:induction false} ExpandFromCovers(s: T3GameState, next: Cell, i: nat)
    requires s.board.Valid() && i <= |s.board.cells|
    ensures forall idx | i <= idx < |s.board.cells| && s.board.cells[idx] == Empty ::
      HasChildAt(ExpandFrom(s, next, i), idx)
    decreases |s.board.cells| - i
  {
    if i < |s.board.cells| {
      ExpandFromCovers(s, next, i + 1);
      var rest := ExpandFrom(s, next, i + 1);
      var kids := ExpandFrom(s, next, i);
      if s.board.cells[i] == Empty {
        PlacementSpec(s, next, i);
        assert kids == [Placement(s, next, i)] + rest;
        forall idx | i <= idx < |s.board.cells| && s.board.cells[idx] == Empty
          ensures HasChildAt(kids, idx)
        {
          if idx == i {
            assert kids[0].MoveIndex() == idx;
          } else {
            assert HasChildAt(rest, idx);
            var j :| 0 <= j < |rest| && rest[j].MoveIndex() == idx;
            assert kids[j + 1].MoveIndex() == idx;
          }
        }
      } else {
        assert kids == rest;
      }
    }
  }

  /**
   * `expand` yields exactly one child per empty cell, in row-major index
   * order: each child places the next side's stone on an empty cell of the
   * parent and changes nothing else, the children's cells strictly increase,
   * and every empty cell has its child.
   */
  lemma ExpandSpec(s: T3GameState)
    requires s.board.Valid() && s.Side() != Empty
    ensures var kids := Expand(s);
      && |kids| == EmptyCount(s.board.cells)
      && (forall j | 0 <= j < |kids| :: IsPlacement(s, NextSide(s.Side()), kids[j]))
      && (forall j, j' | 0 <= j < j' < |kids| :: kids[j].MoveIndex() < kids[j'].MoveIndex())
      && (forall idx | 0 <= idx < |s.board.cells| && s.board.cells[idx] == Empty :: HasChildAt(kids, idx))
  {
    var next := NextSide(s.Side());
    ExpandFromCount(s, next, 0);
    ExpandFromPlacements(s, next, 0);
    ExpandFromOrdered(s, next, 0);
    ExpandFromCovers(s, next, 0);
    assert s.board.cells[0..] == s.board.cells;
  }

  /**
   * Every child is a well-formed state of the same dimensions whose side is
   * the opposite of the parent's, never `Empty`.
   */
  lemma ExpandChildren(s: T3GameState)
    requires s.board.Valid() && s.Side() != Empty
    ensures forall k | k in Expand(s) ::
      && k.WellFormed() && k.board.width == s.board.width && k.board.height == s.board.height
      && k.Side() != Empty && k.Side() != s.Side()
  {
    ExpandSpec(s);
    forall k | k in Expand(s)
      ensures k.WellFormed() && k.board.width == s.board.width && k.board.height == s.board.height
    {
      var j :| 0 <= j < |Expand(s)| && Expand(s)[j] == k;
      assert IsPlacement(s, NextSide(s.Side()), k);
    }
  }

  /**
   * The position value is a win exactly when one of the four lines through
   * the last move holds 3 equal non-empty cells. The first such line, in the
   * order horizontal, vertical, diagonal down, diagonal up, decides:
   * X_WIN_VALUE when it holds an X run, its negation when it holds an O run.
   */
  lemma PositionValueSpec(s: T3GameState)
    requires s.WellFormed()
    ensures var v, m := PositionValue(s), s.lastMove.coords;
      && (v == XWinValue ==> exists k, e | 0 <= k < 4 :: RunEndsAt(LineOf(s.board, m, k), e, 3, X)
                                && forall k', e', c | 0 <= k' < k :: !RunEndsAt(LineOf(s.board, m, k'), e', 3, c))
      && (v == -XWinValue ==> exists k, e | 0 <= k < 4 :: RunEndsAt(LineOf(s.board, m, k), e, 3, O)
                                && forall k', e', c | 0 <= k' < k :: !RunEndsAt(LineOf(s.board, m, k'), e', 3, c))
      && (v == 0 <==> forall k, e, c | 0 <= k < 4 :: !RunEndsAt(LineOf(s.board, m, k), e, 3, c))
      && (v == XWinValue || v == -XWinValue || v == 0)
  {
    LineWinnerSpec(s.board, s.lastMove.coords, 3);
  }

  /** The reference position of the source's tests: X _ X / O _ O / X _ O, last move O at (2, 2). */
  function RefState(): T3GameState {
    T3GameState(Board([X, Empty, X, O, Empty, O, X, Empty, O], 3, 3), BoardMove(Coords(2, 2), O))
  }

  /** The source's test of `expand`: the reference position has 3 empty cells, hence 3 children. */
  lemma ExpandExample()
    ensures |Expand(RefState())| == 3
  {
    var s := RefState();
    ExpandSpec(s);
    assert s.board.cells == [X, Empty, X, O, Empty, O, X, Empty, O];
    assert multiset(s.board.cells)[Empty] == 3;
  }

  /** An empty board has one child per cell. */
  lemma ExpandEmptyBoard(s: T3GameState)
    requires s.board.Valid() && s.Side() != Empty && AllEmpty(s.board)
    ensures |Expand(s)| == |s.board.cells|
  {
    ExpandSpec(s);
    AllEmptyCount(s.board.cells);
  }

  lemma {:induction false} AllEmptyCount(cells: seq<Cell>)
    requires forall i | 0 <= i < |cells| :: cells[i] == Empty
    ensures EmptyCount(cells) == |cells|
  {
    if cells != [] {
      assert cells == [cells[0]] + cells[1..];
      AllEmptyCount(cells[1..]);
    }
  }
}
