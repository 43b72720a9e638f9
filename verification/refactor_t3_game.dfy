/**
 * Tic-tac-toe states of the older `refactor` engine. They differ from the
 * main engine's (module `T3Game`) in three ways: the last move is a flat
 * `T3Move` record, the default state's last side is X rather than O, and
 * `line_winner` is a method of the state with the run length fixed at 3.
 * Expansion is the same `filter_map` over the empty cells; it is modelled by
 * carrying a state over to the main engine's form and back.
 */
module RefactorT3Game {
  import opened Cells
  import opened Boards
  import opened Lines
  import T3Game
  import RefactorBoard

  /** A move: the row and column of the stone and the side that placed it. */
  datatype T3Move = T3Move(row: nat, col: nat, side: Cell)

  datatype T3GameState = T3GameState(board: Board, lastMove: T3Move) {
    /** The side that made the last move. */
    function Side(): Cell {
      lastMove.side
    }

    /** A consistent board whose last move lies on it. */
    predicate WellFormed() {
      board.Valid() && board.InBounds(lastMove.row, lastMove.col)
    }

    /** The last move in the main engine's `BoardMove` form. */
    function Move(): BoardMove {
      BoardMove(Coords(lastMove.row, lastMove.col), lastMove.side)
    }
  }

  /** The same state in the main engine's form. */
  function AsMain(s: T3GameState): (m: T3Game.T3GameState)
    ensures m.board == s.board && m.Side() == s.Side()
    ensures m.lastMove.coords == Coords(s.lastMove.row, s.lastMove.col)
  {
    T3Game.T3GameState(s.board, s.Move())
  }

  /** A main-engine state in this engine's form. */
  function FromMain(m: T3Game.T3GameState): (s: T3GameState)
    ensures AsMain(s) == m
  {
    T3GameState(m.board, T3Move(m.lastMove.coords.row, m.lastMove.coords.col, m.lastMove.side))
  }

  /** The start of a game: an empty 3×3 board with last move (0, 0) by X, so O moves first. */
  function Default(): (s: T3GameState)
    ensures s.WellFormed() && s.Side() == X && s.lastMove.row == 0 && s.lastMove.col == 0
    ensures s.board.width == 3 && s.board.height == 3 && AllEmpty(s.board)
  {
    T3GameState(RefactorBoard.New(3, 3), T3Move(0, 0, X))
  }

  /** `line_winner`: the first run of 3 on the four lines through the last move. */
  function LineWinnerOf(s: T3GameState): Cell
    requires s.WellFormed()
  {
    LineWinner(s.board, Coords(s.lastMove.row, s.lastMove.col), 3)
  }

  /** `expand`: one child per empty cell in index order; the source panics when the last side is `Empty`. */
  function Expand(s: T3GameState): (kids: seq<T3GameState>)
    requires s.board.Valid() && s.Side() != Empty
  {
    var main := T3Game.Expand(AsMain(s));
    seq(|main|, j requires 0 <= j < |main| => FromMain(main[j]))
  }

  /** `position_value`: X_WIN_VALUE, its negation or 0 for an X run, an O run or none. */
  function PositionValue(s: T3GameState): int
    requires s.WellFormed()
  {
    WinnerValue(LineWinnerOf(s))
  }

  /**
   * `expand` yields one child per empty cell, in strictly increasing cell
   * index order; each child places the next side's stone on an empty cell
   * of the parent and changes nothing else.
   */
  lemma ExpandSpec(s: T3GameState)
    requires s.board.Valid() && s.Side() != Empty
    ensures |Expand(s)| == T3Game.EmptyCount(s.board.cells)
    ensures forall j | 0 <= j < |Expand(s)| ::
      T3Game.IsPlacement(AsMain(s), NextSide(s.Side()), AsMain(Expand(s)[j]))
    ensures forall j, j' | 0 <= j < j' < |Expand(s)| ::
      AsMain(Expand(s)[j]).MoveIndex() < AsMain(Expand(s)[j']).MoveIndex()
    ensures forall idx | 0 <= idx < |s.board.cells| && s.board.cells[idx] == Empty ::
      exists j | 0 <= j < |Expand(s)| :: AsMain(Expand(s)[j]).MoveIndex() == idx
  {
    var kids, main, next := Expand(s), T3Game.Expand(AsMain(s)), NextSide(s.Side());
    T3Game.ExpandSpec(AsMain(s));
    ExpandIsMain(s);
    forall j | 0 <= j < |kids| ensures T3Game.IsPlacement(AsMain(s), next, AsMain(kids[j])) {
      assert AsMain(kids[j]) == main[j];
    }
    forall j, j' | 0 <= j < j' < |kids| ensures AsMain(kids[j]).MoveIndex() < AsMain(kids[j']).MoveIndex() {
      assert AsMain(kids[j]) == main[j] && AsMain(kids[j']) == main[j'];
    }
    forall idx | 0 <= idx < |s.board.cells| && s.board.cells[idx] == Empty
      ensures exists j | 0 <= j < |kids| :: AsMain(kids[j]).MoveIndex() == idx
    {
      assert T3Game.HasChildAt(main, idx);
      var j :| 0 <= j < |main| && main[j].MoveIndex() == idx;
      assert AsMain(kids[j]) == main[j];
    }
  }

  /** The children are the main engine's children of the same state, carried over. */
  lemma ExpandIsMain(s: T3GameState)
    requires s.board.Valid() && s.Side() != Empty
    ensures var main := T3Game.Expand(AsMain(s));
      |Expand(s)| == |main| && forall j | 0 <= j < |main| :: AsMain(Expand(s)[j]) == main[j]
  {
  }

  /**
   * Every child is a well-formed state of the same dimensions whose side is
   * the opposite of the parent's, never `Empty`.
   */
  lemma ExpandChildren(s: T3GameState)
    requires s.board.Valid() && s.Side() != Empty
    ensures forall k | k in Expand(s) ::
      && k.WellFormed() && k.board.width == s.board.width && k.board.height == s.board.height
      && k.Side() != Empty && k.Side() != s.Side()
  {
    var main := T3Game.Expand(AsMain(s));
    T3Game.ExpandChildren(AsMain(s));
    forall k | k in Expand(s)
      ensures k.WellFormed() && k.board.width == s.board.width && k.board.height == s.board.height
      ensures k.Side() != Empty && k.Side() != s.Side()
    {
      var j :| 0 <= j < |Expand(s)| && Expand(s)[j] == k;
      assert AsMain(k) == main[j] && main[j] in main;
    }
  }

  /**
   * The position value is X_WIN_VALUE, its negation or 0 exactly when
   * `line_winner` finds X, O or no run.
   */
  lemma PositionValueSpec(s: T3GameState)
    requires s.WellFormed()
    ensures PositionValue(s) == XWinValue <==> LineWinnerOf(s) == X
    ensures PositionValue(s) == -XWinValue <==> LineWinnerOf(s) == O
    ensures PositionValue(s) == 0 <==> LineWinnerOf(s) == Empty
    ensures PositionValue(s) == T3Game.PositionValue(AsMain(s))
  {
  }

  /** The source's test of `line_winner`: X O _ / O X O / _ X X with last move X at (1, 1) has an X run. */
  lemma LineWinnerExample()
    ensures LineWinnerOf(T3GameState(TestBoard(), T3Move(1, 1, X))) == X
  {
    Lines.LineWinnerExample();
  }

  /** The source's test of `expand`: the reference position X _ X / O _ O / X _ O has 3 children. */
  lemma ExpandExample()
    ensures |Expand(FromMain(T3Game.RefState()))| == 3
  {
    T3Game.ExpandExample();
    assert AsMain(FromMain(T3Game.RefState())) == T3Game.RefState();
  }
}
