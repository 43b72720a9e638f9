/**
 * The reference tic-tac-toe position of the arena tests, X _ X / O _ O /
 * X _ O with O to have moved last, and the whole game tree below it. The
 * first part computes `line_winner` on a 3×3 board from its cells; the
 * second names the seven states of the tree; the third follows the arena
 * through `expand_states_by` and `evaluate_states` under both policies.
 */
module ReferenceTree {
  import opened Cells
  import opened Boards
  import opened Lines
  import opened T3Game
  import opened Games
  import opened Forest
  import opened Arena
  import opened Evaluation
  import opened Extrema
  import RefactorT3Game

  /** A board of the tic-tac-toe shape. */
  predicate Is3x3(b: Board) {
    b.width == 3 && b.height == 3 && |b.cells| == 9
  }

  /** The winner of three cells in a row: their marker when all three agree and are not empty. */
  function Three(a: Cell, b: Cell, c: Cell): Cell {
    if a == b && b == c then a else Empty
  }

  /** The first of two answers that is not `Empty`. */
  function Either(a: Cell, b: Cell): Cell {
    if a != Empty then a else b
  }

  /** The scan for a run of 3 over three cells finds exactly `Three`. */
  lemma ScanThree(a: Cell, b: Cell, c: Cell)
    ensures ScanFrom([a, b, c], 0, 3, Empty, 0) == Three(a, b, c)
  {
    var s := [a, b, c];
    var (m0, k0) := if a == Empty then (Empty, 1) else (a, 1);
    assert ScanFrom(s, 0, 3, Empty, 0) == ScanFrom(s, 1, 3, m0, k0);
    var (m1, k1) := if b == m0 then (m0, k0 + 1) else (b, 1);
    assert ScanFrom(s, 1, 3, m0, k0) == ScanFrom(s, 2, 3, m1, k1);
    assert ScanFrom(s, 3, 3, if c == m1 then m1 else c, if c == m1 then k1 + 1 else 1) == Empty;
  }

  /** Two cells never hold a run of 3. */
  lemma ScanTwo(a: Cell, b: Cell)
    ensures ScanFrom([a, b], 0, 3, Empty, 0) == Empty
  {
    var s := [a, b];
    var (m0, k0) := if a == Empty then (Empty, 1) else (a, 1);
    assert ScanFrom(s, 0, 3, Empty, 0) == ScanFrom(s, 1, 3, m0, k0);
    var (m1, k1) := if b == m0 then (m0, k0 + 1) else (b, 1);
    assert ScanFrom(s, 1, 3, m0, k0) == ScanFrom(s, 2, 3, m1, k1) == Empty;
  }

  /** The walk along row `r` of a 3×3 board. */
  lemma RowCells(b: Board, r: nat)
    requires b.Valid() && Is3x3(b) && r < 3
    ensures LineCells(b, r, 0, DeltaCoords(0, 1)) == [b.cells[3 * r], b.cells[3 * r + 1], b.cells[3 * r + 2]]
  {
    var d := DeltaCoords(0, 1);
    assert LineCells(b, r, 3, d) == [];
    assert LineCells(b, r, 2, d) == [b.cells[3 * r + 2]];
    assert LineCells(b, r, 1, d) == [b.cells[3 * r + 1], b.cells[3 * r + 2]];
  }

  /** The walk down the middle column of a 3×3 board. */
  lemma MiddleColumnCells(b: Board)
    requires b.Valid() && Is3x3(b)
    ensures LineCells(b, 0, 1, DeltaCoords(1, 0)) == [b.cells[1], b.cells[4], b.cells[7]]
  {
    var d := DeltaCoords(1, 0);
    assert LineCells(b, 3, 1, d) == [];
    assert LineCells(b, 2, 1, d) == [b.cells[7]];
    assert LineCells(b, 1, 1, d) == [b.cells[4], b.cells[7]];
  }

  /** The falling diagonals of a 3×3 board that start at (0, 0), (0, 1) and (1, 0). */
  lemma FallingCells(b: Board)
    requires b.Valid() && Is3x3(b)
    ensures LineCells(b, 0, 0, DeltaCoords(1, 1)) == [b.cells[0], b.cells[4], b.cells[8]]
    ensures LineCells(b, 0, 1, DeltaCoords(1, 1)) == [b.cells[1], b.cells[5]]
    ensures LineCells(b, 1, 0, DeltaCoords(1, 1)) == [b.cells[3], b.cells[7]]
  {
    var d := DeltaCoords(1, 1);
    assert LineCells(b, 3, 3, d) == [] && LineCells(b, 2, 3, d) == [] && LineCells(b, 3, 2, d) == [];
    assert LineCells(b, 2, 2, d) == [b.cells[8]];
    assert LineCells(b, 1, 2, d) == [b.cells[5]];
    assert LineCells(b, 2, 1, d) == [b.cells[7]];
    assert LineCells(b, 1, 1, d) == [b.cells[4], b.cells[8]];
  }

  /** The rising diagonals of a 3×3 board that start at (2, 0), (1, 0) and (2, 1). */
  lemma RisingCells(b: Board)
    requires b.Valid() && Is3x3(b)
    ensures LineCells(b, 2, 0, DeltaCoords(-1, 1)) == [b.cells[6], b.cells[4], b.cells[2]]
    ensures LineCells(b, 1, 0, DeltaCoords(-1, 1)) == [b.cells[3], b.cells[1]]
    ensures LineCells(b, 2, 1, DeltaCoords(-1, 1)) == [b.cells[7], b.cells[5]]
  {
    var d := DeltaCoords(-1, 1);
    assert LineCells(b, -1, 3, d) == [] && LineCells(b, -1, 2, d) == [] && LineCells(b, 0, 3, d) == [];
    assert LineCells(b, 0, 2, d) == [b.cells[2]];
    assert LineCells(b, 0, 1, d) == [b.cells[1]];
    assert LineCells(b, 1, 2, d) == [b.cells[5]];
    assert LineCells(b, 1, 1, d) == [b.cells[4], b.cells[2]];
  }

  /** The loop over four lines answers with the first line that has a winner. */
  lemma FourLines(b: Board, lines: seq<(Coords, DeltaCoords)>, n: int)
    requires b.Valid() && |lines| == 4 && AllSteps(lines)
    ensures FirstLineWinner(b, lines, n, 0) ==
      Either(RunWinner(b, lines[0].0, lines[0].1, n),
        Either(RunWinner(b, lines[1].0, lines[1].1, n),
          Either(RunWinner(b, lines[2].0, lines[2].1, n), RunWinner(b, lines[3].0, lines[3].1, n))))
  {
    assert FirstLineWinner(b, lines, n, 4) == Empty;
    assert FirstLineWinner(b, lines, n, 3) == Either(RunWinner(b, lines[3].0, lines[3].1, n), Empty);
    assert FirstLineWinner(b, lines, n, 2) == Either(RunWinner(b, lines[2].0, lines[2].1, n), FirstLineWinner(b, lines, n, 3));
    assert FirstLineWinner(b, lines, n, 1) == Either(RunWinner(b, lines[1].0, lines[1].1, n), FirstLineWinner(b, lines, n, 2));
  }

  /** `line_winner` with run length 3 after a move on the middle cell of the top row. */
  lemma TopMiddleWinner(b: Board)
    requires b.Valid() && Is3x3(b)
    ensures LineWinner(b, Coords(0, 1), 3) == Either(Three(b.cells[0], b.cells[1], b.cells[2]),
                                                     Three(b.cells[1], b.cells[4], b.cells[7]))
  {
    var lines := LineStarts(b, Coords(0, 1));
    assert lines == [(Coords(0, 0), DeltaCoords(0, 1)), (Coords(0, 1), DeltaCoords(1, 0)),
                     (Coords(0, 1), DeltaCoords(1, 1)), (Coords(1, 0), DeltaCoords(-1, 1))];
    FourLines(b, lines, 3);
    RowCells(b, 0);
    MiddleColumnCells(b);
    FallingCells(b);
    RisingCells(b);
    ScanThree(b.cells[0], b.cells[1], b.cells[2]);
    ScanThree(b.cells[1], b.cells[4], b.cells[7]);
    ScanTwo(b.cells[1], b.cells[5]);
    ScanTwo(b.cells[3], b.cells[1]);
  }

  /** `line_winner` with run length 3 after a move on the centre. */
  lemma CentreWinner(b: Board)
    requires b.Valid() && Is3x3(b)
    ensures LineWinner(b, Coords(1, 1), 3) ==
      Either(Three(b.cells[3], b.cells[4], b.cells[5]),
        Either(Three(b.cells[1], b.cells[4], b.cells[7]),
          Either(Three(b.cells[0], b.cells[4], b.cells[8]), Three(b.cells[6], b.cells[4], b.cells[2]))))
  {
    var lines := LineStarts(b, Coords(1, 1));
    assert lines == [(Coords(1, 0), DeltaCoords(0, 1)), (Coords(0, 1), DeltaCoords(1, 0)),
                     (Coords(0, 0), DeltaCoords(1, 1)), (Coords(2, 0), DeltaCoords(-1, 1))];
    FourLines(b, lines, 3);
    RowCells(b, 1);
    MiddleColumnCells(b);
    FallingCells(b);
    RisingCells(b);
    ScanThree(b.cells[3], b.cells[4], b.cells[5]);
    ScanThree(b.cells[1], b.cells[4], b.cells[7]);
    ScanThree(b.cells[0], b.cells[4], b.cells[8]);
    ScanThree(b.cells[6], b.cells[4], b.cells[2]);
  }

  /** `line_winner` with run length 3 after a move on the middle cell of the bottom row. */
  lemma BottomMiddleWinner(b: Board)
    requires b.Valid() && Is3x3(b)
    ensures LineWinner(b, Coords(2, 1), 3) == Either(Three(b.cells[6], b.cells[7], b.cells[8]),
                                                     Three(b.cells[1], b.cells[4], b.cells[7]))
  {
    var lines := LineStarts(b, Coords(2, 1));
    assert lines == [(Coords(2, 0), DeltaCoords(0, 1)), (Coords(0, 1), DeltaCoords(1, 0)),
                     (Coords(1, 0), DeltaCoords(1, 1)), (Coords(2, 1), DeltaCoords(-1, 1))];
    FourLines(b, lines, 3);
    RowCells(b, 2);
    MiddleColumnCells(b);
    FallingCells(b);
    RisingCells(b);
    ScanThree(b.cells[6], b.cells[7], b.cells[8]);
    ScanThree(b.cells[1], b.cells[4], b.cells[7]);
    ScanTwo(b.cells[3], b.cells[7]);
    ScanTwo(b.cells[7], b.cells[5]);
  }

  /** Placing on an empty cell of a 3×3 board sets that cell and records its row and column. */
  lemma PlacementOn3x3(s: T3GameState, next: Cell, i: nat)
    requires s.board.Valid() && Is3x3(s.board) && i < 9 && s.board.cells[i] == Empty
    ensures Placement(s, next, i) ==
      T3GameState(s.board.(cells := s.board.cells[i := next]), BoardMove(Coords(i / 3, i % 3), next))
  {
    PlacementSpec(s, next, i);
  }

  /** The state of node `k` of the arena built on the reference position, for `k` in 1 .. 6. */
  function Node1(): T3GameState {
    T3GameState(Board([X, X, X, O, Empty, O, X, Empty, O], 3, 3), BoardMove(Coords(0, 1), X))
  }
  function Node2(): T3GameState {
    T3GameState(Board([X, Empty, X, O, X, O, X, Empty, O], 3, 3), BoardMove(Coords(1, 1), X))
  }
  function Node3(): T3GameState {
    T3GameState(Board([X, Empty, X, O, Empty, O, X, X, O], 3, 3), BoardMove(Coords(2, 1), X))
  }
  function Node4(): T3GameState {
    T3GameState(Board([X, O, X, O, Empty, O, X, X, O], 3, 3), BoardMove(Coords(0, 1), O))
  }
  function Node5(): T3GameState {
    T3GameState(Board([X, Empty, X, O, O, O, X, X, O], 3, 3), BoardMove(Coords(1, 1), O))
  }
  function Node6(): T3GameState {
    T3GameState(Board([X, O, X, O, X, O, X, X, O], 3, 3), BoardMove(Coords(1, 1), X))
  }

  /** From cell 4 on, X has the centre and cell 7. */
  lemma RefLaterChildren()
    ensures RefState().board.Valid() && ExpandFrom(RefState(), X, 4) == [Node2(), Node3()]
  {
    var s := RefState();
    PlacementOn3x3(s, X, 4);
    PlacementOn3x3(s, X, 7);
    assert s.board.cells[4 := X] == Node2().board.cells;
    assert s.board.cells[7 := X] == Node3().board.cells;
    assert ExpandFrom(s, X, 9) == [];
    assert ExpandFrom(s, X, 8) == [];
    assert ExpandFrom(s, X, 7) == [Node3()];
    assert ExpandFrom(s, X, 5) == ExpandFrom(s, X, 6) == [Node3()];
  }

  /** X has three moves from the reference position: the empty cells 1, 4 and 7, in that order. */
  lemma RefChildren()
    ensures T3Game.Expand(RefState()) == [Node1(), Node2(), Node3()]
  {
    var s := RefState();
    RefLaterChildren();
    PlacementOn3x3(s, X, 1);
    assert s.board.cells[1 := X] == Node1().board.cells;
    assert ExpandFrom(s, X, 2) == ExpandFrom(s, X, 3) == [Node2(), Node3()];
    assert ExpandFrom(s, X, 1) == [Node1(), Node2(), Node3()];
  }

  /** After X takes cell 7, O has the cells 1 and 4. */
  lemma Node3Children()
    ensures T3Game.Expand(Node3()) == [Node4(), Node5()]
  {
    var s := Node3();
    PlacementOn3x3(s, O, 1);
    PlacementOn3x3(s, O, 4);
    assert s.board.cells[1 := O] == Node4().board.cells;
    assert s.board.cells[4 := O] == Node5().board.cells;
    assert ExpandFrom(s, O, 9) == [];
    assert ExpandFrom(s, O, 5) == ExpandFrom(s, O, 6) == ExpandFrom(s, O, 7) == ExpandFrom(s, O, 8) == [];
    assert ExpandFrom(s, O, 4) == [Node5()];
    assert ExpandFrom(s, O, 2) == ExpandFrom(s, O, 3) == [Node5()];
    assert ExpandFrom(s, O, 1) == [Node4(), Node5()];
  }

  /** After O takes cell 1, X has only the centre left. */
  lemma Node4Children()
    ensures T3Game.Expand(Node4()) == [Node6()]
  {
    var s := Node4();
    PlacementOn3x3(s, X, 4);
    assert s.board.cells[4 := X] == Node6().board.cells;
    assert ExpandFrom(s, X, 5) == ExpandFrom(s, X, 6) == ExpandFrom(s, X, 7) == ExpandFrom(s, X, 8) == ExpandFrom(s, X, 9) == [];
    assert ExpandFrom(s, X, 4) == [Node6()];
    assert ExpandFrom(s, X, 0) == ExpandFrom(s, X, 1) == ExpandFrom(s, X, 2) == ExpandFrom(s, X, 3) == [Node6()];
  }

  /** The position value after a move on the middle cell of the top row, `w` being its winner. */
  lemma TopMiddleValue(s: T3GameState, w: Cell)
    requires s.board.Valid() && Is3x3(s.board) && s.lastMove.coords == Coords(0, 1)
    requires var c := s.board.cells; Either(Three(c[0], c[1], c[2]), Three(c[1], c[4], c[7])) == w
    ensures s.WellFormed() && PositionValue(s) == WinnerValue(w)
  {
    TopMiddleWinner(s.board);
  }

  /** The position value after a move on the centre, `w` being its winner. */
  lemma CentreValue(s: T3GameState, w: Cell)
    requires s.board.Valid() && Is3x3(s.board) && s.lastMove.coords == Coords(1, 1)
    requires var c := s.board.cells;
      Either(Three(c[3], c[4], c[5]), Either(Three(c[1], c[4], c[7]),
        Either(Three(c[0], c[4], c[8]), Three(c[6], c[4], c[2])))) == w
    ensures s.WellFormed() && PositionValue(s) == WinnerValue(w)
  {
    CentreWinner(s.board);
  }

  /** The position value after a move on the middle cell of the bottom row, `w` being its winner. */
  lemma BottomMiddleValue(s: T3GameState, w: Cell)
    requires s.board.Valid() && Is3x3(s.board) && s.lastMove.coords == Coords(2, 1)
    requires var c := s.board.cells; Either(Three(c[6], c[7], c[8]), Three(c[1], c[4], c[7])) == w
    ensures s.WellFormed() && PositionValue(s) == WinnerValue(w)
  {
    BottomMiddleWinner(s.board);
  }

  /** X completes the top row in node 1. */
  lemma Node1Value()
    ensures PositionValue(Node1()) == XWinValue
  {
    TopMiddleValue(Node1(), X);
  }

  /** X completes the rising diagonal in node 2. */
  lemma Node2Value()
    ensures PositionValue(Node2()) == XWinValue
  {
    CentreValue(Node2(), X);
  }

  /** No line through cell 7 is complete in node 3. */
  lemma Node3Value()
    ensures PositionValue(Node3()) == 0
  {
    BottomMiddleValue(Node3(), Empty);
  }

  /** No line through cell 1 is complete in node 4. */
  lemma Node4Value()
    ensures PositionValue(Node4()) == 0
  {
    TopMiddleValue(Node4(), Empty);
  }

  /** O completes the middle row in node 5. */
  lemma Node5Value()
    ensures PositionValue(Node5()) == -XWinValue
  {
    CentreValue(Node5(), O);
  }

  /** X completes the rising diagonal in node 6. */
  lemma Node6Value()
    ensures PositionValue(Node6()) == XWinValue
  {
    CentreValue(Node6(), X);
  }

  /**
   * Seven game states with the shape of the reference position's tree:
   * the root (O moved last) has the children 1, 2, 3, node 3 has the
   * children 4, 5 and node 4 the child 6; nodes 1, 2 and 6 are wins for X,
   * node 5 for O and nodes 3 and 4 are undecided.
   */
  predicate RefShaped(g: seq<GameState>) {
    && |g| == 7
    && (forall i | 0 <= i < 7 :: g[i].WellFormed() && g[i].Side() != Empty)
    && g[0].Side() == O
    && g[0].Children() == [g[1], g[2], g[3]]
    && g[3].Children() == [g[4], g[5]]
    && g[4].Children() == [g[6]]
    && g[1].PositionValue() == XWinValue && g[2].PositionValue() == XWinValue
    && g[3].PositionValue() == 0 && g[4].PositionValue() == 0
    && g[5].PositionValue() == -XWinValue && g[6].PositionValue() == XWinValue
  }

  /** Seven states each well-formed and with a side. */
  lemma SevenPlayable(g: seq<GameState>)
    requires |g| == 7
    requires g[0].WellFormed() && g[1].WellFormed() && g[2].WellFormed() && g[3].WellFormed()
    requires g[4].WellFormed() && g[5].WellFormed() && g[6].WellFormed()
    requires g[0].Side() != Empty && g[1].Side() != Empty && g[2].Side() != Empty && g[3].Side() != Empty
    requires g[4].Side() != Empty && g[5].Side() != Empty && g[6].Side() != Empty
    ensures forall i | 0 <= i < 7 :: g[i].WellFormed() && g[i].Side() != Empty
  {
    forall i | 0 <= i < 7
      ensures g[i].WellFormed() && g[i].Side() != Empty
    {
      assert i == 0 || i == 1 || i == 2 || i == 3 || i == 4 || i == 5 || i == 6;
    }
  }

  /** Seven states given one by one, with the facts `RefShaped` asks of them, have its shape. */
  lemma RefShapedOf(g0: GameState, g1: GameState, g2: GameState, g3: GameState,
                    g4: GameState, g5: GameState, g6: GameState)
    requires g0.WellFormed() && g0.Side() == O && g3.WellFormed() && g3.Side() != Empty
    requires g4.WellFormed() && g4.Side() != Empty
    requires g0.Children() == [g1, g2, g3] && g3.Children() == [g4, g5] && g4.Children() == [g6]
    requires g1.WellFormed() && g1.PositionValue() == XWinValue && g2.WellFormed() && g2.PositionValue() == XWinValue
    requires g3.PositionValue() == 0 && g4.PositionValue() == 0
    requires g5.WellFormed() && g5.PositionValue() == -XWinValue && g6.WellFormed() && g6.PositionValue() == XWinValue
    ensures RefShaped([g0, g1, g2, g3, g4, g5, g6])
  {
    assert g1 in g0.Children() && g2 in g0.Children() && g5 in g3.Children() && g6 in g4.Children();
    var g := [g0, g1, g2, g3, g4, g5, g6];
    assert g[0] == g0 && g[1] == g1 && g[2] == g2 && g[3] == g3 && g[4] == g4 && g[5] == g5 && g[6] == g6;
    SevenPlayable(g);
  }

  /** The child lists after two levels: nodes 1 and 2 are final, node 3 has two children. */
  function TwoLevelChildren(): seq<seq<nat>> {
    [[1, 2, 3], [], [], [4, 5], [], []]
  }

  /** The child lists of the whole tree: the third level gives node 4 its child 6. */
  function FullChildren(): seq<seq<nat>> {
    [[1, 2, 3], [], [], [4, 5], [6], [], []]
  }

  /** The values after two levels: the position values of nodes 1 .. 5. */
  function TwoLevelValues(): seq<int> {
    [0, XWinValue, XWinValue, 0, 0, -XWinValue]
  }

  /** The values of the whole tree, before evaluation. */
  function FullValues(): seq<int> {
    [0, XWinValue, XWinValue, 0, 0, -XWinValue, XWinValue]
  }

  /** The arena after `expand_states_by(0, 1)`. */
  function OneLevel(g: seq<GameState>): Nodes
    requires |g| == 7
  {
    Nodes([0, 0, 0, 0], [[1, 2, 3], [], [], []], [g[0], g[1], g[2], g[3]], [0, XWinValue, XWinValue, 0])
  }

  /** The arena after `expand_states_by(0, 2)`. */
  function TwoLevels(g: seq<GameState>): Nodes
    requires |g| == 7
  {
    Nodes([0, 0, 0, 0, 3, 3], TwoLevelChildren(), [g[0], g[1], g[2], g[3], g[4], g[5]], TwoLevelValues())
  }

  /** The arena of the whole tree. */
  function Full(g: seq<GameState>): Nodes
    requires |g| == 7
  {
    Nodes([0, 0, 0, 0, 3, 3, 4], FullChildren(), g, FullValues())
  }

  /**
   * Expanding a node that is not final whose state has the children `kids`
   * appends them with the parent `idx` (`ps`), no children (`leaves`) and
   * their position values (`vals`), and gives `idx` the fresh ids `ids`.
   */
  lemma ExpandedWith(a: Nodes, idx: nat, kids: seq<GameState>, vals: seq<int>, ps: seq<nat>, leaves: seq<seq<nat>>, ids: seq<nat>)
    requires Valid(a) && idx < |a.values| && !IsWin(a.values[idx]) && a.states[idx].Children() == kids
    requires |vals| == |ps| == |leaves| == |kids| && ids == Range(|a.values|, |a.values| + |kids|)
    requires forall j | 0 <= j < |kids| ::
      && kids[j].WellFormed() && vals[j] == kids[j].PositionValue() && ps[j] == idx && leaves[j] == []
    ensures ExpandNode(a, idx).0 ==
      Nodes(a.parent + ps, a.children[idx := a.children[idx] + ids] + leaves, a.states + kids, a.values + vals)
  {
    assert seq(|kids|, j requires 0 <= j < |kids| => kids[j].PositionValue()) == vals;
    assert seq(|kids|, _ => idx) == ps;
    assert seq(|kids|, _ => []) == leaves;
  }

  /** The id ranges the four levels create. */
  lemma LevelRanges()
    ensures Range(1, 4) == [1, 2, 3] && Range(4, 6) == [4, 5] && Range(6, 7) == [6] && Range(7, 7) == []
  {
    assert Range(1, 4)[0] == 1 && Range(4, 6)[1] == 5;
  }

  /** Expanding the root appends its three children with their position values. */
  lemma RootExpansion(g: seq<GameState>)
    requires RefShaped(g)
    ensures ExpandNode(Init(g[0]), 0).0 == OneLevel(g)
  {
    var kids, vals := [g[1], g[2], g[3]], [XWinValue, XWinValue, 0];
    var leaves: seq<seq<nat>> := [[], [], []];
    forall j | 0 <= j < 3
      ensures kids[j].WellFormed() && vals[j] == kids[j].PositionValue() && [0, 0, 0][j] == 0 && leaves[j] == []
    {
      assert j == 0 || j == 1 || j == 2;
    }
    LevelRanges();
    ExpandedWith(Init(g[0]), 0, kids, vals, [0, 0, 0], leaves, [1, 2, 3]);
    OneLevelShape(g);
  }

  /** The vectors `RootExpansion` appends to a fresh root, spelled out. */
  lemma OneLevelShape(g: seq<GameState>)
    requires |g| == 7
    ensures var c: seq<seq<nat>> := [[]]; var leaves: seq<seq<nat>> := [[], [], []];
      Nodes([0] + [0, 0, 0], c[0 := c[0] + [1, 2, 3]] + leaves, [g[0]] + [g[1], g[2], g[3]], [0] + [XWinValue, XWinValue, 0])
      == OneLevel(g)
  {
    var c: seq<seq<nat>> := [[]];
    var ids: seq<nat> := [1, 2, 3];
    assert c[0] + ids == ids;
    assert c[0 := ids] == [ids];
  }

  /** The first level expands the root into nodes 1, 2 and 3. */
  lemma FirstLevel(g: seq<GameState>)
    requires RefShaped(g)
    ensures ExpandLevels(Init(g[0]), [0], 1) == (OneLevel(g), [1, 2, 3])
  {
    ExpandLevelsOne(Init(g[0]), 0);
    RootExpansion(g);
    LevelRanges();
  }

  /** `Arena.ExpandListSnoc` for a list written as a prefix and one more node. */
  lemma ExpandListThen(a: Nodes, ids: seq<nat>, x: nat)
    requires Valid(a) && (forall k | 0 <= k < |ids| :: ids[k] < |a.values|) && x < |a.values|
    ensures ExpandList(a, ids + [x]) == ExpandNode(ExpandList(a, ids), x).0
  {
    var s := ids + [x];
    assert s[..|s| - 1] == ids && s[|s| - 1] == x;
  }

  /** Expanding a list of one node. */
  lemma ExpandListOne(a: Nodes, x: nat)
    requires Valid(a) && x < |a.values|
    ensures ExpandList(a, [x]) == ExpandNode(a, x).0
  {
    ExpandListThen(a, [], x);
    assert [] + [x] == [x];
  }

  /** Expanding a final node changes nothing. */
  lemma ExpandListFinal(a: Nodes, x: nat)
    requires Valid(a) && x < |a.values| && IsWin(a.values[x])
    ensures ExpandList(a, [x]) == a
  {
    ExpandListOne(a, x);
  }

  /** Expanding two final nodes changes nothing. */
  lemma ExpandListFinals(a: Nodes, x: nat, y: nat)
    requires Valid(a) && x < |a.values| && y < |a.values| && IsWin(a.values[x]) && IsWin(a.values[y])
    ensures ExpandList(a, [x, y]) == a
  {
    ExpandListThen(a, [x], y);
    assert [x] + [y] == [x, y];
    ExpandListFinal(a, x);
  }

  /** Expanding two final nodes and then a third is expanding the third alone. */
  lemma ExpandListFinalsFirst(a: Nodes, x: nat, y: nat, z: nat)
    requires Valid(a) && x < |a.values| && y < |a.values| && z < |a.values|
    requires IsWin(a.values[x]) && IsWin(a.values[y])
    ensures ExpandList(a, [x, y, z]) == ExpandNode(a, z).0
  {
    ExpandListThen(a, [x, y], z);
    assert [x, y] + [z] == [x, y, z];
    ExpandListFinals(a, x, y);
  }

  /** Expansion keeps the values of the nodes that were already there. */
  lemma ExpandNodeKeepsValue(a: Nodes, x: nat, y: nat)
    requires Valid(a) && x < |a.values| && y < |a.values|
    ensures y < |ExpandNode(a, x).0.values| && ExpandNode(a, x).0.values[y] == a.values[y]
  {
    ExpandNodeSpec(a, x);
    var a1 := ExpandNode(a, x).0;
    if !IsWin(a.values[x]) {
      assert a1.values[..|a.values|] == a.values;
      assert a1.values[..|a.values|][y] == a1.values[y];
    }
  }

  /** Expanding a node and then an older final node is expanding the first alone. */
  lemma ExpandListFinalLast(a: Nodes, x: nat, y: nat)
    requires Valid(a) && x < |a.values| && y < |a.values| && IsWin(a.values[y])
    ensures ExpandList(a, [x, y]) == ExpandNode(a, x).0
  {
    ExpandListThen(a, [x], y);
    assert [x] + [y] == [x, y];
    ExpandListOne(a, x);
    ExpandNodeKeepsValue(a, x, y);
  }

  /** Expanding node 3 of the first level appends nodes 4 and 5. */
  lemma NodeThreeExpansion(g: seq<GameState>)
    requires RefShaped(g) && Valid(OneLevel(g))
    ensures ExpandNode(OneLevel(g), 3).0 == TwoLevels(g)
  {
    var kids, vals := [g[4], g[5]], [0, -XWinValue];
    var leaves: seq<seq<nat>> := [[], []];
    forall j | 0 <= j < 2
      ensures kids[j].WellFormed() && vals[j] == kids[j].PositionValue() && [3, 3][j] == 3 && leaves[j] == []
    {
      assert j == 0 || j == 1;
    }
    LevelRanges();
    ExpandedWith(OneLevel(g), 3, kids, vals, [3, 3], leaves, [4, 5]);
    TwoLevelsShape(g);
  }

  /** The vectors `NodeThreeExpansion` appends, spelled out. */
  lemma TwoLevelsShape(g: seq<GameState>)
    requires |g| == 7
    ensures var a, leaves: seq<seq<nat>> := OneLevel(g), [[], []];
      Nodes(a.parent + [3, 3], a.children[3 := a.children[3] + [4, 5]] + leaves, a.states + [g[4], g[5]],
            a.values + [0, -XWinValue])
      == TwoLevels(g)
  {
    var c := OneLevel(g).children;
    var ids: seq<nat> := [4, 5];
    assert c[3] + ids == ids;
    assert c[3 := ids] == [[1, 2, 3], [], [], ids];
  }

  /** Expanding node 4 of the second level appends node 6. */
  lemma NodeFourExpansion(g: seq<GameState>)
    requires RefShaped(g) && Valid(TwoLevels(g))
    ensures ExpandNode(TwoLevels(g), 4).0 == Full(g)
  {
    var kids, vals := [g[6]], [XWinValue];
    var leaves: seq<seq<nat>> := [[]];
    LevelRanges();
    ExpandedWith(TwoLevels(g), 4, kids, vals, [4], leaves, [6]);
    FullShape(g);
  }

  /** The vectors `NodeFourExpansion` appends, spelled out. */
  lemma FullShape(g: seq<GameState>)
    requires |g| == 7
    ensures var a, leaves: seq<seq<nat>> := TwoLevels(g), [[]];
      Nodes(a.parent + [4], a.children[4 := a.children[4] + [6]] + leaves, a.states + [g[6]], a.values + [XWinValue])
      == Full(g)
  {
    var c := TwoLevels(g).children;
    var ids: seq<nat> := [6];
    assert c[4] + ids == ids;
    assert c[4 := ids] == [[1, 2, 3], [], [], [4, 5], ids, []];
    assert [g[0], g[1], g[2], g[3], g[4], g[5]] + [g[6]] == g;
  }

  /** The second level: nodes 1 and 2 are wins and stay leaves, node 3 gets nodes 4 and 5. */
  lemma SecondLevel(g: seq<GameState>)
    requires RefShaped(g)
    ensures ExpandLevels(Init(g[0]), [0], 2) == (TwoLevels(g), [4, 5])
  {
    FirstLevel(g);
    ExpandListFinalsFirst(OneLevel(g), 1, 2, 3);
    NodeThreeExpansion(g);
    LevelRanges();
  }

  /** The third level gives node 4 its child 6; node 5 is a win for O. */
  lemma ThirdLevel(g: seq<GameState>)
    requires RefShaped(g)
    ensures ExpandLevels(Init(g[0]), [0], 3) == (Full(g), [6])
  {
    SecondLevel(g);
    ExpandListFinalLast(TwoLevels(g), 4, 5);
    NodeFourExpansion(g);
    LevelRanges();
  }

  /**
   * Node 6 is a win, so the fourth level creates nothing and every later
   * level leaves the whole tree as it is.
   */
  lemma WholeTree(g: seq<GameState>, levels: nat)
    requires RefShaped(g) && levels >= 3
    ensures ExpandLevels(Init(g[0]), [0], levels).0 == Full(g)
  {
    ThirdLevel(g);
    ExpandListFinal(Full(g), 6);
    LevelRanges();
    if levels > 3 {
      ExpandLevelsSettled(Init(g[0]), [0], 4, levels);
    }
  }

  /** The next level after one node is its children. */
  lemma NextLevelOne(c: seq<seq<nat>>, x: nat)
    requires WellFormed(c) && x < |c|
    ensures NextLevel(c, [x]) == c[x]
  {
    assert [x][1..] == [];
  }

  /** The next level after two nodes is their children, in order. */
  lemma NextLevelTwo(c: seq<seq<nat>>, x: nat, y: nat)
    requires WellFormed(c) && x < |c| && y < |c|
    ensures NextLevel(c, [x, y]) == c[x] + c[y]
  {
    assert [x, y][1..] == [y];
    NextLevelOne(c, y);
  }

  /** The next level after three nodes is their children, in order. */
  lemma NextLevelThree(c: seq<seq<nat>>, x: nat, y: nat, z: nat)
    requires WellFormed(c) && x < |c| && y < |c| && z < |c|
    ensures NextLevel(c, [x, y, z]) == c[x] + c[y] + c[z]
  {
    assert [x, y, z][1..] == [y, z];
    NextLevelTwo(c, y, z);
  }

  /** The levels of the two-level tree: the root, then nodes 1 .. 3, then nodes 4 and 5. */
  lemma TwoLevelNext(c: seq<seq<nat>>)
    requires c == TwoLevelChildren() && WellFormed(c)
    ensures NextLevel(c, [0]) == [1, 2, 3] && NextLevel(c, [1, 2, 3]) == [4, 5] && NextLevel(c, [4, 5]) == []
  {
    NextLevelOne(c, 0);
    NextLevelThree(c, 1, 2, 3);
    NextLevelTwo(c, 4, 5);
    assert c[1] + c[2] + c[3] == [4, 5];
    assert c[4] + c[5] == [];
  }

  /** Breadth-first order from the second level of the two-level tree. */
  lemma TwoLevelBfsBelowRoot(c: seq<seq<nat>>)
    requires c == TwoLevelChildren() && WellFormed(c)
    ensures InRange(c, [1, 2, 3]) && Bfs(c, [1, 2, 3]) == [1, 2, 3, 4, 5]
  {
    TwoLevelNext(c);
    BfsLevel(c, [4, 5]);
    assert Bfs(c, []) == [];
    assert Bfs(c, [4, 5]) == [4, 5];
    BfsLevel(c, [1, 2, 3]);
  }

  /** Breadth-first order over the two-level tree is the id order. */
  lemma TwoLevelBfs(c: seq<seq<nat>>)
    requires c == TwoLevelChildren() && WellFormed(c)
    ensures Bfs(c, [0]) == [0, 1, 2, 3, 4, 5]
  {
    TwoLevelNext(c);
    TwoLevelBfsBelowRoot(c);
    BfsLevel(c, [0]);
  }

  /** A final node or a leaf keeps its value. */
  lemma EvalFixed(policy: Policy, c: seq<seq<nat>>, sides: seq<Cell>, v: seq<int>, n: nat)
    requires Fits(c, sides, v) && n < |c| && (c[n] == [] || IsWin(v[n]))
    ensures Eval(policy, c, sides, v, n) == v[n]
  {
  }

  /** The evaluated values of a node with the one child `x`. */
  lemma ChildEvalsOne(policy: Policy, c: seq<seq<nat>>, sides: seq<Cell>, v: seq<int>, n: nat, x: nat)
    requires Fits(c, sides, v) && n < |c| && x < |c| && c[n] == [x]
    ensures ChildEvals(policy, c, sides, v, n) == [Eval(policy, c, sides, v, x)]
  {
  }

  /** The evaluated values of a node with the two children `x`, `y`. */
  lemma ChildEvalsTwo(policy: Policy, c: seq<seq<nat>>, sides: seq<Cell>, v: seq<int>, n: nat, x: nat, y: nat)
    requires Fits(c, sides, v) && n < |c| && x < |c| && y < |c| && c[n] == [x, y]
    ensures ChildEvals(policy, c, sides, v, n) == [Eval(policy, c, sides, v, x), Eval(policy, c, sides, v, y)]
  {
  }

  /** A sequence of three items is the display of its items. */
  lemma ThreeItems<T>(s: seq<T>)
    requires |s| == 3
    ensures s == [s[0], s[1], s[2]]
  {
  }

  /** The evaluated values of a node with the three children `x`, `y`, `z`. */
  lemma ChildEvalsThree(policy: Policy, c: seq<seq<nat>>, sides: seq<Cell>, v: seq<int>, n: nat, x: nat, y: nat, z: nat)
    requires Fits(c, sides, v) && n < |c| && x < |c| && y < |c| && z < |c| && c[n] == [x, y, z]
    ensures ChildEvals(policy, c, sides, v, n) ==
      [Eval(policy, c, sides, v, x), Eval(policy, c, sides, v, y), Eval(policy, c, sides, v, z)]
  {
    var cv := ChildEvals(policy, c, sides, v, n);
    ThreeItems(cv);
  }

  /** Under averaging node 3 of the two-level tree gets the mean of 0 and -`X_WIN_VALUE`. */
  lemma AveragingNodeThree(c: seq<seq<nat>>, sides: seq<Cell>, v: seq<int>)
    requires c == TwoLevelChildren() && v == TwoLevelValues() && Fits(c, sides, v)
    ensures Eval(Averaging, c, sides, v, 3) == -XWinValue / 2
  {
    ChildEvalsTwo(Averaging, c, sides, v, 3, 4, 5);
    EvalFixed(Averaging, c, sides, v, 4);
    EvalFixed(Averaging, c, sides, v, 5);
    assert Sum([0, -XWinValue]) == 0 + Sum([-XWinValue]) == -XWinValue + Sum([]) by {
      assert [0, -XWinValue][1..] == [-XWinValue] && [-XWinValue][1..] == [];
    }
  }

  /**
   * Under averaging the root of the two-level tree gets the mean of
   * `X_WIN_VALUE`, `X_WIN_VALUE` and node 3's -`X_WIN_VALUE / 2`.
   */
  lemma AveragingRootEval(c: seq<seq<nat>>, sides: seq<Cell>, v: seq<int>)
    requires c == TwoLevelChildren() && v == TwoLevelValues() && Fits(c, sides, v)
    ensures Eval(Averaging, c, sides, v, 0) == XWinValue / 2
  {
    ChildEvalsThree(Averaging, c, sides, v, 0, 1, 2, 3);
    EvalFixed(Averaging, c, sides, v, 1);
    EvalFixed(Averaging, c, sides, v, 2);
    AveragingNodeThree(c, sides, v);
    var h := -XWinValue / 2;
    assert Sum([XWinValue, XWinValue, h]) == XWinValue + Sum([XWinValue, h]) == 2 * XWinValue + Sum([h]) == 3 * (XWinValue / 2) by {
      assert [XWinValue, XWinValue, h][1..] == [XWinValue, h] && [XWinValue, h][1..] == [h] && [h][1..] == [];
    }
  }

  /** `evaluate_states(0)` over the two-level tree gives the root `X_WIN_VALUE / 2` under averaging. */
  lemma AveragingRoot(c: seq<seq<nat>>, sides: seq<Cell>, v: seq<int>)
    requires c == TwoLevelChildren() && v == TwoLevelValues() && Fits(c, sides, v)
    ensures Evaluated(Averaging, c, sides, v, 0)[0] == XWinValue / 2
  {
    AveragingRootEval(c, sides, v);
    BfsStartsWithQueue(c, [0]);
    assert Bfs(c, [0])[0] == 0;
  }

  /** Under minimax node 4, where X moves next, takes the larger value of its one child, node 6. */
  lemma MinimaxNodeFour(c: seq<seq<nat>>, sides: seq<Cell>, v: seq<int>)
    requires c == FullChildren() && v == FullValues() && Fits(c, sides, v) && sides[4] == O
    ensures Eval(Minimax, c, sides, v, 4) == XWinValue
  {
    ChildEvalsOne(Minimax, c, sides, v, 4, 6);
    EvalFixed(Minimax, c, sides, v, 6);
    assert Max([XWinValue]) == XWinValue;
  }

  /** Under minimax node 3, where O moves next, takes the smaller of node 4's `X_WIN_VALUE` and node 5's loss. */
  lemma MinimaxNodeThree(c: seq<seq<nat>>, sides: seq<Cell>, v: seq<int>)
    requires c == FullChildren() && v == FullValues() && Fits(c, sides, v) && sides[3] == X && sides[4] == O
    ensures Eval(Minimax, c, sides, v, 3) == -XWinValue
  {
    ChildEvalsTwo(Minimax, c, sides, v, 3, 4, 5);
    MinimaxNodeFour(c, sides, v);
    EvalFixed(Minimax, c, sides, v, 5);
    var m := Min([XWinValue, -XWinValue]);
    assert m <= -XWinValue;
  }

  /**
   * Under minimax the root, where X moves next, takes the largest of its
   * children's values: X wins at once in nodes 1 and 2.
   */
  lemma MinimaxRootEval(c: seq<seq<nat>>, sides: seq<Cell>, v: seq<int>)
    requires c == FullChildren() && v == FullValues() && Fits(c, sides, v)
    requires sides[0] == O && sides[3] == X && sides[4] == O
    ensures Eval(Minimax, c, sides, v, 0) == XWinValue
  {
    ChildEvalsThree(Minimax, c, sides, v, 0, 1, 2, 3);
    EvalFixed(Minimax, c, sides, v, 1);
    EvalFixed(Minimax, c, sides, v, 2);
    MinimaxNodeThree(c, sides, v);
    var m := Max([XWinValue, XWinValue, -XWinValue]);
    assert XWinValue <= m;
  }

  /** `evaluate_states(0)` over the whole tree gives the root `X_WIN_VALUE` under minimax. */
  lemma MinimaxRoot(c: seq<seq<nat>>, sides: seq<Cell>, v: seq<int>)
    requires c == FullChildren() && v == FullValues() && Fits(c, sides, v)
    requires sides[0] == O && sides[3] == X && sides[4] == O
    ensures Evaluated(Minimax, c, sides, v, 0)[0] == XWinValue
  {
    MinimaxRootEval(c, sides, v);
    BfsStartsWithQueue(c, [0]);
    assert Bfs(c, [0])[0] == 0;
  }

  /** Node 3 is X's move and node 4 O's: each child's side is neither empty nor its parent's. */
  lemma RefSides(g: seq<GameState>)
    requires RefShaped(g)
    ensures g[0].Side() == O && g[3].Side() == X && g[4].Side() == O
  {
    assert g[3] in g[0].Children() && g[4] in g[3].Children();
  }

  /** `test_tree_evaluator_expand_by_one`: one level gives four nodes, the root having the children 1, 2, 3. */
  lemma RefExpandByOne(g: seq<GameState>)
    requires RefShaped(g)
    ensures var a := ExpandLevels(Init(g[0]), [0], 1).0;
      && |a.parent| == |a.children| == |a.states| == |a.values| == 4
      && a.children[0] == [1, 2, 3]
  {
    FirstLevel(g);
  }

  /** `test_tree_evaluator_expand_by_two` and `test_bfs_iter`: two levels give six nodes, visited in id order. */
  lemma RefExpandByTwo(g: seq<GameState>)
    requires RefShaped(g)
    ensures var a := ExpandLevels(Init(g[0]), [0], 2).0;
      && |a.parent| == |a.children| == |a.states| == |a.values| == 6
      && Bfs(a.children, [0]) == [0, 1, 2, 3, 4, 5]
  {
    SecondLevel(g);
    TwoLevelBfs(TwoLevels(g).children);
  }

  /** The refactor engine's `test_evaluate_states`: after two levels averaging gives the root `X_WIN_VALUE / 2`. */
  lemma RefAveraging(g: seq<GameState>)
    requires RefShaped(g)
    ensures var a := ExpandLevels(Init(g[0]), [0], 2).0;
      Evaluated(Averaging, a.children, Sides(a), a.values, 0)[0] == XWinValue / 2
  {
    SecondLevel(g);
    var a := TwoLevels(g);
    AveragingRoot(a.children, Sides(a), a.values);
  }

  /**
   * The main engine's `test_evaluate_states`: after any number of levels
   * from three on (the test asks for nine) the tree is complete and
   * minimax gives the root `X_WIN_VALUE`.
   */
  lemma RefMinimax(g: seq<GameState>, levels: nat)
    requires RefShaped(g) && levels >= 3
    ensures var a := ExpandLevels(Init(g[0]), [0], levels).0;
      Evaluated(Minimax, a.children, Sides(a), a.values, 0)[0] == XWinValue
  {
    WholeTree(g, levels);
    RefSides(g);
    var a := Full(g);
    var sides := Sides(a);
    assert sides[0] == g[0].Side() && sides[3] == g[3].Side() && sides[4] == g[4].Side();
    MinimaxRoot(a.children, sides, a.values);
  }

  /**
   * Seven tic-tac-toe states `r`, `n1` .. `n6` whose expansions and
   * position values are those of the reference tree, O having moved last at
   * the root.
   */
  predicate MainShaped(r: T3GameState, n1: T3GameState, n2: T3GameState, n3: T3GameState,
                       n4: T3GameState, n5: T3GameState, n6: T3GameState)
  {
    && r.WellFormed() && n1.WellFormed() && n2.WellFormed() && n3.WellFormed()
    && n4.WellFormed() && n5.WellFormed() && n6.WellFormed()
    && r.Side() == O && n3.Side() != Empty && n4.Side() != Empty
    && T3Game.Expand(r) == [n1, n2, n3] && T3Game.Expand(n3) == [n4, n5] && T3Game.Expand(n4) == [n6]
    && T3Game.PositionValue(n1) == XWinValue && T3Game.PositionValue(n2) == XWinValue
    && T3Game.PositionValue(n3) == 0 && T3Game.PositionValue(n4) == 0
    && T3Game.PositionValue(n5) == -XWinValue && T3Game.PositionValue(n6) == XWinValue
  }

  /** The reference states satisfy `MainShaped`. */
  lemma ReferenceIsMainShaped()
    ensures MainShaped(RefState(), Node1(), Node2(), Node3(), Node4(), Node5(), Node6())
  {
    assert RefState().WellFormed() && Node3().WellFormed() && Node4().WellFormed();
    RefChildren();
    Node3Children();
    Node4Children();
    Node1Value(); Node2Value(); Node3Value(); Node4Value(); Node5Value(); Node6Value();
  }

  /** Wrapped as main-engine game states, `MainShaped` states have the shape of the reference tree. */
  lemma T3Shaped(r: T3GameState, n1: T3GameState, n2: T3GameState, n3: T3GameState,
                 n4: T3GameState, n5: T3GameState, n6: T3GameState)
    requires MainShaped(r, n1, n2, n3, n4, n5, n6)
    ensures RefShaped([T3(r), T3(n1), T3(n2), T3(n3), T3(n4), T3(n5), T3(n6)])
  {
    var k0, k3, k4 := T3(r).Children(), T3(n3).Children(), T3(n4).Children();
    ThreeItems(k0);
    assert k3 == [k3[0], k3[1]] && k4 == [k4[0]];
    RefShapedOf(T3(r), T3(n1), T3(n2), T3(n3), T3(n4), T3(n5), T3(n6));
  }

  /** The reference tree in the main engine's tic-tac-toe states, root first. */
  function T3Tree(): (g: seq<GameState>)
    ensures |g| == 7 && g[0] == T3(RefState())
  {
    [T3(RefState()), T3(Node1()), T3(Node2()), T3(Node3()), T3(Node4()), T3(Node5()), T3(Node6())]
  }

  /** The main engine's states have the shape of the reference tree. */
  lemma T3TreeShaped()
    ensures RefShaped(T3Tree())
  {
    ReferenceIsMainShaped();
    T3Shaped(RefState(), Node1(), Node2(), Node3(), Node4(), Node5(), Node6());
  }

  /** The main engine's `test_tree_evaluator_expand_by_one`. */
  lemma T3ExpandByOne()
    ensures RefState().WellFormed()
    ensures var a := ExpandLevels(Init(T3(RefState())), [0], 1).0;
      && |a.parent| == |a.children| == |a.states| == |a.values| == 4
      && a.children[0] == [1, 2, 3]
  {
    T3TreeShaped();
    RefExpandByOne(T3Tree());
  }

  /** The main engine's `test_tree_evaluator_expand_by_two` and `test_bfs_iter`. */
  lemma T3ExpandByTwo()
    ensures RefState().WellFormed()
    ensures var a := ExpandLevels(Init(T3(RefState())), [0], 2).0;
      && |a.parent| == |a.children| == |a.states| == |a.values| == 6
      && Bfs(a.children, [0]) == [0, 1, 2, 3, 4, 5]
  {
    T3TreeShaped();
    RefExpandByTwo(T3Tree());
  }

  /** The main engine's `test_evaluate_states`: nine levels, then minimax, give the root `X_WIN_VALUE`. */
  lemma T3Minimax()
    ensures RefState().WellFormed()
    ensures var a := ExpandLevels(Init(T3(RefState())), [0], 9).0;
      Evaluated(Minimax, a.children, Sides(a), a.values, 0)[0] == XWinValue
  {
    T3TreeShaped();
    RefMinimax(T3Tree(), 9);
  }

  /** A main-engine tic-tac-toe state as a refactor-engine game state. */
  function AsLegacy(n: T3GameState): GameState {
    Legacy(RefactorT3Game.FromMain(n))
  }

  /** A main-engine state in the refactor engine's form keeps its side, its well-formedness and its value. */
  lemma LegacyValue(n: T3GameState)
    requires n.WellFormed()
    ensures var l := AsLegacy(n);
      l.WellFormed() && l.Side() == n.Side() && l.PositionValue() == T3Game.PositionValue(n)
  {
    RefactorT3Game.PositionValueSpec(RefactorT3Game.FromMain(n));
  }

  /** The refactor engine expands a converted state into the converted children, in order. */
  lemma LegacyChildren(n: T3GameState, e: seq<T3GameState>)
    requires n.WellFormed() && n.Side() != Empty && T3Game.Expand(n) == e
    ensures AsLegacy(n).WellFormed() && AsLegacy(n).Side() == n.Side()
    ensures var k := AsLegacy(n).Children();
      |k| == |e| && forall j | 0 <= j < |e| :: k[j] == AsLegacy(e[j])
  {
    LegacyValue(n);
  }

  /** `LegacyChildren` for a state with three children. */
  lemma LegacyThreeChildren(n: T3GameState, x: T3GameState, y: T3GameState, z: T3GameState)
    requires n.WellFormed() && n.Side() != Empty && T3Game.Expand(n) == [x, y, z]
    ensures AsLegacy(n).WellFormed() && AsLegacy(n).Side() == n.Side()
    ensures AsLegacy(n).Children() == [AsLegacy(x), AsLegacy(y), AsLegacy(z)]
  {
    LegacyChildren(n, [x, y, z]);
    ThreeItems(AsLegacy(n).Children());
  }

  /** `LegacyChildren` for a state with two children. */
  lemma LegacyTwoChildren(n: T3GameState, x: T3GameState, y: T3GameState)
    requires n.WellFormed() && n.Side() != Empty && T3Game.Expand(n) == [x, y]
    ensures AsLegacy(n).WellFormed() && AsLegacy(n).Side() == n.Side()
    ensures AsLegacy(n).Children() == [AsLegacy(x), AsLegacy(y)]
  {
    LegacyChildren(n, [x, y]);
    var k := AsLegacy(n).Children();
    assert k == [k[0], k[1]];
  }

  /** `LegacyChildren` for a state with one child. */
  lemma LegacyOneChild(n: T3GameState, x: T3GameState)
    requires n.WellFormed() && n.Side() != Empty && T3Game.Expand(n) == [x]
    ensures AsLegacy(n).WellFormed() && AsLegacy(n).Side() == n.Side()
    ensures AsLegacy(n).Children() == [AsLegacy(x)]
  {
    LegacyChildren(n, [x]);
    var k := AsLegacy(n).Children();
    assert k == [k[0]];
  }

  /** Converted to the refactor engine's states, `MainShaped` states have the shape of the reference tree. */
  lemma LegacyShaped(r: T3GameState, n1: T3GameState, n2: T3GameState, n3: T3GameState,
                     n4: T3GameState, n5: T3GameState, n6: T3GameState)
    requires MainShaped(r, n1, n2, n3, n4, n5, n6)
    ensures RefShaped([AsLegacy(r), AsLegacy(n1), AsLegacy(n2), AsLegacy(n3), AsLegacy(n4), AsLegacy(n5), AsLegacy(n6)])
  {
    LegacyThreeChildren(r, n1, n2, n3);
    LegacyTwoChildren(n3, n4, n5);
    LegacyOneChild(n4, n6);
    LegacyValue(n1); LegacyValue(n2); LegacyValue(n3); LegacyValue(n4); LegacyValue(n5); LegacyValue(n6);
    RefShapedOf(AsLegacy(r), AsLegacy(n1), AsLegacy(n2), AsLegacy(n3), AsLegacy(n4), AsLegacy(n5), AsLegacy(n6));
  }

  /** The refactor engine's reference position: the same board, O having moved last on (2, 2). */
  function LegacyRef(): RefactorT3Game.T3GameState {
    RefactorT3Game.T3GameState(RefState().board, RefactorT3Game.T3Move(2, 2, O))
  }

  /** The reference tree in the refactor engine's states, root first. */
  function LegacyTree(): (g: seq<GameState>)
    ensures |g| == 7 && g[0] == Legacy(LegacyRef())
  {
    [AsLegacy(RefState()), AsLegacy(Node1()), AsLegacy(Node2()), AsLegacy(Node3()),
     AsLegacy(Node4()), AsLegacy(Node5()), AsLegacy(Node6())]
  }

  /** The refactor engine's states have the shape of the reference tree. */
  lemma LegacyTreeShaped()
    ensures RefShaped(LegacyTree())
  {
    ReferenceIsMainShaped();
    LegacyShaped(RefState(), Node1(), Node2(), Node3(), Node4(), Node5(), Node6());
  }

  /** The refactor engine's `test_tree_evaluator_expand_by_one`. */
  lemma LegacyExpandByOne()
    ensures LegacyRef().WellFormed()
    ensures var a := ExpandLevels(Init(Legacy(LegacyRef())), [0], 1).0;
      && |a.parent| == |a.children| == |a.states| == |a.values| == 4
      && a.children[0] == [1, 2, 3]
  {
    LegacyTreeShaped();
    RefExpandByOne(LegacyTree());
  }

  /** The refactor engine's `test_tree_evaluator_expand_by_two` and `test_bfs_iter`. */
  lemma LegacyExpandByTwo()
    ensures LegacyRef().WellFormed()
    ensures var a := ExpandLevels(Init(Legacy(LegacyRef())), [0], 2).0;
      && |a.parent| == |a.children| == |a.states| == |a.values| == 6
      && Bfs(a.children, [0]) == [0, 1, 2, 3, 4, 5]
  {
    LegacyTreeShaped();
    RefExpandByTwo(LegacyTree());
  }

  /** The refactor engine's `test_evaluate_states`: two levels, then averaging, give the root `X_WIN_VALUE / 2`. */
  lemma LegacyAveraging()
    ensures LegacyRef().WellFormed()
    ensures var a := ExpandLevels(Init(Legacy(LegacyRef())), [0], 2).0;
      Evaluated(Averaging, a.children, Sides(a), a.values, 0)[0] == XWinValue / 2
  {
    LegacyTreeShaped();
    RefAveraging(LegacyTree());
  }
}
