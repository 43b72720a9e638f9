/**
 * Win detection: `side_with_min_equal` walks one line of the board counting
 * equal markers, and `line_winner` asks it about the four lines through the
 * last move (horizontal, vertical, diagonal down, diagonal up).
 *
 * The walk is specified by the sequence of cells it visits (`LineCells`) and
 * by a scan of that sequence (`ScanFrom`); the lemmas say what the scan finds:
 * the marker of the first run of `n` equal non-empty cells, or `Empty`.
 */
module Lines {
  import opened Wrappers
  import opened Cells
  import opened Boards

  /**
   * The step vectors `line_winner` uses: right, down, down-right and up-right.
   * Each leaves the board after finitely many steps.
   */
  predicate IsStep(d: DeltaCoords) {
    (d.col == 1 && -1 <= d.row <= 1) || (d.row == 1 && d.col == 0)
  }

  /** The cells visited by a walk from (row, col) along `d` until it leaves the board. */
  function LineCells(b: Board, row: int, col: int, d: DeltaCoords): (s: seq<Cell>)
    requires b.Valid() && IsStep(d)
    ensures |s| > 0 <==> b.InBounds(row, col)
    decreases if d.col == 1 then b.width - col else b.height - row
  {
    if b.InBounds(row, col) then
      [b.GetCell(row, col).value] + LineCells(b, row + d.row, col + d.col, d)
    else
      []
  }

  /**
   * The loop of `side_with_min_equal` over the visited cells `s`, from index
   * `i` on, with the marker and count it carries: the count grows while the
   * marker repeats and restarts at 1 when it changes; the first time the count
   * reaches `n` on a non-empty marker, that marker is the answer.
   */
  function ScanFrom(s: seq<Cell>, i: nat, n: int, marker: Cell, count: int): Cell
    requires i <= |s|
    decreases |s| - i
  {
    if i == |s| then
      Empty
    else
      var (m, k) := if s[i] == marker then (marker, count + 1) else (s[i], 1);
      if k >= n && m != Empty then m else ScanFrom(s, i + 1, n, m, k)
  }

  /** What `side_with_min_equal(board, pos, d, n)` returns. */
  function RunWinner(b: Board, pos: Coords, d: DeltaCoords, n: int): Cell
    requires b.Valid() && IsStep(d)
  {
    ScanFrom(LineCells(b, pos.row, pos.col, d), 0, n, Empty, 0)
  }

  /**
   * `side_with_min_equal`: walks from `pos` along `d` while on the board and
   * returns the first marker seen `n` times in a row, or `Empty`.
   */
  method SideWithMinEqual(b: Board, pos: Coords, d: DeltaCoords, n: int) returns (c: Cell)
    requires b.Valid() && IsStep(d)
    ensures c == RunWinner(b, pos, d, n)
  {
    var count := 0;
    var marker := Empty;
    var curRow: int, curCol: int := pos.row, pos.col;
    ghost var s := LineCells(b, pos.row, pos.col, d);
    ghost var i: nat := 0;
    while b.InBounds(curRow, curCol)
      invariant i <= |s| && LineCells(b, curRow, curCol, d) == s[i..]
      invariant ScanFrom(s, i, n, marker, count) == ScanFrom(s, 0, n, Empty, 0)
      decreases if d.col == 1 then b.width - curCol else b.height - curRow
    {
      var curMarker := b.GetCell(curRow, curCol).value;
      if curMarker == marker {
        count := count + 1;
      } else {
        marker := curMarker;
        count := 1;
      }
      if count >= n && marker != Empty {
        return marker;
      }
      curRow := curRow + d.row;
      curCol := curCol + d.col;
      i := i + 1;
    }
    return Empty;
  }

  /** The length of the block of equal cells that ends at index `e`. */
  function BlockLen(s: seq<Cell>, e: nat): nat
    requires e < |s|
  {
    if e == 0 then 1 else if s[e] == s[e - 1] then BlockLen(s, e - 1) + 1 else 1
  }

  /** The `n` cells of `s` that end at index `e` all hold the non-empty marker `m`. */
  ghost predicate RunEndsAt(s: seq<Cell>, e: int, n: int, m: Cell) {
    && n >= 1 && 0 <= e - n + 1 && e < |s| && m != Empty
    && forall t | e - n < t <= e :: s[t] == m
  }

  /** A block of at least `n` equal cells ends at `e` exactly when the last `n` cells equal `s[e]`. */
  lemma {:induction false} BlockLenIsRun(s: seq<Cell>, e: nat, n: nat)
    requires e < |s| && n >= 1
    ensures BlockLen(s, e) >= n <==> (e - n + 1 >= 0 && forall t | e - n < t <= e :: s[t] == s[e])
  {
    if n > 1 {
      if e > 0 && s[e] == s[e - 1] {
        BlockLenIsRun(s, e - 1, n - 1);
        if e - n + 1 >= 0 && forall t | e - n < t <= e :: s[t] == s[e] {
          assert forall t | e - 1 - (n - 1) < t <= e - 1 :: s[t] == s[e - 1];
        }
      } else if e > 0 {
        assert s[e - 1] != s[e];
      }
    }
  }

  /**
   * The scan started in a state consistent with the cells before `i`, with no
   * run found before `i`, returns the marker of the first run of `n` equal
   * non-empty cells that ends at or after `i`, or `Empty` when there is none.
   */
  lemma {:induction false} ScanFindsFirstRun(s: seq<Cell>, i: nat, n: int, marker: Cell, count: int)
    requires i <= |s| && n >= 1
    requires i == 0 ==> marker == Empty && count == 0
    requires i > 0 ==> marker == s[i - 1] && count == BlockLen(s, i - 1)
    requires forall e, m | e < i :: !RunEndsAt(s, e, n, m)
    ensures var w := ScanFrom(s, i, n, marker, count);
      && (w != Empty ==> exists e | i <= e < |s| :: RunEndsAt(s, e, n, w)
                                                 && forall e', m | e' < e :: !RunEndsAt(s, e', n, m))
      && (w == Empty ==> forall e, m :: !RunEndsAt(s, e, n, m))
    decreases |s| - i
  {
    if i < |s| {
      var (m, k) := if s[i] == marker then (marker, count + 1) else (s[i], 1);
      assert m == s[i] && k == BlockLen(s, i);
      BlockLenIsRun(s, i, n);
      forall m' | RunEndsAt(s, i, n, m') ensures m' == s[i] && k >= n {
        assert s[i] == m';
      }
      if k >= n && m != Empty {
        assert RunEndsAt(s, i, n, m);
      } else {
        assert forall m' :: !RunEndsAt(s, i, n, m');
        ScanFindsFirstRun(s, i + 1, n, m, k);
      }
    }
  }

  /**
   * `side_with_min_equal` returns a non-empty marker only after `n` equal
   * consecutive cells of that marker along the walk, namely the first such run
   * to complete, and returns `Empty` exactly when the walk holds no such run.
   */
  lemma RunWinnerSpec(b: Board, pos: Coords, d: DeltaCoords, n: int)
    requires b.Valid() && IsStep(d) && n >= 1
    ensures RunWinner(b, pos, d, n) != Empty ==>
      exists e :: RunEndsAt(LineCells(b, pos.row, pos.col, d), e, n, RunWinner(b, pos, d, n))
        && forall e', m | e' < e :: !RunEndsAt(LineCells(b, pos.row, pos.col, d), e', n, m)
    ensures RunWinner(b, pos, d, n) == Empty ==>
      forall e, m :: !RunEndsAt(LineCells(b, pos.row, pos.col, d), e, n, m)
  {
    ScanFindsFirstRun(LineCells(b, pos.row, pos.col, d), 0, n, Empty, 0);
  }

  /**
   * The four (start, step) pairs of `line_winner` for the move at `m`: the
   * start of the row, the top of the column, and the ends of the two
   * diagonals, found by stepping back the smaller distance to an edge.
   */
  function LineStarts(b: Board, m: Coords): seq<(Coords, DeltaCoords)>
    requires b.InBounds(m.row, m.col)
  {
    var downDist := if m.row < m.col then m.row else m.col;
    var upDist := if b.height - 1 - m.row < m.col then b.height - 1 - m.row else m.col;
    [ (Coords(m.row, 0), DeltaCoords(0, 1)),
      (Coords(0, m.col), DeltaCoords(1, 0)),
      (Coords(m.row - downDist, m.col - downDist), DeltaCoords(1, 1)),
      (Coords(m.row + upDist, m.col - upDist), DeltaCoords(-1, 1)) ]
  }

  /** The cells of the `k`-th line through `m`, in the order the walk visits them. */
  function LineOf(b: Board, m: Coords, k: nat): seq<Cell>
    requires b.Valid() && b.InBounds(m.row, m.col) && k < 4
  {
    var (p, d) := LineStarts(b, m)[k];
    LineCells(b, p.row, p.col, d)
  }

  /** Every walk in `lines` uses one of the four step vectors. */
  predicate AllSteps(lines: seq<(Coords, DeltaCoords)>) {
    forall j | 0 <= j < |lines| :: IsStep(lines[j].1)
  }

  /** The loop of `line_winner` over the lines from index `k`: the first non-empty answer. */
  function FirstLineWinner(b: Board, lines: seq<(Coords, DeltaCoords)>, n: int, k: nat): Cell
    requires b.Valid() && k <= |lines|
    requires AllSteps(lines)
    decreases |lines| - k
  {
    if k == |lines| then
      Empty
    else
      var w := RunWinner(b, lines[k].0, lines[k].1, n);
      if w != Empty then w else FirstLineWinner(b, lines, n, k + 1)
  }

  /**
   * `line_winner(last_move, n)`: the winner on the lines through the last move.
   * The source computes `height - 1 - row`, so the move must be on the board.
   */
  function LineWinner(b: Board, m: Coords, n: int): Cell
    requires b.Valid() && b.InBounds(m.row, m.col)
  {
    FirstLineWinner(b, LineStarts(b, m), n, 0)
  }

  /**
   * Each of the four walks starts at the edge of the board (one step back
   * leaves it) and reaches the last move after `t` steps, so it covers the
   * whole line through the move.
   */
  lemma LinesThroughMove(b: Board, m: Coords, k: nat)
    requires b.Valid() && b.InBounds(m.row, m.col) && k < 4
    ensures var (p, d) := LineStarts(b, m)[k];
      && IsStep(d) && b.InBounds(p.row, p.col)
      && !b.InBounds(p.row - d.row, p.col - d.col)
      && exists t: nat :: p.row + t * d.row == m.row && p.col + t * d.col == m.col
                          && t < |LineOf(b, m, k)| && LineOf(b, m, k)[t] == b.GetCell(m.row, m.col).value
  {
    var (p, d) := LineStarts(b, m)[k];
    var t := StepsToMove(b, m, k);
    LineCellsAt(b, p.row, p.col, d, t);
    assert LineOf(b, m, k) == LineCells(b, p.row, p.col, d);
  }

  /** How many steps the `k`-th walk through `m` takes from its start to `m`. */
  function StepsToMove(b: Board, m: Coords, k: nat): (t: nat)
    requires b.InBounds(m.row, m.col) && k < 4
    ensures var (p, d) := LineStarts(b, m)[k];
      && IsStep(d) && b.InBounds(p.row, p.col) && !b.InBounds(p.row - d.row, p.col - d.col)
      && p.row + t * d.row == m.row && p.col + t * d.col == m.col
  {
    if k == 0 then m.col
    else if k == 1 then m.row
    else if k == 2 then (if m.row < m.col then m.row else m.col)
    else (if b.height - 1 - m.row < m.col then b.height - 1 - m.row else m.col)
  }

  /**
   * A walk whose start and `t`-th step are on the board visits at least
   * `t + 1` cells, the `t`-th being the cell `t` steps away.
   */
  lemma {:induction false} LineCellsAt(b: Board, row: int, col: int, d: DeltaCoords, t: nat)
    requires b.Valid() && IsStep(d)
    requires b.InBounds(row, col) && b.InBounds(row + t * d.row, col + t * d.col)
    ensures var s := LineCells(b, row, col, d);
      t < |s| && s[t] == b.GetCell(row + t * d.row, col + t * d.col).value
    decreases t
  {
    if t > 0 {
      var r1, c1 := row + d.row, col + d.col;
      WalkStep(b, row, col, d, t);
      LineCellsAt(b, r1, c1, d, t - 1);
      var s := LineCells(b, row, col, d);
      assert s == [b.GetCell(row, col).value] + LineCells(b, r1, c1, d);
    }
  }

  /**
   * One step of a walk whose start and `t`-th step are on the board stays on
   * the board, and from there the same cell is `t - 1` steps away.
   */
  lemma WalkStep(b: Board, row: int, col: int, d: DeltaCoords, t: nat)
    requires IsStep(d) && t > 0
    requires b.InBounds(row, col) && b.InBounds(row + t * d.row, col + t * d.col)
    ensures b.InBounds(row + d.row, col + d.col)
    ensures row + d.row + (t - 1) * d.row == row + t * d.row
    ensures col + d.col + (t - 1) * d.col == col + t * d.col
  {
    assert (t - 1) * d.row == t * d.row - d.row;
    assert (t - 1) * d.col == t * d.col - d.col;
    if d.row == 1 {
      assert t * d.row == t;
    } else if d.row == -1 {
      assert t * d.row + t == 0;
    }
    if d.col == 1 {
      assert t * d.col == t;
    }
  }

  /** A non-empty answer of the loop over the lines is the answer of the first line that has one. */
  lemma {:induction false} FirstLineWinnerFound(b: Board, lines: seq<(Coords, DeltaCoords)>, n: int, k: nat)
    requires b.Valid() && k <= |lines|
    requires AllSteps(lines)
    ensures var w := FirstLineWinner(b, lines, n, k);
      w != Empty ==> exists j | k <= j < |lines| :: RunWinner(b, lines[j].0, lines[j].1, n) == w
                       && forall j' | k <= j' < j :: RunWinner(b, lines[j'].0, lines[j'].1, n) == Empty
    decreases |lines| - k
  {
    if k < |lines| && RunWinner(b, lines[k].0, lines[k].1, n) == Empty {
      FirstLineWinnerFound(b, lines, n, k + 1);
    }
  }

  /** The loop over the lines answers `Empty` exactly when every line from `k` on does. */
  lemma {:induction false} FirstLineWinnerNone(b: Board, lines: seq<(Coords, DeltaCoords)>, n: int, k: nat)
    requires b.Valid() && k <= |lines|
    requires AllSteps(lines)
    ensures FirstLineWinner(b, lines, n, k) == Empty <==>
              forall j | k <= j < |lines| :: RunWinner(b, lines[j].0, lines[j].1, n) == Empty
    decreases |lines| - k
  {
    if k < |lines| {
      FirstLineWinnerNone(b, lines, n, k + 1);
    }
  }

  /**
   * `line_winner` returns a non-empty marker exactly when one of the four
   * lines through the move holds `n` equal non-empty cells; the marker is that
   * of the first such line, in the order horizontal, vertical, diagonal down,
   * diagonal up. Which run of that line decides is stated by `RunWinnerSpec`.
   */
  lemma LineWinnerSpec(b: Board, m: Coords, n: int)
    requires b.Valid() && b.InBounds(m.row, m.col) && n >= 1
    ensures var w := LineWinner(b, m, n);
      && (w != Empty ==> exists k, e | 0 <= k < 4 :: RunEndsAt(LineOf(b, m, k), e, n, w)
                            && forall k' , e', c | 0 <= k' < k :: !RunEndsAt(LineOf(b, m, k'), e', n, c))
      && (w == Empty <==> forall k, e, c | 0 <= k < 4 :: !RunEndsAt(LineOf(b, m, k), e, n, c))
  {
    var lines := LineStarts(b, m);
    var w := LineWinner(b, m, n);
    FirstLineWinnerFound(b, lines, n, 0);
    FirstLineWinnerNone(b, lines, n, 0);
    forall k | 0 <= k < 4
      ensures var r := RunWinner(b, lines[k].0, lines[k].1, n);
        && (r != Empty ==> exists e :: RunEndsAt(LineOf(b, m, k), e, n, r))
        && (r == Empty <==> forall e, c :: !RunEndsAt(LineOf(b, m, k), e, n, c))
    {
      RunWinnerSpec(b, lines[k].0, lines[k].1, n);
      assert LineOf(b, m, k) == LineCells(b, lines[k].0.row, lines[k].0.col, lines[k].1);
    }
    if w != Empty {
      var j :| 0 <= j < 4 && RunWinner(b, lines[j].0, lines[j].1, n) == w
               && forall j' | 0 <= j' < j :: RunWinner(b, lines[j'].0, lines[j'].1, n) == Empty;
      var e :| RunEndsAt(LineOf(b, m, j), e, n, w);
    }
  }

  /** The board of the source's test: X O _ / O X O / _ X X. */
  function TestBoard(): Board {
    Board([X, O, Empty, O, X, O, Empty, X, X], 3, 3)
  }

  /** The row through the centre of the test board, walked from its left end. */
  lemma TestBoardRow()
    ensures LineCells(TestBoard(), 1, 0, DeltaCoords(0, 1)) == [O, X, O]
  {
    assert LineCells(TestBoard(), 1, 3, DeltaCoords(0, 1)) == [];
  }

  /** The column through the centre of the test board, walked from its top end. */
  lemma TestBoardColumn()
    ensures LineCells(TestBoard(), 0, 1, DeltaCoords(1, 0)) == [O, X, X]
  {
  }

  /** The falling diagonal through the centre of the test board, walked from its top end. */
  lemma TestBoardDiagonal()
    ensures LineCells(TestBoard(), 0, 0, DeltaCoords(1, 1)) == [X, X, X]
  {
  }

  /** The rising diagonal through the centre of the test board, walked from its bottom end. */
  lemma TestBoardAntiDiagonal()
    ensures LineCells(TestBoard(), 2, 0, DeltaCoords(-1, 1)) == [Empty, X, Empty]
  {
  }

  /** The walks `line_winner` takes through the centre of the test board. */
  function TestBoardLines(): (lines: seq<(Coords, DeltaCoords)>)
    ensures |lines| == 4 && AllSteps(lines)
  {
    [(Coords(1, 0), DeltaCoords(0, 1)), (Coords(0, 1), DeltaCoords(1, 0)),
     (Coords(0, 0), DeltaCoords(1, 1)), (Coords(2, 0), DeltaCoords(-1, 1))]
  }

  /** The starts and steps of the four walks through the centre of the test board. */
  lemma TestBoardStarts()
    ensures LineStarts(TestBoard(), Coords(1, 1)) == TestBoardLines()
  {
  }

  /** The runs on the four walks through the centre of the test board, for run lengths 3 and 4. */
  lemma TestBoardRowRuns()
    ensures RunWinner(TestBoard(), Coords(1, 0), DeltaCoords(0, 1), 3) == Empty
    ensures RunWinner(TestBoard(), Coords(1, 0), DeltaCoords(0, 1), 4) == Empty
  {
    TestBoardRow();
  }

  lemma TestBoardColumnRuns()
    ensures RunWinner(TestBoard(), Coords(0, 1), DeltaCoords(1, 0), 3) == Empty
    ensures RunWinner(TestBoard(), Coords(0, 1), DeltaCoords(1, 0), 4) == Empty
  {
    TestBoardColumn();
  }

  lemma TestBoardDiagonalRuns()
    ensures RunWinner(TestBoard(), Coords(0, 0), DeltaCoords(1, 1), 3) == X
    ensures RunWinner(TestBoard(), Coords(0, 0), DeltaCoords(1, 1), 4) == Empty
  {
    TestBoardDiagonal();
  }

  lemma TestBoardAntiDiagonalRuns()
    ensures RunWinner(TestBoard(), Coords(2, 0), DeltaCoords(-1, 1), 4) == Empty
  {
    TestBoardAntiDiagonal();
  }

  /**
   * The source's test of `line_winner`: on the test board with the last move
   * at the centre, X owns the falling diagonal, so the winner with run length
   * 3 is X.
   */
  lemma LineWinnerExample()
    ensures LineWinner(TestBoard(), Coords(1, 1), 3) == X
  {
    TestBoardStarts();
    TestBoardRowRuns();
    TestBoardColumnRuns();
    TestBoardDiagonalRuns();
    var b, lines := TestBoard(), TestBoardLines();
    FirstLineWinnerFound(b, lines, 3, 0);
    FirstLineWinnerNone(b, lines, 3, 0);
    assert RunWinner(b, lines[2].0, lines[2].1, 3) == X;
  }

  /** The same test board holds no run of 4 on any line through the centre. */
  lemma LineWinnerNoFour()
    ensures LineWinner(TestBoard(), Coords(1, 1), 4) == Empty
  {
    TestBoardStarts();
    TestBoardRowRuns();
    TestBoardColumnRuns();
    TestBoardDiagonalRuns();
    TestBoardAntiDiagonalRuns();
    NoLineWinner(TestBoard(), TestBoardLines(), 4);
  }

  /** When none of four lines has a winner, the loop over them answers `Empty`. */
  lemma NoLineWinner(b: Board, lines: seq<(Coords, DeltaCoords)>, n: int)
    requires b.Valid() && |lines| == 4 && AllSteps(lines)
    requires RunWinner(b, lines[0].0, lines[0].1, n) == Empty
    requires RunWinner(b, lines[1].0, lines[1].1, n) == Empty
    requires RunWinner(b, lines[2].0, lines[2].1, n) == Empty
    requires RunWinner(b, lines[3].0, lines[3].1, n) == Empty
    ensures FirstLineWinner(b, lines, n, 0) == Empty
  {
    FirstLineWinnerNone(b, lines, n, 0);
  }
}
