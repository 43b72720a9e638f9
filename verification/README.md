# wasm_board_games engine, modelled in Dafny

This project models the move-choosing engine of `wasm_board_games`: the tic-tac-toe and
four-in-a-row boards, their game states, the tree arena that expands and evaluates
positions, and the driver the web front end talks to. It also models the older `refactor`
variant of the engine, which evaluates a node by averaging its children instead of by minimax.

Modules, one per file:

- `Cells` (`cells.dfy`): cell markers, coordinates, step vectors, moves and `X_WIN_VALUE`.
- `Boards` (`board.dfy`):
  - `Board` is the board as a value. Game states own their board by value, so expansion clones it.
  - `MutableBoard` is the same board updated in place. Its methods are proved against the value's functions.
- `Lines`: `side_with_min_equal` and `line_winner`.
  - The walk is specified by the sequence of cells it visits.
  - The loop method is proved equal to a scan of that sequence.
  - Lemmas say what the scan finds.
- `T3Game`, `FiarGame`: the two games of the main engine. `FiarGame.Expand` keeps the source's column loops.
- `RefactorBoard`, `RefactorT3Game`: the older engine's board constructor (width first) and its tic-tac-toe state.
  - Its `line_winner`, `side_with_min_equal` and index/bounds code are the same as the main board's and are shared with `Lines` and `Boards`.
- `Games`: the state the arena is generic over (`expand`, `position_value`, `side`, `last_move`), as a sum of the three game states.
- `Forest`: breadth-first order, depth levels and reachability on a `children` vector.
- `Arena`: the four parallel vectors as a value, and what expansion does to them.
- `Extrema`: the minimum and maximum of a sequence, used for the minimax update and for the BFS termination measure.
- `Evaluation`: the bottom-up revaluation of a subtree under the minimax policy and under the averaging policy.
- `TreeEvaluation`: the class `TreeEvaluator` that owns and mutates the four vectors, and `BfsIterator`.
  - `EvaluateStates` is the main engine's `evaluate_states`.
  - `EvaluateAverages` is the `refactor` engine's.
- `ReferenceTree`: the reference tic-tac-toe position of the arena tests (X _ X / O _ O / X _ O, O moved last) and its whole game tree.
  - It works out `line_winner` on a 3×3 board cell by cell, names the seven states of the tree and follows `expand_states_by` and `evaluate_states` through them.
  - It restates the arena tests of both engines as lemmas.
- `GameInterfaces`: the driver generated by `gen_game_if_impl` (maximum depth 9 for tic-tac-toe, 6 for four-in-a-row), as the class `GameInterface`.

Integers are unbounded. The step of a walk is signed. A walk that would step below zero in the
source wraps to a huge `u32` that fails `in_bounds`; here it fails `InBounds` because the value is negative.
Rust's `i32` division truncates toward zero; it is modelled by `Evaluation.TruncDiv`.

## Model

| member | source | states |
|---|---|---|
| Cells.NextSide | src/t3_game.rs:41-45 | the side that moves next is neither `Empty` nor the side that moved last |
| Cells.WinnerValue | src/t3_game.rs:73-79 | a line winner maps to a win value exactly when it is not `Empty`; positive exactly for X, negative exactly for O |
| Boards.Board.GetCell | src/board.rs:17-22 | `Err` exactly off the board; otherwise the cell at row-major index `row * width + col`, which lies inside the cell vector |
| Boards.Board.InBounds | src/board.rs:75-81 | definition: both coordinates below the board's dimensions; stated with `GetCell` and `IndexInRange` |
| Boards.Board.GetIndex | src/board.rs:70-73 | definition: `row * width + col`; stated by `Boards.IndexInRange`, `Boards.CoordsOfIndex` and `Boards.IndexOfCoords` |
| Boards.Board.GetCoords | src/board.rs:83-89 | definition: quotient and remainder by the width; stated by `Boards.CoordsOfIndex` and `Boards.IndexOfCoords` |
| Boards.Board.SetCell | src/board.rs:56-68 | the write succeeds exactly when the target reads `Ok(Empty)`; on success only that index changes; otherwise the board is unchanged; dimensions are kept |
| Boards.Board.SetState | src/board.rs:24-31 | refused exactly when the vector's length is not `width * height`; otherwise the cells become that vector |
| Boards.Board.Reset | src/board.rs:91-95 | every cell becomes `Empty`, dimensions kept |
| Boards.Board.LowestEmptyRow | src/board.rs:173-181 | the largest row below `k` whose cell in the column reads empty, or none when no such row exists |
| Boards.Board.FirstEmptyInColumn | src/board.rs:173-181 | the column is kept; when the column has an empty cell the result is the lowest (largest-row) empty cell; a full column yields the sentinel row 0 |
| Boards.New | src/board.rs:36-42 | `width * height` cells, all `Empty`, with the given dimensions |
| Boards.IndexInRange | src/board.rs:70-81 | an in-bounds position has an index inside the cell vector |
| Boards.CoordsOfIndex | src/board.rs:70-89 | `get_coords(get_index(r, c)) == (r, c)` for every in-bounds position |
| Boards.IndexOfCoords | src/board.rs:70-89 | `get_index(get_coords(i)) == i` for every index of the cell vector, and those coordinates are on the board |
| Boards.SetThenGet | src/board.rs:56-68 | after a successful write the cell reads the marker, every other cell reads as before, and a second write to the same cell fails and changes nothing |
| Boards.ResetIsNew | src/board.rs:91-95 | a reset board equals a new board of the same dimensions |
| Boards.FirstEmptyOnEmptyBoard | src/board.rs:173-181 | on an empty board the column query finds the bottom row |
| Boards.GetCoordsExample | src/board.rs:219-230 | on `new(3, 4)` the indices 0, 1, 6 lie at (0,0), (0,1), (1,2) |
| Boards.MutableBoard.constructor | src/board.rs:36-42 | the in-place board starts as `New(height, width)` |
| Boards.MutableBoard.SetCell | src/board.rs:56-68 | the in-place write leaves exactly the board and success flag of `Board.SetCell` |
| Boards.MutableBoard.SetState | src/board.rs:24-31 | the in-place replacement fails exactly when `Board.SetState` does, leaving the board unchanged; otherwise it gives its board |
| Boards.MutableBoard.Reset | src/board.rs:91-95 | the loop that empties every cell leaves the board `Board.Reset` describes |
| Lines.LineCells | src/board.rs:184-211 | the walk visits at least one cell exactly when it starts on the board |
| Lines.ScanFrom | src/board.rs:184-211 | definition: the loop's count-and-marker scan over the visited cells; stated by `Lines.ScanFindsFirstRun` |
| Lines.RunWinner | src/board.rs:184-211 | definition: `side_with_min_equal` as the scan of the walk's cells; stated by `Lines.RunWinnerSpec` |
| Lines.SideWithMinEqual | src/board.rs:184-211 | the `while` loop returns what the scan of the visited cells returns |
| Lines.BlockLenIsRun | src/board.rs:196-205 | the loop's counter reaches `n` at index `e` exactly when the last `n` cells up to `e` are equal |
| Lines.ScanFindsFirstRun | src/board.rs:184-211 | the scan returns the marker of the first run of `n` equal non-empty cells, or `Empty` exactly when there is none |
| Lines.RunWinnerSpec | src/board.rs:184-211 | `side_with_min_equal` returns a marker only after `n` consecutive equal cells of it along the walk (the first such run), and `Empty` exactly when the walk holds no such run |
| Lines.LinesThroughMove | src/board.rs:113-160 | each of the four walks starts at the board's edge and passes through the last move, so it covers the whole line through it |
| Lines.LineStarts | src/board.rs:113-160 | definition: the four (start, step) pairs of `line_winner`; stated by `Lines.LinesThroughMove` and `Lines.StepsToMove` |
| Lines.StepsToMove | src/board.rs:113-131 | each start lies on the board's edge along its step, and a whole number of steps leads from it to the last move |
| Lines.LineCellsAt | src/board.rs:184-211 | the `t`-th cell the walk visits is the cell `t` steps from its start |
| Lines.FirstLineWinnerFound | src/board.rs:162-170 | a non-empty answer of the loop over the lines is the answer of the first line that has one |
| Lines.FirstLineWinnerNone | src/board.rs:162-170 | the loop over the lines answers `Empty` exactly when every line does |
| Lines.LineWinner | src/board.rs:103-171 | definition: the first non-empty answer over the four lines; stated by `Lines.LineWinnerSpec` |
| Lines.LineWinnerSpec | src/board.rs:103-171 | `line_winner` is non-empty exactly when one of the four lines through the move holds `n` equal non-empty cells; it gives the marker of the first such line (horizontal, vertical, down-diagonal, up-diagonal) |
| Lines.TestBoardStarts | src/board.rs:113-131 | the four starts and steps for the centre of a 3×3 board |
| Lines.TestBoardRow | src/board.rs:232-253 | the row walk through the test board's centre visits O X O |
| Lines.TestBoardColumn | src/board.rs:232-253 | the column walk visits O X X |
| Lines.TestBoardDiagonal | src/board.rs:232-253 | the down-diagonal walk visits X X X |
| Lines.TestBoardAntiDiagonal | src/board.rs:232-253 | the up-diagonal walk visits _ X _ |
| Lines.TestBoardRowRuns | src/board.rs:232-253 | the test board's centre row holds no run of 3 or 4 |
| Lines.TestBoardColumnRuns | src/board.rs:232-253 | the centre column holds no run of 3 or 4 |
| Lines.TestBoardDiagonalRuns | src/board.rs:232-253 | the down-diagonal holds an X run of 3 and no run of 4 |
| Lines.TestBoardAntiDiagonalRuns | src/board.rs:232-253 | the up-diagonal holds no run of 4 |
| Lines.LineWinnerExample | src/board.rs:232-253 | on X O _ / O X O / _ X X the winner through (1,1) with run length 3 is X |
| Lines.LineWinnerNoFour | src/board.rs:232-253 | the same board has no winner with run length 4 |
| T3Game.Default | src/t3_game.rs:26-37 | an empty 3×3 board, last move at (0,0) by O, so X moves first |
| T3Game.PlacementSpec | src/t3_game.rs:47-69 | placing on an empty cell yields a child whose board differs from the parent's only in that cell, which now holds the child's side |
| T3Game.ExpandFrom | src/t3_game.rs:47-69 | definition: the `filter_map` over the cells from index `i` on; stated by `T3Game.ExpandFromCount`, `ExpandFromPlacements`, `ExpandFromOrdered` and `ExpandFromCovers` |
| T3Game.ExpandFromCount | src/t3_game.rs:47-69 | the `filter_map` from index `i` yields as many children as there are empty cells from `i` on |
| T3Game.ExpandFromPlacements | src/t3_game.rs:47-69 | every child from index `i` on places on an empty cell at or after `i` |
| T3Game.ExpandFromOrdered | src/t3_game.rs:47-69 | the children come in strictly increasing cell index |
| T3Game.ExpandFromCovers | src/t3_game.rs:47-69 | every empty cell at or after `i` has a child |
| T3Game.Expand | src/t3_game.rs:40-71 | definition: the next side, then the filter from index 0; stated by `T3Game.ExpandSpec` and `T3Game.ExpandChildren` |
| T3Game.ExpandSpec | src/t3_game.rs:40-71 | `expand` yields exactly one child per empty cell, in row-major order; each places the next side's stone on its cell and changes nothing else |
| T3Game.ExpandChildren | src/t3_game.rs:40-71 | every child is well formed, has the same dimensions, and its side is the opposite of the parent's |
| T3Game.PositionValue | src/t3_game.rs:73-79 | definition: the win value of `line_winner` with run length 3; stated by `T3Game.PositionValueSpec` |
| T3Game.PositionValueSpec | src/t3_game.rs:73-79 | 0 exactly when no line through the last move holds a run of 3; otherwise the first line with a run (horizontal, vertical, down-diagonal, up-diagonal) decides, `X_WIN_VALUE` only when it holds an X run and its negation only when it holds an O run |
| T3Game.ExpandExample | src/t3_game.rs:94-121 | the reference position X _ X / O _ O / X _ O has 3 children |
| T3Game.ExpandEmptyBoard | src/t3_game.rs:40-71 | an empty board has one child per cell |
| FiarGame.Default | src/fiar_game.rs:26-37 | an empty board 6 high and 7 wide, last move by O |
| FiarGame.Expand | src/fiar_game.rs:40-74 | the nested column and row loops return the children `Children` describes |
| FiarGame.DropSpec | src/fiar_game.rs:50-70 | a drop onto the lowest empty row of a column changes only that cell, to the next side's marker |
| FiarGame.ChildrenFrom | src/fiar_game.rs:48-73 | definition: one drop per column with room, from a column on; stated by `FiarGame.ChildrenFromDrops`, `ChildrenFromOrdered` and `ChildrenFromCovers` |
| FiarGame.ChildrenFromDrops | src/fiar_game.rs:48-73 | the children from a column on are drops into columns at or after it, at most one per column |
| FiarGame.ChildrenFromOrdered | src/fiar_game.rs:48-73 | the children come in strictly increasing column order |
| FiarGame.ChildrenFromCovers | src/fiar_game.rs:48-73 | every column with an empty cell gets a child |
| FiarGame.Children | src/fiar_game.rs:40-74 | definition: the next side, then the drops from column 0; stated by `FiarGame.ChildrenSpec` and `FiarGame.ChildrenWellFormed` |
| FiarGame.ChildrenSpec | src/fiar_game.rs:40-74 | at most `width` children, one per column with room and none for a full column, in column order, each a drop onto the lowest empty row |
| FiarGame.ChildrenWellFormed | src/fiar_game.rs:40-74 | every child is well formed, has the same dimensions, and its side is the opposite of the parent's |
| FiarGame.EmptyBoardChildrenFrom | src/fiar_game.rs:48-73 | on an empty board the children from a column on lie one per column on the bottom row |
| FiarGame.DropKeepsHigherCell | src/fiar_game.rs:50-70 | a drop on an empty board leaves every cell above the dropped stone empty |
| FiarGame.BottomDropKeepsUpperRowsEmpty | src/fiar_game.rs:93-126 | a drop onto the bottom row of an empty board leaves every row above it empty |
| FiarGame.EmptyBoardChildren | src/fiar_game.rs:93-126 | an empty board gets one child per column, each on the bottom row, with every other cell empty |
| FiarGame.DefaultChildren | src/fiar_game.rs:93-126 | the default game has 7 children, at (5, j) by X |
| FiarGame.PositionValue | src/fiar_game.rs:76-82 | definition: the win value of `line_winner` with run length 4; stated by `FiarGame.PositionValueSpec` |
| FiarGame.PositionValueSpec | src/fiar_game.rs:76-82 | 0 exactly when no line through the last move holds a run of 4; otherwise the first line with a run decides, `X_WIN_VALUE` only when it holds an X run and its negation only when it holds an O run |
| RefactorBoard.New | src/refactor/board.rs:65-71 | `new(width, height)` gives `width * height` empty cells with those dimensions |
| RefactorBoard.NewSwapsArguments | src/refactor/board.rs:65-71 | it is the main board's `new` with the arguments swapped |
| RefactorBoard.GetCoordsExample | src/refactor/board.rs:133-144 | on `new(4, 3)` the indices 0, 1, 6 lie at (0,0), (0,1), (1,2), and (1,2) has index 6 |
| RefactorT3Game.AsMain | src/refactor/t3_game.rs:9-13 | a state of this engine has the same board, move coordinates and side as the main engine's form |
| RefactorT3Game.FromMain | src/refactor/t3_game.rs:9-13 | converting a main-engine state and back gives it unchanged |
| RefactorT3Game.Default | src/refactor/t3_game.rs:40-49 | an empty 3×3 board, last move at (0,0) by X |
| RefactorT3Game.LineWinnerOf | src/refactor/t3_game.rs:57-128 | definition: the main `line_winner` at the last move with run length 3; stated by `Lines.LineWinnerSpec` and `RefactorT3Game.LineWinnerExample` |
| RefactorT3Game.Expand | src/refactor/t3_game.rs:132-164 | definition: the main engine's children, converted; stated by `RefactorT3Game.ExpandSpec` and `RefactorT3Game.ExpandIsMain` |
| RefactorT3Game.PositionValue | src/refactor/t3_game.rs:166-172 | definition: the win value of `LineWinnerOf`; stated by `RefactorT3Game.PositionValueSpec` |
| RefactorT3Game.ExpandSpec | src/refactor/t3_game.rs:132-164 | one child per empty cell, in strictly increasing index order; each places the next side's stone on an empty cell and changes nothing else |
| RefactorT3Game.ExpandIsMain | src/refactor/t3_game.rs:132-164 | this engine's `expand` yields the main engine's children of the same position, one for one and in the same order |
| RefactorT3Game.ExpandChildren | src/refactor/t3_game.rs:132-164 | every child is well formed, has the same dimensions, and its side is the opposite of the parent's |
| RefactorT3Game.PositionValueSpec | src/refactor/t3_game.rs:166-172 | `X_WIN_VALUE`, its negation or 0 exactly when `line_winner` finds X, O or nothing; the same value as the main engine's |
| RefactorT3Game.LineWinnerExample | src/refactor/t3_game.rs:212-240 | the test board with last move X at (1,1) has winner X |
| RefactorT3Game.ExpandExample | src/refactor/t3_game.rs:242-271 | the reference position has 3 children |
| Games.GameState.Children | src/lib.rs:19-24 | every child state is a well-formed state of the same game, with a side opposite the parent's |
| Games.GameState.PositionValue | src/lib.rs:17-24 | a position value is `X_WIN_VALUE`, its negation or 0 |
| Games.Default | src/game_interface.rs:16-25 | the driver's default state is that of the chosen game, with last side O |
| Games.Expand | src/tree_evaluator.rs:52-55 | the arena's call of `expand` yields the state's children |
| Forest.BfsStartsWithQueue | src/tree_evaluator.rs:176-189 | BFS yields its queue first, in order |
| Forest.Bfs | src/tree_evaluator.rs:176-189 | every id it yields is a node; its order is stated by `Forest.BfsStartsWithQueue`, `BfsLength`, `BfsChildrenAfter`, `BfsReachesQueue` and `BfsIsSubtree` |
| Forest.BfsLength | src/tree_evaluator.rs:176-189 | BFS yields as many ids as the subtrees below its queue hold |
| Forest.BfsChildrenAfter | src/tree_evaluator.rs:87-133 | every child of a yielded node is yielded later, which is why the backward walk sees children before parents |
| Forest.BfsReachesQueue | src/tree_evaluator.rs:176-189 | BFS yields exactly the nodes at some depth below some queued id |
| Forest.BfsIsSubtree | src/tree_evaluator.rs:163-189 | BFS from one id yields exactly its subtree |
| Forest.NextLevel | src/tree_evaluator.rs:176-189 | definition: the children of a list of nodes, in order, which are nodes again; stated by `Forest.BfsLevel` |
| Forest.BfsByLevels | src/tree_evaluator.rs:176-189 | BFS over a queue followed by more ids yields the queue first, then BFS over the rest followed by the queue's children |
| Forest.BfsLevel | src/tree_evaluator.rs:176-189 | BFS yields its queue, then BFS over the queue's children: the order goes level by level |
| Forest.GrowthAddsOneLevel | src/game_interface.rs:27-50 | appending leaves to a tree adds at most one level below any node |
| Forest.LevelSetOfChild | src/game_interface.rs:86-104 | a child's depth-`k` nodes lie among its parent's depth-`k + 1` nodes |
| Forest.LevelOneIffChild | src/game_interface.rs:86-104 | a node has nodes one level below it exactly when it has children |
| Arena.Init | src/tree_evaluator.rs:16-23 | a single root that is its own parent, with no children and value 0, satisfying the arena invariant |
| Arena.Valid | src/tree_evaluator.rs:44-85 | definition of the arena invariant (equal lengths, parent before child, well-formed states with a side, bounded values); kept by `Arena.ExpandNodeValid` and `Arena.ExpandedIsValid` |
| Arena.ExpandNode | src/tree_evaluator.rs:44-85 | definition: skip a final node, else append its children with fresh ids; stated by `Arena.ExpandNodeSpec`, `ExpandNodeIds` and `ExpandedIsAppended` |
| Arena.ExpandNodeSpec | src/tree_evaluator.rs:44-85 | a final node (value ±`X_WIN_VALUE`) yields `None` and nothing changes; otherwise its children get fresh consecutive ids and are appended as `Appended` states; the arena stays valid |
| Arena.ExpandNodeIds | src/tree_evaluator.rs:44-85 | the ids returned are exactly the ids of the appended nodes |
| Arena.ExpandedIsAppended | src/tree_evaluator.rs:52-84 | older entries are unchanged except the expanded node's child list; new nodes record it as parent, have no children and hold their position values |
| Arena.ExpandedIsValid | src/tree_evaluator.rs:56-81 | expansion keeps the four vectors equal in length, every parent before its child, and every value within ±`X_WIN_VALUE` |
| Arena.ExpandNodeValid | src/tree_evaluator.rs:44-85 | expansion keeps the arena valid and never shrinks it |
| Arena.ExpandList | src/tree_evaluator.rs:30-42 | expanding a list of nodes keeps the arena valid and never shrinks it |
| Arena.ExpandListSnoc | src/tree_evaluator.rs:30-42 | each loop step expands one more node of the list |
| Arena.ExpandListKeeps | src/tree_evaluator.rs:30-42 | parents, states and values of older nodes are unchanged |
| Arena.ExpandListGrows | src/tree_evaluator.rs:30-42 | older nodes gain only new leaves as children |
| Arena.ExpandLevels | src/tree_evaluator.rs:147-161 | level-by-level expansion keeps the arena valid and its frontier inside it |
| Arena.ExpandLevelsOne | src/tree_evaluator.rs:147-161 | one level from a single start expands that node alone |
| Arena.ExpandLevelsIdle | src/tree_evaluator.rs:147-161 | a level that starts from an empty frontier leaves the arena and the frontier as they are |
| Arena.ExpandLevelsSettled | src/tree_evaluator.rs:147-161 | once a level leaves an empty frontier, asking for more levels gives the same arena and frontier |
| Arena.Sides | src/tree_evaluator.rs:98 | one side per node, each the `side()` of that node's state |
| Arena.LeafFilterSpec | src/game_interface.rs:52-84 | the filter keeps exactly the childless, non-final ids of the order |
| Arena.LeafFilterAppend | src/game_interface.rs:52-84 | the filter keeps the order of its input: filtering a concatenation concatenates the filtered parts |
| Arena.UnexpandedLeafs | src/game_interface.rs:52-84 | definition: the filter over the BFS order from the start; stated by `Arena.UnexpandedLeafsSpec` and `Arena.LeafFilterAppend` |
| Arena.UnexpandedLeafsSpec | src/game_interface.rs:52-84 | `get_unexpanded_leafs(s)` holds exactly the nodes of the subtree below `s` with no children and a value that is not a win |
| Extrema.Min | src/tree_evaluator.rs:115-121 | the minimum is an element and no element is smaller |
| Extrema.Max | src/tree_evaluator.rs:122-125 | the maximum is an element and no element is larger |
| Evaluation.TruncDiv | src/refactor/tree_evaluator.rs:113-116 | the quotient truncated toward zero: for a non-negative dividend it rounds down, for a negative one up |
| Evaluation.TruncDivBounds | src/refactor/tree_evaluator.rs:113-116 | the truncated quotient of a value between `b * lo` and `b * hi` lies between `lo` and `hi` |
| Evaluation.NodeUpdate | src/tree_evaluator.rs:97-132 | definition of one node's update under either policy; stated by `Evaluation.MinimaxUpdateSpec`, `AveragingUpdateSpec`, `NodeUpdateIdempotent` and `NodeUpdateBounded` |
| Evaluation.NodeUpdateIdempotent | src/tree_evaluator.rs:97-132 | updating a node twice from the same children's values gives the same as once |
| Evaluation.MinimaxUpdateSpec | src/tree_evaluator.rs:97-132 | a final node, a leaf or a side-`Empty` node keeps its value; otherwise a node of side X takes the smallest child value and a node of side O the largest |
| Evaluation.AveragingUpdateSpec | src/refactor/tree_evaluator.rs:97-119 | a final node or a leaf keeps its value; otherwise the truncated mean of the child values, which lies between their minimum and maximum |
| Evaluation.NodeUpdateBounded | src/tree_evaluator.rs:97-132 | updates keep a value within ±`X_WIN_VALUE` |
| Evaluation.EvalBounded | src/tree_evaluator.rs:87-133 | the evaluated value of a node stays within ±`X_WIN_VALUE` |
| Evaluation.EvaluatedBounded | src/tree_evaluator.rs:87-133 | every evaluated value stays within ±`X_WIN_VALUE` |
| Evaluation.Evaluated | src/tree_evaluator.rs:87-133 | one value per node; what the values are is stated by `Evaluation.EvaluatedSpec` and `Evaluation.EvaluateTwice` |
| Evaluation.EvaluatedSpec | src/tree_evaluator.rs:87-133 | `evaluate_states(s)` leaves nodes outside `s`'s subtree unchanged; inside it a node's new value is its update from its children's new values, so final nodes and leaves keep theirs |
| Evaluation.EvalOfEvaluated | src/tree_evaluator.rs:87-133 | evaluating again from evaluated values gives the same value below `s` |
| Evaluation.EvalStep | src/tree_evaluator.rs:97-132 | one step of the backward walk gives the visited node its evaluated value and keeps the others |
| Evaluation.WalkedAll | src/tree_evaluator.rs:97-132 | after the whole backward walk the values are the evaluated ones |
| Evaluation.EvaluateTwice | src/tree_evaluator.rs:87-133 | re-running `evaluate_states(s)` on an unchanged tree changes nothing |
| TreeEvaluation.TreeEvaluator.constructor | src/tree_evaluator.rs:16-23 | the new tree is `Arena.Init` of the root state and is valid |
| TreeEvaluation.TreeEvaluator.ExpandState | src/tree_evaluator.rs:44-85 | the in-place expansion leaves exactly `Arena.ExpandNode`'s arena and result; new ids are the fresh range; a final node leaves the values unchanged |
| TreeEvaluation.TreeEvaluator.PushEmptyChildren | src/tree_evaluator.rs:74-77 | `n` empty child lists are appended and nothing else changes |
| TreeEvaluation.TreeEvaluator.ExpandAndGetChildrenIdx | src/tree_evaluator.rs:30-42 | the arena becomes `Arena.ExpandList`'s, and the ids returned are exactly those of the nodes created, in order |
| TreeEvaluation.TreeEvaluator.ExpandAndCollect | src/tree_evaluator.rs:33-40 | one loop step expands a node and extends the collected ids by those it created |
| TreeEvaluation.TreeEvaluator.ExpandStatesBy | src/tree_evaluator.rs:147-161 | the arena becomes `Arena.ExpandLevels`'s for the given number of levels |
| TreeEvaluation.TreeEvaluator.BfsIter | src/tree_evaluator.rs:163-168 | a fresh iterator over this tree whose queue holds the start id |
| TreeEvaluation.TreeEvaluator.BfsOrder | src/tree_evaluator.rs:163-189 | iterating to the end yields exactly `Bfs` from the start id |
| TreeEvaluation.TreeEvaluator.EvaluateStates | src/tree_evaluator.rs:87-133 | the shape and states are unchanged and the values become `Evaluated` under minimax; the arena stays valid |
| TreeEvaluation.TreeEvaluator.EvaluateAverages | src/refactor/tree_evaluator.rs:87-120 | the shape and states are unchanged and the values become `Evaluated` under averaging; the arena stays valid |
| TreeEvaluation.TreeEvaluator.UpdateMinimax | src/tree_evaluator.rs:98-131 | one node's value becomes its minimax update from its children's current values; nothing else changes |
| TreeEvaluation.TreeEvaluator.UpdateAverage | src/refactor/tree_evaluator.rs:97-119 | one node's value becomes its averaging update; nothing else changes |
| TreeEvaluation.BfsIterator.constructor | src/tree_evaluator.rs:163-168 | the queue holds the start id |
| TreeEvaluation.BfsIterator.Next | src/tree_evaluator.rs:176-189 | an empty queue yields `None`; otherwise the front id is yielded and its children queued; what is still to come is always `Bfs` of the queue, and the queue's total subtree size shrinks |
| ReferenceTree.ScanThree | src/board.rs:103-171 | the run-of-3 scan over three cells finds their marker exactly when all three agree and are not empty, and `Empty` otherwise |
| ReferenceTree.ScanTwo | src/board.rs:103-171 | the scan over two cells never finds a run of 3 |
| ReferenceTree.RowCells | src/board.rs:103-171 | the walk along a row of a 3×3 board visits its three cells left to right |
| ReferenceTree.MiddleColumnCells | src/board.rs:103-171 | the walk down the middle column visits cells 1, 4, 7 |
| ReferenceTree.FallingCells | src/board.rs:103-171 | the falling diagonals from (0,0), (0,1) and (1,0) visit cells 0, 4, 8, then 1, 5, then 3, 7 |
| ReferenceTree.RisingCells | src/board.rs:103-171 | the rising diagonals from (2,0), (1,0) and (2,1) visit cells 6, 4, 2, then 3, 1, then 7, 5 |
| ReferenceTree.FourLines | src/board.rs:103-171 | `line_winner` answers with the winner of the first of its four lines that has one |
| ReferenceTree.TopMiddleWinner | src/board.rs:103-171 | after a move on the middle of the top row, `line_winner` with run 3 is the top row's winner, else the middle column's |
| ReferenceTree.CentreWinner | src/board.rs:103-171 | after a move on the centre, it is the first winner of the middle row, the middle column, the falling and the rising diagonal |
| ReferenceTree.BottomMiddleWinner | src/board.rs:103-171 | after a move on the middle of the bottom row, it is the bottom row's winner, else the middle column's |
| ReferenceTree.PlacementOn3x3 | src/t3_game.rs:47-69 | placing on empty cell `i` of a 3×3 board sets that cell and records the move at row `i / 3`, column `i % 3` |
| ReferenceTree.RefLaterChildren | src/t3_game.rs:47-69 | from cell 4 on, X's moves in the reference position are the centre and cell 7, in that order |
| ReferenceTree.RefChildren | src/t3_game.rs:40-71 | the reference position expands into X's moves on cells 1, 4 and 7, in that order |
| ReferenceTree.Node3Children | src/t3_game.rs:40-71 | after X takes cell 7, the state expands into O's moves on cells 1 and 4 |
| ReferenceTree.Node4Children | src/t3_game.rs:40-71 | after O then takes cell 1, the state expands into X's move on the centre alone |
| ReferenceTree.TopMiddleValue | src/t3_game.rs:73-79 | a state whose last move is on the middle of the top row has the win value of that row's winner, else the middle column's |
| ReferenceTree.CentreValue | src/t3_game.rs:73-79 | a state whose last move is on the centre has the win value of the first line through it that has a winner |
| ReferenceTree.BottomMiddleValue | src/t3_game.rs:73-79 | a state whose last move is on the middle of the bottom row has the win value of that row's winner, else the middle column's |
| ReferenceTree.Node1Value | src/t3_game.rs:73-79 | X completing the top row is worth `X_WIN_VALUE` |
| ReferenceTree.Node2Value | src/t3_game.rs:73-79 | X completing the rising diagonal through the centre is worth `X_WIN_VALUE` |
| ReferenceTree.Node3Value | src/t3_game.rs:73-79 | X on cell 7 completes no line and is worth 0 |
| ReferenceTree.Node4Value | src/t3_game.rs:73-79 | O on cell 1 completes no line and is worth 0 |
| ReferenceTree.Node5Value | src/t3_game.rs:73-79 | O completing the middle row is worth -`X_WIN_VALUE` |
| ReferenceTree.Node6Value | src/t3_game.rs:73-79 | X completing the rising diagonal after O took cell 1 is worth `X_WIN_VALUE` |
| ReferenceTree.RefShapedOf | src/lib.rs:19-24 | seven states with the reference tree's child lists and position values, O having moved last at the root, have its shape; the sides of the leaves need not be given, because every child a state expands into is well-formed and has a side |
| ReferenceTree.FirstLevel | src/tree_evaluator.rs:147-161 | one level from the root of such a tree appends nodes 1, 2, 3 with values `X_WIN_VALUE`, `X_WIN_VALUE`, 0, and they become the frontier |
| ReferenceTree.SecondLevel | src/tree_evaluator.rs:147-161 | the second level skips the final nodes 1 and 2 and appends node 3's children as nodes 4 and 5, the new frontier |
| ReferenceTree.ThirdLevel | src/tree_evaluator.rs:147-161 | the third level skips the final node 5 and appends node 4's child as node 6 |
| ReferenceTree.WholeTree | src/tree_evaluator.rs:147-161 | any number of levels from three on gives the complete seven-node tree |
| ReferenceTree.TwoLevelBfs | src/tree_evaluator.rs:176-189 | BFS from the root of the two-level tree visits ids 0 to 5 in order |
| ReferenceTree.AveragingNodeThree | src/refactor/tree_evaluator.rs:87-120 | under averaging, node 3 gets the mean of 0 and -`X_WIN_VALUE`, truncated: -`X_WIN_VALUE / 2` |
| ReferenceTree.AveragingRootEval | src/refactor/tree_evaluator.rs:87-120 | under averaging, the root gets the truncated mean of `X_WIN_VALUE`, `X_WIN_VALUE` and -`X_WIN_VALUE / 2`, which is `X_WIN_VALUE / 2` |
| ReferenceTree.AveragingRoot | src/refactor/tree_evaluator.rs:87-120 | `evaluate_states(0)` under averaging leaves `X_WIN_VALUE / 2` at the root of the two-level tree |
| ReferenceTree.MinimaxNodeFour | src/tree_evaluator.rs:87-133 | under minimax, node 4 (O moved last) takes the maximum of its one child, `X_WIN_VALUE` |
| ReferenceTree.MinimaxNodeThree | src/tree_evaluator.rs:87-133 | under minimax, node 3 (X moved last) takes the minimum of `X_WIN_VALUE` and -`X_WIN_VALUE` |
| ReferenceTree.MinimaxRootEval | src/tree_evaluator.rs:87-133 | under minimax, the root (O moved last) takes the maximum of its children's values, `X_WIN_VALUE` |
| ReferenceTree.MinimaxRoot | src/tree_evaluator.rs:87-133 | `evaluate_states(0)` under minimax leaves `X_WIN_VALUE` at the root of the complete tree |
| ReferenceTree.RefSides | src/lib.rs:19-24 | in the reference tree, node 3 is X's move and node 4 is O's, because a child's side is neither empty nor its parent's |
| ReferenceTree.RefExpandByOne | src/tree_evaluator.rs:222-232 | one level from the root of such a tree gives four entries in each vector, and the root has the children 1, 2, 3 |
| ReferenceTree.RefExpandByTwo | src/tree_evaluator.rs:235-252 | two levels from the root of such a tree give six entries in each vector, and BFS from the root yields ids 0 to 5 in order |
| ReferenceTree.RefAveraging | src/refactor/tree_evaluator.rs:216-222 | after two levels, `evaluate_states(0)` under averaging gives the root `X_WIN_VALUE / 2` |
| ReferenceTree.RefMinimax | src/tree_evaluator.rs:255-263 | after three or more levels, `evaluate_states(0)` under minimax gives the root `X_WIN_VALUE` |
| ReferenceTree.ReferenceIsMainShaped | src/tree_evaluator.rs:194-219 | the tests' reference position and the six states below it have the reference tree's expansions and position values |
| ReferenceTree.T3Shaped | src/t3_game.rs:40-79 | main-engine tic-tac-toe states with those expansions and values, wrapped as game states, have the reference tree's shape |
| ReferenceTree.T3Tree | src/tree_evaluator.rs:194-219 | definition: the seven main-engine states of the reference tree, root first; the root is the tests' reference position |
| ReferenceTree.T3TreeShaped | src/tree_evaluator.rs:194-219 | the main engine's reference tree has the reference shape |
| ReferenceTree.T3ExpandByOne | src/tree_evaluator.rs:222-232 | the main engine's `test_tree_evaluator_expand_by_one`: four entries per vector, the root's children 1, 2, 3 |
| ReferenceTree.T3ExpandByTwo | src/tree_evaluator.rs:235-252 | the main engine's `test_tree_evaluator_expand_by_two` and `test_bfs_iter`: six entries per vector, BFS order 0 to 5 |
| ReferenceTree.T3Minimax | src/tree_evaluator.rs:255-263 | the main engine's `test_evaluate_states`: nine levels, then `evaluate_states(0)`, leave `X_WIN_VALUE` at the root |
| ReferenceTree.LegacyValue | src/refactor/t3_game.rs:166-172 | a main-engine state converted to the `refactor` engine's form keeps its side, its well-formedness and its position value |
| ReferenceTree.LegacyChildren | src/refactor/t3_game.rs:132-164 | the `refactor` engine expands a converted state into the converted children of the main engine, in order |
| ReferenceTree.LegacyShaped | src/refactor/t3_game.rs:132-172 | converted to the `refactor` engine's states, the reference tree's states keep its shape |
| ReferenceTree.LegacyTree | src/refactor/tree_evaluator.rs:155-180 | definition: the seven `refactor`-engine states of the reference tree; the root is that engine's reference position, O having moved last at (2, 2) |
| ReferenceTree.LegacyTreeShaped | src/refactor/tree_evaluator.rs:155-180 | the `refactor` engine's reference tree has the reference shape |
| ReferenceTree.LegacyExpandByOne | src/refactor/tree_evaluator.rs:182-193 | the `refactor` engine's `test_tree_evaluator_expand_by_one`: four entries per vector, the root's children 1, 2, 3 |
| ReferenceTree.LegacyExpandByTwo | src/refactor/tree_evaluator.rs:196-213 | the `refactor` engine's `test_tree_evaluator_expand_by_two` and `test_bfs_iter`: six entries per vector, BFS order 0 to 5 |
| ReferenceTree.LegacyAveraging | src/refactor/tree_evaluator.rs:216-222 | the `refactor` engine's `test_evaluate_states`: two levels, then `evaluate_states(0)`, leave `X_WIN_VALUE / 2` at the root |
| GameInterfaces.FoldBest | src/game_interface.rs:186-215 | definition: the fold that replaces the best only by a strictly better value; stated by `GameInterfaces.FoldBestSpec` |
| GameInterfaces.FoldBestSpec | src/game_interface.rs:169-224 | the fold finds no child exactly when no value beats the starting bound; otherwise the first child with the best value for the side to move |
| GameInterfaces.Better | src/game_interface.rs:186-215 | definition: after O's move a larger value is better, after X's move a smaller one; stated with `GameInterfaces.FoldBestSpec` |
| GameInterfaces.Bound | src/game_interface.rs:186-215 | definition: the fold's starting value, `-X_WIN_VALUE` after O's move and `X_WIN_VALUE` after X's; stated with `GameInterfaces.FoldBestSpec` |
| GameInterfaces.BestChild | src/game_interface.rs:169-224 | `None` exactly when no child's value beats the starting bound; otherwise the child with the first strictly best value for the side moving next: its value beats the bound, no child's value beats it, and it beats every earlier child's |
| GameInterfaces.FindChild | src/game_interface.rs:146-167 | the first id of the list whose state's last move is the given move, or `None` when none has it |
| GameInterfaces.ExpandLevelKeeps | src/game_interface.rs:27-50 | expanding the frontier below the maximum keeps the driver invariant with one more level counted |
| GameInterfaces.ValuesKeep | src/game_interface.rs:106-135 | revaluing nodes keeps the driver invariant |
| GameInterfaces.RerootKeeps | src/game_interface.rs:86-135 | moving to a child needs at least one expanded level (so the decrement never underflows) and keeps the driver invariant |
| GameInterfaces.MaxDepth | src/game_interface.rs:244-255 | definition: maximum depth 9 for tic-tac-toe and 6 for four-in-a-row; used by `GameInterfaces.GameInterface.constructor` |
| GameInterfaces.GameInterface.constructor | src/game_interface.rs:16-25 | a tree of the game's default state alone, last move 0, frontier `[0]`, depth 0 of maximum 9 or 6 |
| GameInterfaces.GameInterface.ExpandOneLevel | src/game_interface.rs:27-50 | below the maximum: expands the frontier, makes the new ids the frontier, counts one more level, `NotDone` exactly while still below the maximum; at the maximum: `Done` and no change |
| GameInterfaces.GameInterface.IdentifyMove | src/game_interface.rs:146-167 | a direct child of the last move's node reached by the move, or `None` when no child is |
| GameInterfaces.GameInterface.TrackMove | src/game_interface.rs:86-104 | true exactly when a child is reached by the move; it becomes the last move, one level fewer counts and the frontier becomes its unexpanded leaves; otherwise nothing changes |
| GameInterfaces.GameInterface.IdentifyBestMove | src/game_interface.rs:169-224 | `None` exactly when no child of the last move's node beats the starting bound; otherwise its child with the first strictly best value for the side moving next, and that value |
| GameInterfaces.GameInterface.GetBestMove | src/game_interface.rs:106-135 | evaluates the subtree below the last move by minimax, returns the best child's move and re-roots to it as `track_move` does |
| GameInterfaces.GameInterface.MoveTo | src/game_interface.rs:91-96 | the re-rooting `track_move` and `get_best_move` share keeps the driver invariant |
| GameInterfaces.GameInterface.Reset | src/game_interface.rs:137-144 | the driver returns to the state `new()` builds, with a fresh tree |

## Left out

- Drawing, DOM events, Web Workers, the wasm-bindgen glue and serde/`JsValue` conversions are I/O and foreign calls. Logging calls and `cells_ptr` are left out too.
- The superseded engine (`src/game_state.rs`, `src/game_evaluator.rs`, `src/tree.rs`, `src/game.rs`) is not part of this model. The crate root does not compile it, and it uses floating point and reference-counted nodes.
- `src/refactor/game_interface.rs` is not part of this model. It calls arena functions the `refactor` tree evaluator does not define, and its `track_move` is a stub.
- `src/common.rs` is not part of this model.
- Integer widths (`u32`, `i32`, `usize`) are unbounded here. No computation of the engine comes near their limits: board sizes are tiny and values stay within ±`X_WIN_VALUE`.
- Panics become preconditions:
  - `expand` on a state whose last side is `Empty`;
  - `line_winner` off the board;
  - `get_coords` on a board of width 0, which divides by zero;
  - indexing the arena with an unknown id.
- The `expect` in `identify_best_move` is modelled as `None`. `GetBestMove` then returns `None` and changes nothing beyond the evaluation.
- TreeEvaluation.TreeEvaluator.constructor: requires a root state whose side is not `Empty`. The source accepts any state but would panic on the first expansion of one.
- Arena.ExpandList: returns only the arena. The ids created are stated by `ExpandNodeIds` and by the method `ExpandAndGetChildrenIdx`.
- ReferenceTree.WholeTree and the other reference-tree lemmas follow one position of the arena tests, not arbitrary trees. The general properties of expansion and evaluation are stated in `Arena`, `Forest` and `Evaluation`.
- `get_unexpanded_leafs` is a function (`Arena.UnexpandedLeafs`). It is a pure filter over the BFS order in the source as well.
- `Board::cells`, `width` and `height` are plain field reads.
- The `refactor` engine's `line_winner`, `side_with_min_equal`, `get_cell`, `set_cell`, `set_state`, `get_index`, `in_bounds`, `get_coords` and `reset` have the same text as the main board's. They are modelled once, in `Lines` and `Boards`.
- A node whose side is `Empty` keeps its value under minimax; the source logs an error there. The arena invariant rules such nodes out anyway.
