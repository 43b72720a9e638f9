/**
 * The driver the web front end talks to, generated by one macro for
 * tic-tac-toe (maximum depth 9) and four-in-a-row (maximum depth 6). It owns
 * a tree evaluator and tracks the node of the last move played, the frontier
 * of nodes to expand next and how many levels below the last move have been
 * expanded.
 */
module GameInterfaces {
  import opened Wrappers
  import opened Cells
  import opened Forest
  import opened Games
  import opened Arena
  import opened Evaluation
  import opened TreeEvaluation

  datatype ExpandResult = Done | NotDone

  /** The macro's maximum expansion depth per game. */
  function MaxDepth(kind: GameKind): nat {
    match kind
    case TicTacToe => 9
    case FourInARow => 6
  }

  /**
   * What the side that moves next wants: after O's move X moves and wants a
   * larger value, after X's move O wants a smaller one.
   */
  predicate Better(side: Cell, a: int, b: int) {
    match side
    case O => a > b
    case X => a < b
    case Empty => false
  }

  /**
   * The fold's starting value, the worst value for the side moving next:
   * `-X_WIN_VALUE` when X moves next (after O), `X_WIN_VALUE` when O moves
   * next (after X).
   */
  function Bound(side: Cell): int {
    match side
    case O => -XWinValue
    case X => XWinValue
    case Empty => 0
  }

  /**
   * The fold of `identify_best_move` over the first `n` child values: a
   * value replaces the current best only when it is strictly better.
   * Returns the position of the best child and its value.
   */
  function FoldBest(side: Cell, vals: seq<int>, n: nat): (Option<nat>, int)
    requires n <= |vals|
  {
    if n == 0 then
      (None, Bound(side))
    else
      var (best, bestVal) := FoldBest(side, vals, n - 1);
      if Better(side, vals[n - 1], bestVal) then (Some(n - 1), vals[n - 1]) else (best, bestVal)
  }

  /**
   * The fold finds no child exactly when no value beats the starting bound;
   * otherwise it finds the first child with the best value: its value beats
   * the bound, no value beats it, and it beats every earlier value.
   */
  lemma {:induction false} FoldBestSpec(side: Cell, vals: seq<int>, n: nat)
    requires n <= |vals|
    ensures var (best, bestVal) := FoldBest(side, vals, n);
      && (best.None? ==> bestVal == Bound(side) && forall j | 0 <= j < n :: !Better(side, vals[j], Bound(side)))
      && (best.Some? ==>
            && best.value < n && bestVal == vals[best.value]
            && Better(side, vals[best.value], Bound(side))
            && (forall j | 0 <= j < n :: !Better(side, vals[j], vals[best.value]))
            && (forall j | 0 <= j < best.value :: Better(side, vals[best.value], vals[j])))
  {
    if n > 0 {
      FoldBestSpec(side, vals, n - 1);
    }
  }

  /**
   * `identify_best_move` at node `idx`: the id of the first child with the
   * best value for the side moving next, and that value; `None` when no
   * child beats the starting bound (the source then panics).
   */
  function BestChild(a: Nodes, idx: nat): (r: (Option<nat>, int))
    requires Valid(a) && idx < |a.values|
    ensures r.0.Some? ==> r.0.value in a.children[idx] && r.1 == a.values[r.0.value]
    ensures var side, kids := a.states[idx].Side(), a.children[idx];
      && (r.0.None? ==>
            r.1 == Bound(side) && forall j | 0 <= j < |kids| :: !Better(side, a.values[kids[j]], Bound(side)))
      && (r.0.Some? ==> exists j | 0 <= j < |kids| ::
            && kids[j] == r.0.value
            && Better(side, r.1, Bound(side))
            && (forall j' | 0 <= j' < |kids| :: !Better(side, a.values[kids[j']], r.1))
            && (forall j' | 0 <= j' < j :: Better(side, r.1, a.values[kids[j']])))
  {
    var side := a.states[idx].Side();
    var vals := Gather(a.values, a.children[idx]);
    FoldBestSpec(side, vals, |vals|);
    var (best, bestVal) := FoldBest(side, vals, |vals|);
    if best.Some? then (Some(a.children[idx][best.value]), bestVal) else (None, bestVal)
  }

  /**
   * The first child in `kids` whose state's last move is `m`; `None` when
   * there is none.
   */
  function FindChild(a: Nodes, kids: seq<nat>, m: BoardMove): (r: Option<nat>)
    requires Valid(a) && InRange(a.children, kids)
    ensures r.Some? ==> exists j | 0 <= j < |kids| ::
      kids[j] == r.value && a.states[kids[j]].LastMove() == m
      && forall j' | 0 <= j' < j :: a.states[kids[j']].LastMove() != m
    ensures r.None? ==> forall j | 0 <= j < |kids| :: a.states[kids[j]].LastMove() != m
  {
    if kids == [] then
      None
    else if a.states[kids[0]].LastMove() == m then
      Some(kids[0])
    else
      var r := FindChild(a, kids[1..], m);
      assert forall j | 1 <= j < |kids| :: kids[j] == kids[1..][j - 1];
      r
  }

  /**
   * The driver invariant on the tree's value: a valid tree, the last move
   * and the frontier are nodes of it, the depth stays within the maximum,
   * and no node lies more than `cur` levels below the last move.
   */
  ghost predicate Driver(a: Nodes, last: nat, frontier: seq<nat>, cur: nat, max: nat) {
    && Valid(a) && last < |a.values|
    && (forall k | 0 <= k < |frontier| :: frontier[k] < |a.values|)
    && cur <= max
    && LevelSet(a.children, last, cur + 1) == {}
  }

  /**
   * Expanding the frontier below the maximum depth keeps the invariant with
   * the new ids as frontier and one more level counted.
   */
  lemma ExpandLevelKeeps(a: Nodes, last: nat, frontier: seq<nat>, cur: nat, max: nat, a': Nodes, ids: seq<nat>, cur': nat)
    requires Driver(a, last, frontier, cur, max) && cur < max && cur' == cur + 1
    requires a' == ExpandList(a, frontier) && ids == Range(|a.values|, |a'.values|)
    ensures Driver(a', last, ids, cur', max)
  {
    ExpandListGrows(a, frontier);
    GrowthAddsOneLevel(a.children, a'.children, last, cur + 1);
  }

  /** New node values keep the invariant: it depends on the tree's shape only. */
  lemma ValuesKeep(a: Nodes, a': Nodes, last: nat, frontier: seq<nat>, cur: nat, max: nat)
    requires Driver(a, last, frontier, cur, max)
    requires Valid(a') && a'.children == a.children && |a'.values| == |a.values|
    ensures Driver(a', last, frontier, cur, max)
  {
  }

  /**
   * Moving the last move to one of its children: the depth counted is at
   * least 1 (the node has a child), and the invariant holds for the child
   * with one level fewer and its unexpanded leaves as frontier.
   */
  lemma RerootKeeps(a: Nodes, last: nat, frontier: seq<nat>, cur: nat, max: nat, child: nat)
    requires Driver(a, last, frontier, cur, max) && child in a.children[last]
    ensures cur >= 1 && child < |a.values|
    ensures Driver(a, child, UnexpandedLeafs(a, child), cur - 1, max)
  {
    LevelOneIffChild(a.children, last);
    if cur == 0 {
      assert false;
    }
    LevelSetOfChild(a.children, last, child, cur);
    UnexpandedLeafsSpec(a, child, 0);
  }

  class GameInterface {
    var tree: TreeEvaluator
    var lastMoveIdx: nat
    var expandNewIdx: seq<nat>
    var curExpandedDepth: nat
    var maxExpandedDepth: nat
    const kind: GameKind

    /** The driver invariant on the current tree, with the game's maximum depth. */
    ghost predicate Valid()
      reads this, tree
    {
      && tree.Valid()
      && Driver(tree.Value(), lastMoveIdx, expandNewIdx, curExpandedDepth, maxExpandedDepth)
      && maxExpandedDepth == MaxDepth(kind)
    }

    /** `new()`: a tree of the game's default state alone, nothing expanded. */
    constructor (kind: GameKind)
      ensures Valid() && fresh(tree) && this.kind == kind
      ensures tree.Value() == Init(Default(kind))
      ensures lastMoveIdx == 0 && expandNewIdx == [0] && curExpandedDepth == 0
      ensures maxExpandedDepth == MaxDepth(kind)
    {
      this.kind := kind;
      tree := new TreeEvaluator(Default(kind));
      lastMoveIdx := 0;
      expandNewIdx := [0];
      curExpandedDepth := 0;
      maxExpandedDepth := MaxDepth(kind);
      new;
      LevelOneIffChild(tree.children, 0);
    }

    /**
     * `expand_one_level()`: below the maximum depth, expand the frontier,
     * make the new ids the frontier and count one more level, reporting
     * `NotDone` while still below the maximum; at the maximum, `Done` and
     * no change.
     */
    method ExpandOneLevel() returns (r: ExpandResult)
      requires Valid()
      modifies this, tree
      ensures Valid() && tree == old(tree) && lastMoveIdx == old(lastMoveIdx)
      ensures maxExpandedDepth == old(maxExpandedDepth)
      ensures old(curExpandedDepth) < maxExpandedDepth ==>
        && tree.Value() == ExpandList(old(tree.Value()), old(expandNewIdx))
        && |old(tree.values)| <= |tree.values| && expandNewIdx == Range(|old(tree.values)|, |tree.values|)
        && curExpandedDepth == old(curExpandedDepth) + 1
        && (r == NotDone <==> curExpandedDepth < maxExpandedDepth)
      ensures old(curExpandedDepth) >= maxExpandedDepth ==>
        && r == Done && tree.Value() == old(tree.Value())
        && expandNewIdx == old(expandNewIdx) && curExpandedDepth == old(curExpandedDepth)
    {
      if curExpandedDepth >= maxExpandedDepth {
        return Done;
      }
      ghost var a0, frontier, cur := tree.Value(), expandNewIdx, curExpandedDepth;
      expandNewIdx := tree.ExpandAndGetChildrenIdx(expandNewIdx);
      curExpandedDepth := curExpandedDepth + 1;
      ExpandLevelKeeps(a0, lastMoveIdx, frontier, cur, maxExpandedDepth, tree.Value(), expandNewIdx, curExpandedDepth);
      r := if curExpandedDepth < maxExpandedDepth then NotDone else Done;
    }

    /** `identify_move(m)`: the first direct child of the last move's node reached by `m`. */
    function IdentifyMove(m: BoardMove): (r: Option<nat>)
      requires Valid()
      reads this, tree
      ensures r.Some? ==> r.value in tree.children[lastMoveIdx] && tree.gameStates[r.value].LastMove() == m
      ensures r.None? ==> forall ch | ch in tree.children[lastMoveIdx] :: tree.gameStates[ch].LastMove() != m
    {
      ChildrenInRange(tree.children, lastMoveIdx);
      FindChild(tree.Value(), tree.children[lastMoveIdx], m)
    }

    /**
     * `track_move(m)`: when a direct child is reached by `m`, it becomes the
     * last move, one level fewer counts as expanded and the frontier becomes
     * the unexpanded leaves below it; otherwise nothing changes.
     */
    method TrackMove(m: BoardMove) returns (ok: bool)
      requires Valid()
      modifies this
      ensures Valid() && tree == old(tree) && maxExpandedDepth == old(maxExpandedDepth)
      ensures ok <==> old(IdentifyMove(m)).Some?
      ensures ok ==>
        && lastMoveIdx == old(IdentifyMove(m)).value
        && curExpandedDepth == old(curExpandedDepth) - 1
        && expandNewIdx == UnexpandedLeafs(tree.Value(), lastMoveIdx)
      ensures !ok ==>
        lastMoveIdx == old(lastMoveIdx) && curExpandedDepth == old(curExpandedDepth)
        && expandNewIdx == old(expandNewIdx)
    {
      var found := IdentifyMove(m);
      match found
      case Some(idx) =>
        MoveTo(idx);
        return true;
      case None =>
        return false;
    }

    /**
     * `identify_best_move()` at the last move's node: the first child whose
     * value is strictly best for the side moving next, and that value; `None`
     * when no child beats the starting bound.
     */
    function IdentifyBestMove(): (r: (Option<nat>, int))
      requires Valid()
      reads this, tree
      ensures var side, kids := tree.gameStates[lastMoveIdx].Side(), tree.children[lastMoveIdx];
        && (r.0.None? ==>
              r.1 == Bound(side) && forall j | 0 <= j < |kids| :: !Better(side, tree.values[kids[j]], Bound(side)))
        && (r.0.Some? ==> exists j | 0 <= j < |kids| ::
              && kids[j] == r.0.value && r.1 == tree.values[kids[j]]
              && Better(side, r.1, Bound(side))
              && (forall j' | 0 <= j' < |kids| :: !Better(side, tree.values[kids[j']], r.1))
              && (forall j' | 0 <= j' < j :: Better(side, r.1, tree.values[kids[j']])))
    {
      BestChild(tree.Value(), lastMoveIdx)
    }

    /**
     * `get_best_move()`: evaluate the subtree below the last move by
     * minimax, pick the best child, make it the last move (one level fewer
     * counts as expanded, the frontier becomes its unexpanded leaves) and
     * return its move. `None` stands for the source's panic when no child
     * beats the starting bound.
     */
    method GetBestMove() returns (m: Option<BoardMove>)
      requires Valid()
      modifies this, tree
      ensures Valid() && tree == old(tree) && maxExpandedDepth == old(maxExpandedDepth)
      ensures tree.parent == old(tree.parent) && tree.children == old(tree.children)
      ensures tree.gameStates == old(tree.gameStates)
      ensures tree.values == Evaluated(Minimax, tree.children, tree.Sides(), old(tree.values), old(lastMoveIdx))
      ensures var best := BestChild(tree.Value(), old(lastMoveIdx)).0;
        && (m.None? <==> best.None?)
        && (best.Some? ==>
              && m == Some(tree.gameStates[best.value].LastMove())
              && lastMoveIdx == best.value
              && curExpandedDepth == old(curExpandedDepth) - 1
              && expandNewIdx == UnexpandedLeafs(tree.Value(), lastMoveIdx))
        && (best.None? ==>
              lastMoveIdx == old(lastMoveIdx) && curExpandedDepth == old(curExpandedDepth)
              && expandNewIdx == old(expandNewIdx))
    {
      ghost var a0 := tree.Value();
      tree.EvaluateStates(lastMoveIdx);
      var a1 := tree.Value();
      ValuesKeep(a0, a1, lastMoveIdx, expandNewIdx, curExpandedDepth, maxExpandedDepth);
      var (best, bestValue) := IdentifyBestMove();
      match best
      case None =>
        m := None;
      case Some(bestIdx) =>
        m := Some(tree.gameStates[bestIdx].LastMove());
        MoveTo(bestIdx);
    }

    /**
     * The updates `track_move` and `get_best_move` share: node `idx`, a
     * child of the last move's node, becomes the last move, one level fewer
     * counts as expanded, and the frontier becomes the unexpanded leaves
     * below it.
     */
    method MoveTo(idx: nat)
      requires Valid() && idx in tree.children[lastMoveIdx]
      modifies this
      ensures Valid() && tree == old(tree) && maxExpandedDepth == old(maxExpandedDepth)
      ensures lastMoveIdx == idx && curExpandedDepth == old(curExpandedDepth) - 1
      ensures expandNewIdx == UnexpandedLeafs(tree.Value(), idx)
    {
      RerootKeeps(tree.Value(), lastMoveIdx, expandNewIdx, curExpandedDepth, maxExpandedDepth, idx);
      lastMoveIdx := idx;
      curExpandedDepth := curExpandedDepth - 1;
      expandNewIdx := UnexpandedLeafs(tree.Value(), idx);
    }

    /** `reset()`: back to the state `new()` builds. */
    method Reset()
      modifies this
      ensures Valid() && fresh(tree) && tree.Value() == Init(Default(kind))
      ensures lastMoveIdx == 0 && expandNewIdx == [0] && curExpandedDepth == 0
      ensures maxExpandedDepth == MaxDepth(kind)
    {
      tree := new TreeEvaluator(Default(kind));
      lastMoveIdx := 0;
      expandNewIdx := [0];
      curExpandedDepth := 0;
      maxExpandedDepth := MaxDepth(kind);
      LevelOneIffChild(tree.children, 0);
    }
  }
}
