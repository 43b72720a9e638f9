/**
 * The arena updated in place: `TreeEvaluator` owns the four parallel vectors
 * and grows them by expansion; `BfsIterator` walks them breadth-first; the
 * two `evaluate_states` variants write new values in reverse BFS order. Each
 * method is proved against the arena functions of modules `Arena` and
 * `Evaluation`.
 */
module TreeEvaluation {
  import opened Wrappers
  import opened Cells
  import opened Forest
  import opened Games
  import opened Arena
  import opened Evaluation
  import opened Extrema

  class TreeEvaluator {
    var parent: seq<nat>
    var children: seq<seq<nat>>
    var gameStates: seq<GameState>
    var values: seq<int>

    /** The arena as a value. */
    function Value(): Nodes
      reads this
    {
      Nodes(parent, children, gameStates, values)
    }

    ghost predicate Valid()
      reads this
    {
      Arena.Valid(Value())
    }

    /** The side of every node's state, by id. */
    function Sides(): (sides: seq<Cell>)
      reads this
      ensures |sides| == |gameStates|
    {
      Arena.Sides(Value())
    }

    /**
     * `TreeEvaluator::new(init_state)`. The root must have a side: expanding
     * a state whose last side is `Empty` panics in the source.
     */
    constructor (init: GameState)
      requires init.WellFormed() && init.Side() != Empty
      ensures Valid() && Value() == Init(init)
    {
      parent := [0];
      children := [[]];
      gameStates := [init];
      values := [0];
    }

    /** `expand_state(idx)`, as `Arena.ExpandNode` describes it. */
    method ExpandState(idx: nat) returns (r: Option<seq<nat>>)
      requires Valid() && idx < |values|
      modifies this
      ensures Valid() && Value() == ExpandNode(old(Value()), idx).0 && r == ExpandNode(old(Value()), idx).1
      ensures r.Some? ==> |old(values)| <= |values| && r.value == Range(|old(values)|, |values|)
      ensures r.None? ==> values == old(values)
    {
      ExpandNodeValid(Value(), idx);
      var state := gameStates[idx];
      var posValue := values[idx];
      if posValue == XWinValue || posValue == -XWinValue {
        return None;
      }
      var childStates := Games.Expand(state);
      var len := |parent|;
      var childIdx := seq(|childStates|, j => len + j);
      var childValues := seq(|childStates|, j requires 0 <= j < |childStates| => childStates[j].PositionValue());
      children := children[idx := children[idx] + childIdx];
      parent := parent + seq(|childStates|, _ => idx);
      PushEmptyChildren(|childStates|);
      gameStates := gameStates + childStates;
      values := values + childValues;
      r := Some(childIdx);
      ghost var a := old(Value());
      assert childStates == a.states[idx].Children();
      assert childIdx == Range(len, len + |childStates|);
      assert children == a.children[idx := a.children[idx] + childIdx] + seq(|childStates|, _ => []);
      assert parent == a.parent + seq(|childStates|, _ => idx);
      assert gameStates == a.states + childStates;
      assert values == a.values + seq(|childStates|, j requires 0 <= j < |childStates| => childStates[j].PositionValue());
      assert Value() == ExpandNode(old(Value()), idx).0;
    }

    /** The loop of `expand_state` that gives each of `n` new nodes an empty child list. */
    method PushEmptyChildren(n: nat)
      modifies this
      ensures children == old(children) + seq(n, _ => [])
      ensures parent == old(parent) && gameStates == old(gameStates) && values == old(values)
    {
      for j := 0 to n
        invariant children == old(children) + seq(j, _ => [])
        invariant parent == old(parent) && gameStates == old(gameStates) && values == old(values)
      {
        children := children + [[]];
      }
    }

    /**
     * `expand_and_get_children_idx(ids)`, as `Arena.ExpandList` describes it;
     * the ids returned are exactly the ids of the nodes created, in order.
     */
    method ExpandAndGetChildrenIdx(idxToExpand: seq<nat>) returns (expanded: seq<nat>)
      requires Valid() && forall k | 0 <= k < |idxToExpand| :: idxToExpand[k] < |values|
      modifies this
      ensures Valid() && Value() == ExpandList(old(Value()), idxToExpand)
      ensures |old(values)| <= |values| && expanded == Range(|old(values)|, |values|)
    {
      expanded := [];
      for i := 0 to |idxToExpand|
        invariant Value() == ExpandList(old(Value()), idxToExpand[..i])
        invariant |old(values)| <= |values| && expanded == Range(|old(values)|, |values|)
      {
        ExpandListSnoc(old(Value()), idxToExpand, i);
        expanded := ExpandAndCollect(idxToExpand[i], |old(values)|, expanded);
      }
      assert idxToExpand[..|idxToExpand|] == idxToExpand;
    }

    /**
     * The body of the loop of `expand_and_get_children_idx`: expand node
     * `idx` and append the ids it returns to `expanded`, the ids created
     * since the arena had `lo` nodes.
     */
    method ExpandAndCollect(idx: nat, ghost lo: nat, expanded: seq<nat>) returns (expanded': seq<nat>)
      requires Valid() && idx < |values|
      requires lo <= |values| && expanded == Range(lo, |values|)
      modifies this
      ensures Valid() && Value() == ExpandNode(old(Value()), idx).0
      ensures lo <= |values| && expanded' == Range(lo, |values|)
    {
      ghost var mid := |values|;
      var r := ExpandState(idx);
      expanded' := expanded;
      if r.Some? {
        RangeAppend(lo, mid, |values|);
        expanded' := expanded + r.value;
      }
    }

    /**
     * `expand_states_by(start, levels)`: expand the frontier (at first just
     * `start`) and replace it by the new ids, `levels` times, as
     * `Arena.ExpandLevels` describes it.
     */
    method ExpandStatesBy(startIdx: nat, numLevels: nat)
      requires Valid() && startIdx < |values|
      modifies this
      ensures Valid() && Value() == ExpandLevels(old(Value()), [startIdx], numLevels).0
    {
      var expandNow: seq<nat> := [startIdx];
      for level := 0 to numLevels
        invariant Value() == ExpandLevels(old(Value()), [startIdx], level).0 && expandNow == ExpandLevels(old(Value()), [startIdx], level).1
      {
        expandNow := ExpandAndGetChildrenIdx(expandNow);
      }
    }

    /** `bfs_iter(start)`: an iterator whose queue holds just `start`. */
    method BfsIter(startIdx: nat) returns (it: BfsIterator)
      requires Valid() && startIdx < |values|
      ensures fresh(it) && it.Valid() && it.tree == this && it.buffer == [startIdx]
    {
      it := new BfsIterator(this, startIdx);
    }

    /** `bfs_iter(start).collect()`: the ids in the order the iterator yields them. */
    method BfsOrder(startIdx: nat) returns (order: seq<nat>)
      requires Valid() && startIdx < |values|
      ensures order == Bfs(children, [startIdx])
    {
      var it := BfsIter(startIdx);
      order := [];
      while true
        invariant it.Valid() && it.tree == this
        invariant order + Bfs(children, it.buffer) == Bfs(children, [startIdx])
        decreases SumSizes(children, it.buffer)
      {
        var r := it.Next();
        if r.None? {
          break;
        }
        order := order + [r.value];
      }
    }

    /**
     * `evaluate_states(stop)` of the main engine: walk the BFS order from
     * `stop` backwards and give every non-final node with children the
     * minimum (side X) or maximum (side O) of its children's values.
     */
    method EvaluateStates(stopIdx: nat)
      requires Valid() && stopIdx < |values|
      modifies this
      ensures Valid()
      ensures parent == old(parent) && children == old(children) && gameStates == old(gameStates)
      ensures values == Evaluated(Minimax, children, Sides(), old(values), stopIdx)
    {
      var order := BfsOrder(stopIdx);
      ghost var v0 := values;
      ghost var sides := Sides();
      WalkedNone(Minimax, children, sides, v0, stopIdx);
      for j := |order| downto 0
        invariant parent == old(parent) && children == old(children) && gameStates == old(gameStates)
        invariant WalkedFrom(Minimax, children, sides, v0, stopIdx, j, values)
      {
        var idx := order[j];
        EvalStep(Minimax, children, sides, v0, stopIdx, j, values, Gather(values, children[idx]));
        UpdateMinimax(idx);
      }
      WalkedAll(Minimax, children, sides, v0, stopIdx, values);
      EvaluatedBounded(Minimax, children, sides, v0, stopIdx);
      ValidWithValues(old(Value()), values);
      assert Value() == old(Value()).(values := values);
    }

    /**
     * `evaluate_states(stop)` of the older `refactor` engine: the same walk,
     * but a non-final node with children takes the sum of their values
     * divided by their count, truncated toward zero.
     */
    method EvaluateAverages(stopIdx: nat)
      requires Valid() && stopIdx < |values|
      modifies this
      ensures Valid()
      ensures parent == old(parent) && children == old(children) && gameStates == old(gameStates)
      ensures values == Evaluated(Averaging, children, Sides(), old(values), stopIdx)
    {
      var order := BfsOrder(stopIdx);
      ghost var v0 := values;
      ghost var sides := Sides();
      WalkedNone(Averaging, children, sides, v0, stopIdx);
      for j := |order| downto 0
        invariant parent == old(parent) && children == old(children) && gameStates == old(gameStates)
        invariant WalkedFrom(Averaging, children, sides, v0, stopIdx, j, values)
      {
        var idx := order[j];
        EvalStep(Averaging, children, sides, v0, stopIdx, j, values, Gather(values, children[idx]));
        UpdateAverage(idx);
      }
      WalkedAll(Averaging, children, sides, v0, stopIdx, values);
      EvaluatedBounded(Averaging, children, sides, v0, stopIdx);
      ValidWithValues(old(Value()), values);
      assert Value() == old(Value()).(values := values);
    }

    /**
     * One step of the minimax walk, at node `idx`: a node that is not final
     * and has children takes the minimum (side X) or maximum (side O) of
     * its children's values; every other value stays.
     */
    method UpdateMinimax(idx: nat)
      requires idx < |values| && idx < |gameStates| && idx < |children|
      requires forall k | 0 <= k < |children[idx]| :: children[idx][k] < |values|
      modifies this
      ensures parent == old(parent) && children == old(children) && gameStates == old(gameStates)
      ensures values == old(values)[idx := NodeUpdate(Minimax, old(values)[idx], Gather(old(values), children[idx]), gameStates[idx].Side())]
    {
      var side := gameStates[idx].Side();
      var initValue := values[idx];
      var childVals := Gather(values, children[idx]);
      if initValue == XWinValue || initValue == -XWinValue {
        assert values[idx := initValue] == values;
        return;
      }
      var value := initValue;
      if childVals != [] {
        match side
        case X => value := Min(childVals);
        case O => value := Max(childVals);
        case Empty => value := initValue;
      }
      values := values[idx := value];
    }

    /**
     * One step of the averaging walk, at node `idx`: a node that is not
     * final and has children takes the sum of their values divided by their
     * count, truncated toward zero; every other value stays.
     */
    method UpdateAverage(idx: nat)
      requires idx < |values| && idx < |gameStates| && idx < |children|
      requires forall k | 0 <= k < |children[idx]| :: children[idx][k] < |values|
      modifies this
      ensures parent == old(parent) && children == old(children) && gameStates == old(gameStates)
      ensures values == old(values)[idx := NodeUpdate(Averaging, old(values)[idx], Gather(old(values), children[idx]), gameStates[idx].Side())]
    {
      var initValue := values[idx];
      var childVals := Gather(values, children[idx]);
      if initValue == XWinValue || initValue == -XWinValue {
        assert values[idx := initValue] == values;
        return;
      }
      var value := if childVals == [] then initValue else TruncDiv(Sum(childVals), |childVals|);
      values := values[idx := value];
    }
  }

  /**
   * The breadth-first iterator: a queue of ids over a tree it borrows. Each
   * step pops the front id, appends that node's children at the back and
   * yields the id.
   */
  class BfsIterator {
    const tree: TreeEvaluator
    var buffer: seq<nat>

    ghost predicate Valid()
      reads this, tree
    {
      tree.Valid() && InRange(tree.children, buffer)
    }

    constructor (tree: TreeEvaluator, startIdx: nat)
      requires tree.Valid() && startIdx < |tree.values|
      ensures Valid() && this.tree == tree && buffer == [startIdx]
    {
      this.tree := tree;
      buffer := [startIdx];
    }

    /**
     * `next()`: `None` once the queue is empty; otherwise the front id, with
     * its children queued. What is still to come is always `Bfs` of the
     * queue, so the iterator yields exactly `Bfs` of its first queue.
     */
    method Next() returns (r: Option<nat>)
      requires Valid()
      modifies this
      ensures Valid()
      ensures old(buffer) == [] ==> r == None && buffer == []
      ensures old(buffer) != [] ==>
        r == Some(old(buffer)[0]) && buffer == old(buffer)[1..] + tree.children[old(buffer)[0]]
      ensures old(Bfs(tree.children, buffer)) ==
        (if r.Some? then [r.value] + Bfs(tree.children, buffer) else [])
      ensures r.Some? ==> SumSizes(tree.children, buffer) < old(SumSizes(tree.children, buffer))
    {
      if buffer == [] {
        return None;
      }
      var idx := buffer[0];
      PopShrinks(tree.children, buffer);
      buffer := buffer[1..] + tree.children[idx];
      r := Some(idx);
    }
  }
}
