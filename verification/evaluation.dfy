/**
 * How `evaluate_states` revalues the subtree below a node. Visiting the BFS
 * order backwards, every node that is not final (its value is not a win)
 * and has children takes a value computed from its children's new values:
 * under the minimax policy of the main engine the minimum when X made the
 * node's last move (O moves next and picks X's worst case) and the maximum
 * when O did; under the averaging policy of the older `refactor` engine
 * their sum divided by their count, truncated toward zero as Rust's `i32`
 * division does. `Eval` is that value for one node, `Evaluated` the whole
 * value vector afterwards.
 */
module Evaluation {
  import opened Cells
  import opened Forest
  import opened Extrema

  datatype Policy = Minimax | Averaging

  /** `iter().sum()`. */
  function Sum(s: seq<int>): int {
    if s == [] then 0 else s[0] + Sum(s[1..])
  }

  /** Rust's `i32 /`: the quotient truncated toward zero. */
  function TruncDiv(a: int, b: int): (q: int)
    requires b > 0
    ensures a >= 0 ==> q * b <= a < q * b + b
    ensures a < 0 ==> q * b - b < a <= q * b
  {
    if a >= 0 then a / b else -((-a) / b)
  }

  /**
   * The new value of one node: a win stays, a node without children keeps
   * its value, and otherwise the policy combines the children's values. A
   * node whose side is `Empty` keeps its value under minimax (the source
   * logs the unexpected state).
   */
  function NodeUpdate(policy: Policy, init: int, childVals: seq<int>, side: Cell): int {
    if IsWin(init) || childVals == [] then
      init
    else
      match policy
      case Minimax =>
        (match side
         case X => Min(childVals)
         case O => Max(childVals)
         case Empty => init)
      case Averaging => TruncDiv(Sum(childVals), |childVals|)
  }

  /** The values `v` holds for the ids `kids`, in order. */
  function Gather(v: seq<int>, kids: seq<nat>): (cv: seq<int>)
    requires forall k | 0 <= k < |kids| :: kids[k] < |v|
    ensures |cv| == |kids| && forall k | 0 <= k < |kids| :: cv[k] == v[kids[k]]
  {
    seq(|kids|, k requires 0 <= k < |kids| => v[kids[k]])
  }

  /** A node's last side per id, and the value vector, fit the child lists. */
  predicate Fits(c: seq<seq<nat>>, sides: seq<Cell>, v: seq<int>) {
    WellFormed(c) && |sides| == |c| && |v| == |c|
  }

  /** The value of node `n` once its whole subtree has been evaluated bottom-up. */
  function Eval(policy: Policy, c: seq<seq<nat>>, sides: seq<Cell>, v: seq<int>, n: nat): int
    requires Fits(c, sides, v) && n < |c|
    decreases |c| - n, 1
  {
    NodeUpdate(policy, v[n], ChildEvals(policy, c, sides, v, n), sides[n])
  }

  /** The evaluated values of the children of `n`, in child-list order. */
  function ChildEvals(policy: Policy, c: seq<seq<nat>>, sides: seq<Cell>, v: seq<int>, n: nat): (cv: seq<int>)
    requires Fits(c, sides, v) && n < |c|
    ensures |cv| == |c[n]|
    decreases |c| - n, 0
  {
    seq(|c[n]|, k requires 0 <= k < |c[n]| => Eval(policy, c, sides, v, c[n][k]))
  }

  /** `evaluate_states(stop)`: nodes BFS reaches from `stop` get their evaluated value, the rest keep theirs. */
  function Evaluated(policy: Policy, c: seq<seq<nat>>, sides: seq<Cell>, v: seq<int>, stop: nat): (v': seq<int>)
    requires Fits(c, sides, v) && stop < |c|
    ensures |v'| == |v|
  {
    var order := Bfs(c, [stop]);
    seq(|v|, n requires 0 <= n < |v| => if n in order then Eval(policy, c, sides, v, n) else v[n])
  }

  /** Updating twice with the same children's values gives the same as updating once. */
  lemma NodeUpdateIdempotent(policy: Policy, init: int, childVals: seq<int>, side: Cell)
    ensures NodeUpdate(policy, NodeUpdate(policy, init, childVals, side), childVals, side)
         == NodeUpdate(policy, init, childVals, side)
  {
  }

  /**
   * Under minimax, a node that is not final and has children takes the
   * smallest of its children's values when its side is X and the largest
   * when its side is O; a final node or a leaf keeps its value.
   */
  lemma MinimaxUpdateSpec(init: int, childVals: seq<int>, side: Cell)
    ensures var r := NodeUpdate(Minimax, init, childVals, side);
      && (IsWin(init) || childVals == [] || side == Empty ==> r == init)
      && (!IsWin(init) && childVals != [] && side == X ==>
            r in childVals && forall k | 0 <= k < |childVals| :: r <= childVals[k])
      && (!IsWin(init) && childVals != [] && side == O ==>
            r in childVals && forall k | 0 <= k < |childVals| :: childVals[k] <= r)
  {
  }

  lemma {:induction false} SumBounds(s: seq<int>, lo: int, hi: int)
    requires forall k | 0 <= k < |s| :: lo <= s[k] <= hi
    ensures |s| * lo <= Sum(s) <= |s| * hi
  {
    if s != [] {
      SumBounds(s[1..], lo, hi);
    }
  }

  lemma MulLess(b: int, x: int, y: int)
    requires b > 0 && b * x < b * y
    ensures x < y
  {
  }

  /** A truncated quotient of a value between `b * lo` and `b * hi` lies between `lo` and `hi`. */
  lemma TruncDivBounds(a: int, b: int, lo: int, hi: int)
    requires b > 0 && b * lo <= a <= b * hi
    ensures lo <= TruncDiv(a, b) <= hi
  {
    var q := TruncDiv(a, b);
    if a >= 0 {
      MulLess(b, lo, q + 1);
      if q > hi {
        MulLess(b, hi, q);
      }
    } else {
      MulLess(b, q - 1, hi);
      if q < lo {
        MulLess(b, q, lo);
      }
    }
  }

  /**
   * Under averaging, a node that is not final and has children takes the
   * truncated mean of their values, which lies between their smallest and
   * their largest value.
   */
  lemma AveragingUpdateSpec(init: int, childVals: seq<int>, side: Cell)
    ensures var r := NodeUpdate(Averaging, init, childVals, side);
      && (IsWin(init) || childVals == [] ==> r == init)
      && (!IsWin(init) && childVals != [] ==>
            && r == TruncDiv(Sum(childVals), |childVals|)
            && Min(childVals) <= r <= Max(childVals))
  {
    if !IsWin(init) && childVals != [] {
      SumBounds(childVals, Min(childVals), Max(childVals));
      TruncDivBounds(Sum(childVals), |childVals|, Min(childVals), Max(childVals));
    }
  }

  /** A value between the two win values stays between them after an update. */
  lemma NodeUpdateBounded(policy: Policy, init: int, childVals: seq<int>, side: Cell)
    requires -XWinValue <= init <= XWinValue
    requires forall k | 0 <= k < |childVals| :: -XWinValue <= childVals[k] <= XWinValue
    ensures -XWinValue <= NodeUpdate(policy, init, childVals, side) <= XWinValue
  {
    AveragingUpdateSpec(init, childVals, side);
  }

  /** Evaluation keeps every value between the two win values. */
  lemma {:induction false} EvalBounded(policy: Policy, c: seq<seq<nat>>, sides: seq<Cell>, v: seq<int>, n: nat)
    requires Fits(c, sides, v) && n < |c|
    requires forall i | 0 <= i < |v| :: -XWinValue <= v[i] <= XWinValue
    ensures -XWinValue <= Eval(policy, c, sides, v, n) <= XWinValue
    decreases |c| - n
  {
    var cv := ChildEvals(policy, c, sides, v, n);
    forall k | 0 <= k < |cv| ensures -XWinValue <= cv[k] <= XWinValue {
      EvalBounded(policy, c, sides, v, c[n][k]);
    }
    NodeUpdateBounded(policy, v[n], cv, sides[n]);
  }

  /** The whole evaluated vector stays between the two win values. */
  lemma EvaluatedBounded(policy: Policy, c: seq<seq<nat>>, sides: seq<Cell>, v: seq<int>, stop: nat)
    requires Fits(c, sides, v) && stop < |c|
    requires forall i | 0 <= i < |v| :: -XWinValue <= v[i] <= XWinValue
    ensures forall i | 0 <= i < |v| :: -XWinValue <= Evaluated(policy, c, sides, v, stop)[i] <= XWinValue
  {
    forall i | 0 <= i < |v| ensures -XWinValue <= Evaluated(policy, c, sides, v, stop)[i] <= XWinValue {
      EvalBounded(policy, c, sides, v, i);
    }
  }

  /**
   * `evaluate_states(stop)` changes only the subtree below `stop`; there a
   * node's new value is its update from its children's new values, so a
   * final node or a leaf keeps its value.
   */
  lemma EvaluatedSpec(policy: Policy, c: seq<seq<nat>>, sides: seq<Cell>, v: seq<int>, stop: nat, n: nat)
    requires Fits(c, sides, v) && stop < |c| && n < |c|
    ensures var v' := Evaluated(policy, c, sides, v, stop);
      && (!Reachable(c, stop, n) ==> v'[n] == v[n])
      && (Reachable(c, stop, n) ==>
            v'[n] == NodeUpdate(policy, v[n], seq(|c[n]|, k requires 0 <= k < |c[n]| => v'[c[n][k]]), sides[n]))
      && (IsWin(v[n]) || c[n] == [] ==> v'[n] == v[n])
  {
    var v' := Evaluated(policy, c, sides, v, stop);
    BfsIsSubtree(c, stop, n);
    if Reachable(c, stop, n) {
      forall k | 0 <= k < |c[n]| ensures v'[c[n][k]] == Eval(policy, c, sides, v, c[n][k]) {
        ReachableChild(c, stop, n, c[n][k]);
        BfsIsSubtree(c, stop, c[n][k]);
      }
      assert seq(|c[n]|, k requires 0 <= k < |c[n]| => v'[c[n][k]]) == ChildEvals(policy, c, sides, v, n);
    }
  }

  /** Evaluating from already evaluated values changes nothing below `stop`. */
  lemma {:induction false} EvalOfEvaluated(policy: Policy, c: seq<seq<nat>>, sides: seq<Cell>, v: seq<int>, stop: nat, n: nat)
    requires Fits(c, sides, v) && stop < |c| && n < |c| && Reachable(c, stop, n)
    ensures Eval(policy, c, sides, Evaluated(policy, c, sides, v, stop), n) == Eval(policy, c, sides, v, n)
    decreases |c| - n
  {
    var v' := Evaluated(policy, c, sides, v, stop);
    forall k | 0 <= k < |c[n]|
      ensures ChildEvals(policy, c, sides, v', n)[k] == ChildEvals(policy, c, sides, v, n)[k]
    {
      ReachableChild(c, stop, n, c[n][k]);
      EvalOfEvaluated(policy, c, sides, v, stop, c[n][k]);
    }
    assert ChildEvals(policy, c, sides, v', n) == ChildEvals(policy, c, sides, v, n);
    BfsIsSubtree(c, stop, n);
    NodeUpdateIdempotent(policy, v[n], ChildEvals(policy, c, sides, v, n), sides[n]);
  }

  /**
   * After the backward walk has visited the BFS order from position `j` on,
   * the nodes visited hold their evaluated values and the others their
   * original ones.
   */
  predicate WalkedFrom(policy: Policy, c: seq<seq<nat>>, sides: seq<Cell>, v0: seq<int>, stop: nat, j: nat, v: seq<int>)
    requires Fits(c, sides, v0) && stop < |c| && j <= |Bfs(c, [stop])|
  {
    && |v| == |v0|
    && forall n | 0 <= n < |v0| ::
         v[n] == if n in Bfs(c, [stop])[j..] then Eval(policy, c, sides, v0, n) else v0[n]
  }

  /**
   * One step of the backward walk: updating the node at position `j` from
   * the current values `cv` of its children gives it its evaluated value.
   * Its children come after it in the order, so they are already
   * evaluated; a node that occurs twice is updated again to the same value.
   */
  lemma EvalStep(policy: Policy, c: seq<seq<nat>>, sides: seq<Cell>, v0: seq<int>, stop: nat, j: nat, v: seq<int>, cv: seq<int>)
    requires Fits(c, sides, v0) && stop < |c| && j < |Bfs(c, [stop])|
    requires WalkedFrom(policy, c, sides, v0, stop, j + 1, v)
    requires var idx := Bfs(c, [stop])[j];
      |cv| == |c[idx]| && forall k | 0 <= k < |cv| :: cv[k] == v[c[idx][k]]
    ensures var idx := Bfs(c, [stop])[j];
      WalkedFrom(policy, c, sides, v0, stop, j, v[idx := NodeUpdate(policy, v[idx], cv, sides[idx])])
  {
    var order := Bfs(c, [stop]);
    var idx := order[j];
    BfsChildrenAfter(c, [stop], j);
    forall k | 0 <= k < |c[idx]| ensures cv[k] == ChildEvals(policy, c, sides, v0, idx)[k] {
      assert c[idx][k] in c[idx];
    }
    assert cv == ChildEvals(policy, c, sides, v0, idx);
    NodeUpdateIdempotent(policy, v0[idx], cv, sides[idx]);
    assert order[j..] == [idx] + order[j + 1..];
  }

  /** Once the walk has visited the whole order, the values are the evaluated ones. */
  lemma WalkedAll(policy: Policy, c: seq<seq<nat>>, sides: seq<Cell>, v0: seq<int>, stop: nat, v: seq<int>)
    requires Fits(c, sides, v0) && stop < |c| && WalkedFrom(policy, c, sides, v0, stop, 0, v)
    ensures v == Evaluated(policy, c, sides, v0, stop)
  {
    assert Bfs(c, [stop])[0..] == Bfs(c, [stop]);
  }

  /** Before the walk starts, the values are the original ones. */
  lemma WalkedNone(policy: Policy, c: seq<seq<nat>>, sides: seq<Cell>, v0: seq<int>, stop: nat)
    requires Fits(c, sides, v0) && stop < |c|
    ensures WalkedFrom(policy, c, sides, v0, stop, |Bfs(c, [stop])|, v0)
  {
  }

  /** Re-running `evaluate_states(stop)` on an unchanged tree changes nothing. */
  lemma EvaluateTwice(policy: Policy, c: seq<seq<nat>>, sides: seq<Cell>, v: seq<int>, stop: nat)
    requires Fits(c, sides, v) && stop < |c|
    ensures Evaluated(policy, c, sides, Evaluated(policy, c, sides, v, stop), stop)
         == Evaluated(policy, c, sides, v, stop)
  {
    var v' := Evaluated(policy, c, sides, v, stop);
    forall n | 0 <= n < |v|
      ensures Evaluated(policy, c, sides, v', stop)[n] == v'[n]
    {
      BfsIsSubtree(c, stop, n);
      if Reachable(c, stop, n) {
        EvalOfEvaluated(policy, c, sides, v, stop, n);
      }
    }
  }
}
