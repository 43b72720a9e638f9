/**
 * The evaluation tree as the arena stores it: four parallel vectors indexed
 * by node id (`parent`, `children`, game states and values). This module
 * describes the arena as a value and what expansion does to it; the class
 * `TreeEvaluator` updates the same vectors in place and is proved against
 * these functions.
 */
module Arena {
  import opened Wrappers
  import opened Cells
  import opened Forest
  import opened Games
  import T3Game
  import RefactorT3Game

  datatype Nodes = Nodes(parent: seq<nat>, children: seq<seq<nat>>, states: seq<GameState>, values: seq<int>)

  /**
   * The arena invariant: the four vectors have one entry per node and there
   * is a root; every node's parent comes before it; every child comes after
   * its parent and records it as its parent; every state is well formed and
   * has a side (so it can be expanded); every value lies between the two
   * win values.
   */
  predicate Valid(a: Nodes) {
    var ok :=
    && |a.parent| == |a.children| == |a.states| == |a.values| >= 1
    && a.parent[0] == 0
    && (forall i | 0 < i < |a.parent| :: a.parent[i] < i)
    && WellFormed(a.children)
    && (forall i, j | 0 <= i < |a.children| && 0 <= j < |a.children[i]| :: a.parent[a.children[i][j]] == i)
    && (forall i | 0 <= i < |a.states| :: a.states[i].WellFormed() && a.states[i].Side() != Empty)
    && (forall i | 0 <= i < |a.values| :: -XWinValue <= a.values[i] <= XWinValue);
    ok
  }

  /** `TreeEvaluator::new(init_state)`: a single root of value 0 that is its own parent. */
  function Init(s: GameState): (a: Nodes)
    requires s.WellFormed() && s.Side() != Empty
    ensures Valid(a) && a.parent == [0] && a.children == [[]] && a.states == [s] && a.values == [0]
  {
    Nodes([0], [[]], [s], [0])
  }

  /** Replacing the values by others between the two win values keeps the arena valid. */
  lemma ValidWithValues(a: Nodes, v: seq<int>)
    requires Valid(a) && |v| == |a.values|
    requires forall i | 0 <= i < |v| :: -XWinValue <= v[i] <= XWinValue
    ensures Valid(a.(values := v))
  {
  }

  /** The ids `lo`, `lo + 1`, …, `hi - 1`. */
  function Range(lo: nat, hi: nat): (ids: seq<nat>)
    requires lo <= hi
    ensures |ids| == hi - lo && forall j | 0 <= j < hi - lo :: ids[j] == lo + j
  {
    seq(hi - lo, j => lo + j)
  }

  /** Consecutive ranges concatenate into one. */
  lemma RangeAppend(lo: nat, mid: nat, hi: nat)
    requires lo <= mid <= hi
    ensures Range(lo, mid) + Range(mid, hi) == Range(lo, hi)
  {
    var ids := Range(lo, mid) + Range(mid, hi);
    assert forall j | 0 <= j < hi - lo :: ids[j] == lo + j;
  }

  /** A prefix of a prefix is a prefix. */
  lemma PrefixOfPrefix<T>(x: seq<T>, y: seq<T>, z: seq<T>)
    requires |y| <= |x| && |z| <= |y| && x[..|y|] == y && y[..|z|] == z
    ensures x[..|z|] == z
  {
    assert x[..|z|] == x[..|y|][..|z|];
  }

  /**
   * `expand_state(idx)`: a node whose value is a win is final and is left
   * alone (`None`). Otherwise its state's children get the next free ids,
   * which are appended to the node's child list; they record `idx` as their
   * parent, have no children yet and start at their position value.
   */
  function ExpandNode(a: Nodes, idx: nat): (Nodes, Option<seq<nat>>)
    requires Valid(a) && idx < |a.values|
  {
    if IsWin(a.values[idx]) then
      (a, None)
    else
      var kids := a.states[idx].Children();
      var ids := Range(|a.values|, |a.values| + |kids|);
      (Nodes(a.parent + seq(|kids|, _ => idx),
             a.children[idx := a.children[idx] + ids] + seq(|kids|, _ => []),
             a.states + kids,
             a.values + seq(|kids|, j requires 0 <= j < |kids| => kids[j].PositionValue())),
       Some(ids))
  }

  /**
   * `a'` is `a` with the states `kids` appended as children of `idx`: the
   * new nodes get the next free ids, in order, with `idx` as parent, no
   * children and their position values; every older entry is unchanged
   * except the child list of `idx`, which is extended by the new ids.
   */
  ghost predicate Appended(a: Nodes, idx: nat, kids: seq<GameState>, a': Nodes)
    requires idx < |a.children|
    requires forall k | k in kids :: k.WellFormed()
  {
    var n := |a.values|;
    && |a'.parent| == |a'.children| == |a'.states| == |a'.values| == n + |kids|
    && a'.parent[..n] == a.parent && a'.states[..n] == a.states && a'.values[..n] == a.values
    && a'.children[..n] == a.children[idx := a.children[idx] + Range(n, n + |kids|)]
    && (forall i | n <= i < n + |kids| ::
          a'.parent[i] == idx && a'.children[i] == [] && a'.states[i] == kids[i - n]
          && a'.values[i] == kids[i - n].PositionValue())
  }

  /**
   * What `expand_state` does: a node whose value is a win changes nothing
   * and yields `None`; any other node yields the fresh consecutive ids
   * `len .. len + n` of its `n` child states, appended as `Appended` says.
   * Either way the arena stays valid.
   */
  lemma ExpandNodeSpec(a: Nodes, idx: nat)
    requires Valid(a) && idx < |a.values|
    ensures Valid(ExpandNode(a, idx).0)
    ensures IsWin(a.values[idx]) ==> ExpandNode(a, idx) == (a, None)
    ensures !IsWin(a.values[idx]) ==>
      && ExpandNode(a, idx).1 == Some(Range(|a.values|, |a.values| + |a.states[idx].Children()|))
      && Appended(a, idx, a.states[idx].Children(), ExpandNode(a, idx).0)
  {
    if !IsWin(a.values[idx]) {
      ExpandedIsAppended(a, idx);
      ExpandedIsValid(a, idx);
    }
  }

  /**
   * The ids `expand_state` returns are the fresh ids `len ..` of the nodes it
   * appends; a final node is left alone.
   */
  lemma ExpandNodeIds(a: Nodes, idx: nat)
    requires Valid(a) && idx < |a.values|
    ensures var (a', o) := ExpandNode(a, idx);
      && (o.Some? ==> |a.values| <= |a'.values| && o.value == Range(|a.values|, |a'.values|))
      && (o.None? ==> a' == a)
  {
  }

  /** The arena after expanding a non-final node is `a` with its children appended. */
  lemma ExpandedIsAppended(a: Nodes, idx: nat)
    requires Valid(a) && idx < |a.values| && !IsWin(a.values[idx])
    ensures Appended(a, idx, a.states[idx].Children(), ExpandNode(a, idx).0)
  {
    AppendChildren(a, idx, a.states[idx].Children());
  }

  /** The arena `ExpandNode` builds from `a` and the states `kids` is `a` with `kids` appended. */
  lemma AppendChildren(a: Nodes, idx: nat, kids: seq<GameState>)
    requires idx < |a.children| && |a.parent| == |a.children| == |a.states| == |a.values|
    requires forall k | k in kids :: k.WellFormed()
    ensures var n := |a.values|;
      Appended(a, idx, kids,
        Nodes(a.parent + seq(|kids|, _ => idx),
              a.children[idx := a.children[idx] + Range(n, n + |kids|)] + seq(|kids|, _ => []),
              a.states + kids,
              a.values + seq(|kids|, j requires 0 <= j < |kids| => kids[j].PositionValue())))
  {
    var n := |a.values|;
    var c := a.children[idx := a.children[idx] + Range(n, n + |kids|)];
    assert (c + seq(|kids|, _ => []))[..n] == c;
    assert (a.parent + seq(|kids|, _ => idx))[..n] == a.parent;
    assert (a.states + kids)[..n] == a.states;
    assert (a.values + seq(|kids|, j requires 0 <= j < |kids| => kids[j].PositionValue()))[..n] == a.values;
  }

  /** Expanding a node keeps the arena valid and never shrinks it. */
  lemma ExpandNodeValid(a: Nodes, idx: nat)
    requires Valid(a) && idx < |a.values|
    ensures Valid(ExpandNode(a, idx).0) && |a.values| <= |ExpandNode(a, idx).0.values|
  {
    if !IsWin(a.values[idx]) {
      ExpandedIsValid(a, idx);
    }
  }

  /** The arena after expanding a non-final node is valid. */
  lemma ExpandedIsValid(a: Nodes, idx: nat)
    requires Valid(a) && idx < |a.values| && !IsWin(a.values[idx])
    ensures Valid(ExpandNode(a, idx).0)
  {
    var a' := ExpandNode(a, idx).0;
    var kids, n := a.states[idx].Children(), |a.values|;
    var ids := Range(n, n + |kids|);
    assert WellFormed(a'.children) by {
      forall i, j | 0 <= i < |a'.children| && 0 <= j < |a'.children[i]|
        ensures i < a'.children[i][j] < |a'.children|
      {
        if i < n && i != idx {
          assert a'.children[i] == a.children[i];
        } else if i == idx {
          if j >= |a.children[idx]| {
            assert a'.children[i][j] == ids[j - |a.children[idx]|];
          }
        }
      }
    }
    forall i, j | 0 <= i < |a'.children| && 0 <= j < |a'.children[i]|
      ensures a'.parent[a'.children[i][j]] == i
    {
      if i < n && i != idx {
        assert a'.children[i] == a.children[i];
      } else if i == idx {
        if j >= |a.children[idx]| {
          assert a'.children[i][j] == ids[j - |a.children[idx]|];
        }
      }
    }
    forall i | 0 <= i < |a'.states| ensures a'.states[i].WellFormed() && a'.states[i].Side() != Empty {
      if i >= n {
        assert a'.states[i] == kids[i - n] && kids[i - n] in kids;
      }
    }
    forall i | 0 <= i < |a'.values| ensures -XWinValue <= a'.values[i] <= XWinValue {
      if i >= n {
        assert kids[i - n] in kids;
      }
    }
  }

  /**
   * Expanding an old node `idx` of `c1` keeps `c1` a growth of `c0` by new
   * leaves: the node only gains ids beyond `c1`, which have no children.
   */
  lemma GrowsThroughExpansion(c0: seq<seq<nat>>, c1: seq<seq<nat>>, c2: seq<seq<nat>>, idx: nat, ids: seq<nat>)
    requires GrowsByLeaves(c0, c1) && idx < |c0| && |c1| <= |c2|
    requires c2[..|c1|] == c1[idx := c1[idx] + ids]
    requires forall j | 0 <= j < |ids| :: |c1| <= ids[j]
    requires forall r | |c1| <= r < |c2| :: c2[r] == []
    ensures GrowsByLeaves(c0, c2)
  {
    forall r, x | 0 <= r < |c0| && x in c2[r] ensures x in c0[r] || |c0| <= x {
      assert c2[r] == c2[..|c1|][r];
      if r == idx && x !in c1[r] {
        assert x in ids;
      }
    }
    forall r | |c0| <= r < |c2| ensures c2[r] == [] {
      if r < |c1| {
        assert c2[r] == c2[..|c1|][r];
      }
    }
  }

  /**
   * The arena after `expand_and_get_children_idx(ids)`: the nodes of `ids`
   * expanded in order. Every id in `ids` must be a node of the arena (the
   * source panics otherwise). The ids the source returns are the fresh ids
   * `len ..` of the expanded arena, as `ExpandNodeIds` shows for one node.
   */
  function ExpandList(a: Nodes, ids: seq<nat>): (r: Nodes)
    requires Valid(a) && forall k | 0 <= k < |ids| :: ids[k] < |a.values|
    ensures Valid(r) && |a.values| <= |r.values|
    decreases |ids|
  {
    if ids == [] then
      a
    else
      var a1 := ExpandList(a, ids[..|ids| - 1]);
      ExpandNodeValid(a1, ids[|ids| - 1]);
      ExpandNode(a1, ids[|ids| - 1]).0
  }

  /**
   * Expanding the first `i + 1` ids expands the arena the first `i` produced
   * by one more node.
   */
  lemma ExpandListSnoc(a: Nodes, ids: seq<nat>, i: nat)
    requires Valid(a) && forall k | 0 <= k < |ids| :: ids[k] < |a.values|
    requires i < |ids|
    ensures ids[i] < |ExpandList(a, ids[..i]).values|
    ensures ExpandList(a, ids[..i + 1]) == ExpandNode(ExpandList(a, ids[..i]), ids[i]).0
  {
    assert ids[..i + 1][..i] == ids[..i];
  }

  /**
   * What `expand_and_get_children_idx` leaves alone: the parents, states and
   * values of older nodes are unchanged.
   */
  lemma {:induction false} ExpandListKeeps(a: Nodes, ids: seq<nat>)
    requires Valid(a) && forall k | 0 <= k < |ids| :: ids[k] < |a.values|
    ensures var r := ExpandList(a, ids);
      && r.parent[..|a.values|] == a.parent && r.states[..|a.values|] == a.states
      && r.values[..|a.values|] == a.values
    decreases |ids|
  {
    if ids != [] {
      var prefix := ids[..|ids| - 1];
      ExpandListKeeps(a, prefix);
      var a1 := ExpandList(a, prefix);
      var idx := ids[|ids| - 1];
      ExpandNodeSpec(a1, idx);
      if !IsWin(a1.values[idx]) {
        var a2 := ExpandNode(a1, idx).0;
        PrefixOfPrefix(a2.parent, a1.parent, a.parent);
        PrefixOfPrefix(a2.states, a1.states, a.states);
        PrefixOfPrefix(a2.values, a1.values, a.values);
      }
    }
  }

  /**
   * `expand_and_get_children_idx` only gives older nodes new leaves as
   * children: every child an older node gains is a new node, and new nodes
   * have no children.
   */
  lemma {:induction false} ExpandListGrows(a: Nodes, ids: seq<nat>)
    requires Valid(a) && forall k | 0 <= k < |ids| :: ids[k] < |a.values|
    ensures GrowsByLeaves(a.children, ExpandList(a, ids).children)
    decreases |ids|
  {
    if ids != [] {
      var prefix := ids[..|ids| - 1];
      ExpandListGrows(a, prefix);
      var a1 := ExpandList(a, prefix);
      var idx := ids[|ids| - 1];
      ExpandNodeSpec(a1, idx);
      if !IsWin(a1.values[idx]) {
        var a2 := ExpandNode(a1, idx).0;
        var kids := a1.states[idx].Children();
        GrowsThroughExpansion(a.children, a1.children, a2.children, idx, Range(|a1.values|, |a1.values| + |kids|));
      }
    }
  }

  /**
   * `expand_states_by(start, levels)`: expand `frontier`, then the ids that
   * expansion created, and so on, `levels` times. The result is the arena
   * and the last frontier, which holds only ids of the arena.
   */
  function ExpandLevels(a: Nodes, frontier: seq<nat>, levels: nat): (r: (Nodes, seq<nat>))
    requires Valid(a) && forall k | 0 <= k < |frontier| :: frontier[k] < |a.values|
    ensures Valid(r.0) && |a.values| <= |r.0.values| && forall k | 0 <= k < |r.1| :: r.1[k] < |r.0.values|
    decreases levels
  {
    if levels == 0 then
      (a, frontier)
    else
      var (a1, f1) := ExpandLevels(a, frontier, levels - 1);
      var a2 := ExpandList(a1, f1);
      (a2, Range(|a1.values|, |a2.values|))
  }

  /** A level that starts from an empty frontier changes nothing. */
  lemma ExpandLevelsIdle(a: Nodes, frontier: seq<nat>, n: nat)
    requires Valid(a) && forall i | 0 <= i < |frontier| :: frontier[i] < |a.values|
    requires ExpandLevels(a, frontier, n).1 == []
    ensures ExpandLevels(a, frontier, n + 1) == ExpandLevels(a, frontier, n)
  {
    var r := ExpandLevels(a, frontier, n);
    assert ExpandList(r.0, []) == r.0;
    assert Range(|r.0.values|, |r.0.values|) == [];
  }

  /**
   * Once a level leaves no frontier, further levels change nothing: the
   * source's `expand_states_by` loop then expands empty lists.
   */
  lemma {:induction false} ExpandLevelsSettled(a: Nodes, frontier: seq<nat>, k: nat, levels: nat)
    requires Valid(a) && forall i | 0 <= i < |frontier| :: frontier[i] < |a.values|
    requires k <= levels && ExpandLevels(a, frontier, k).1 == []
    ensures ExpandLevels(a, frontier, levels) == ExpandLevels(a, frontier, k)
    decreases levels - k
  {
    if levels > k {
      ExpandLevelsIdle(a, frontier, k);
      ExpandLevelsSettled(a, frontier, k + 1, levels);
    }
  }

  /** The side of every node's state, by id. */
  function Sides(a: Nodes): (sides: seq<Cell>)
    ensures |sides| == |a.states| && forall i | 0 <= i < |a.states| :: sides[i] == a.states[i].Side()
  {
    seq(|a.states|, i requires 0 <= i < |a.states| => a.states[i].Side())
  }

  /** A node with no children whose value is not a win: expansion has not reached it yet. */
  predicate Unexpanded(a: Nodes, x: nat)
    requires Valid(a) && x < |a.values|
  {
    a.children[x] == [] && !IsWin(a.values[x])
  }

  /** The unexpanded nodes of `order`, in order. */
  function LeafFilter(a: Nodes, order: seq<nat>): (leaves: seq<nat>)
    requires Valid(a) && InRange(a.children, order)
  {
    if order == [] then
      []
    else
      (if Unexpanded(a, order[0]) then [order[0]] else []) + LeafFilter(a, order[1..])
  }

  /** `get_unexpanded_leafs(start)`: the unexpanded nodes of the subtree below `start`, in BFS order. */
  function UnexpandedLeafs(a: Nodes, start: nat): seq<nat>
    requires Valid(a) && start < |a.values|
  {
    LeafFilter(a, Bfs(a.children, [start]))
  }

  /** The filter keeps exactly the unexpanded ids of `order` and no others. */
  lemma {:induction false} LeafFilterSpec(a: Nodes, order: seq<nat>, x: nat)
    requires Valid(a) && InRange(a.children, order)
    ensures InRange(a.children, LeafFilter(a, order))
    ensures x in LeafFilter(a, order) <==> x in order && Unexpanded(a, x)
    decreases |order|
  {
    if order != [] {
      LeafFilterSpec(a, order[1..], x);
      assert x in order <==> x == order[0] || x in order[1..];
    }
  }

  /**
   * The filter keeps the order of its input: filtering two parts one after
   * the other gives the filtered parts one after the other.
   */
  lemma {:induction false} LeafFilterAppend(a: Nodes, p: seq<nat>, q: seq<nat>)
    requires Valid(a) && InRange(a.children, p) && InRange(a.children, q)
    ensures InRange(a.children, p + q)
    ensures LeafFilter(a, p + q) == LeafFilter(a, p) + LeafFilter(a, q)
    decreases |p|
  {
    if p == [] {
      assert p + q == q;
    } else {
      assert (p + q)[0] == p[0] && (p + q)[1..] == p[1..] + q;
      LeafFilterAppend(a, p[1..], q);
    }
  }

  /**
   * `get_unexpanded_leafs(start)` holds exactly the nodes of the subtree
   * below `start` that have no children and a value that is not a win; all
   * of them are nodes of the arena.
   */
  lemma UnexpandedLeafsSpec(a: Nodes, start: nat, x: nat)
    requires Valid(a) && start < |a.values|
    ensures InRange(a.children, UnexpandedLeafs(a, start))
    ensures x in UnexpandedLeafs(a, start) <==>
      x < |a.values| && Reachable(a.children, start, x) && Unexpanded(a, x)
  {
    LeafFilterSpec(a, Bfs(a.children, [start]), x);
    BfsIsSubtree(a.children, start, x);
  }

  /**
   * Expanding the root of a fresh tree gives it the ids 1 .. n of its `n`
   * child states.
   */
  lemma ExpandInit(s: GameState)
    requires s.WellFormed() && s.Side() != Empty
    ensures var (a, ids) := ExpandNode(Init(s), 0);
      && ids == Some(Range(1, 1 + |s.Children()|))
      && a.children[0] == Range(1, 1 + |s.Children()|) && |a.values| == 1 + |s.Children()|
  {
  }

  /** `expand_states_by(idx, 1)` expands the node `idx` alone. */
  lemma ExpandLevelsOne(a: Nodes, idx: nat)
    requires Valid(a) && idx < |a.values|
    ensures ExpandLevels(a, [idx], 1) == (ExpandNode(a, idx).0, Range(|a.values|, |ExpandNode(a, idx).0.values|))
  {
    assert ExpandLevels(a, [idx], 0) == (a, [idx]);
    assert [idx][..0] == [];
    assert ExpandList(a, [idx]) == ExpandNode(a, idx).0;
  }
}
