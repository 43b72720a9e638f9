/**
 * The shape of the evaluation tree: the `children` vector of the arena, where
 * node ids index the vector and every child id is larger than its parent's.
 * Breadth-first order (`Bfs`), the nodes at a given depth (`LevelSet`) and
 * reachability are defined here on that vector alone.
 */
module Forest {
  import opened Extrema

  /** Every child of node `i` is a later node of the vector. */
  predicate WellFormed(c: seq<seq<nat>>) {
    forall i, j | 0 <= i < |c| && 0 <= j < |c[i]| :: i < c[i][j] < |c|
  }

  /** Every id of `q` is a node of `c`. */
  predicate InRange(c: seq<seq<nat>>, q: seq<nat>) {
    forall k | 0 <= k < |q| :: q[k] < |c|
  }

  /** The number of nodes of the subtree below `i`, `i` included. */
  function Size(c: seq<seq<nat>>, i: nat): nat
    requires WellFormed(c) && i < |c|
    decreases |c| - i, 0
  {
    1 + SumSizes(c, c[i])
  }

  /** The total size of the subtrees below the ids of `q`. */
  function SumSizes(c: seq<seq<nat>>, q: seq<nat>): nat
    requires WellFormed(c) && InRange(c, q)
    decreases |c| - (if q == [] then |c| else Min(q)), 1, |q|
  {
    if q == [] then
      0
    else
      assert q[1..] != [] ==> Min(q[1..]) in q;
      Size(c, q[0]) + SumSizes(c, q[1..])
  }

  /** Sizes add up over concatenated queues. */
  lemma {:induction false} SumSizesAppend(c: seq<seq<nat>>, a: seq<nat>, b: seq<nat>)
    requires WellFormed(c) && InRange(c, a) && InRange(c, b)
    ensures InRange(c, a + b) && SumSizes(c, a + b) == SumSizes(c, a) + SumSizes(c, b)
    decreases |a|
  {
    if a != [] {
      assert (a + b)[1..] == a[1..] + b;
      SumSizesAppend(c, a[1..], b);
    } else {
      assert a + b == b;
    }
  }

  /** The children of a node are nodes of the vector. */
  lemma ChildrenInRange(c: seq<seq<nat>>, i: nat)
    requires WellFormed(c) && i < |c|
    ensures InRange(c, c[i])
  {
  }

  /**
   * Popping the front of a non-empty queue and appending its children leaves
   * a queue of smaller total size.
   */
  lemma PopShrinks(c: seq<seq<nat>>, q: seq<nat>)
    requires WellFormed(c) && InRange(c, q) && q != []
    ensures InRange(c, q[1..] + c[q[0]])
    ensures SumSizes(c, q[1..] + c[q[0]]) + 1 == SumSizes(c, q)
  {
    ChildrenInRange(c, q[0]);
    SumSizesAppend(c, q[1..], c[q[0]]);
    assert SumSizes(c, q) == 1 + SumSizes(c, c[q[0]]) + SumSizes(c, q[1..]);
  }

  /**
   * The order in which the BFS iterator yields ids, starting from queue `q`:
   * pop the front, append its children at the back, repeat until empty.
   */
  function Bfs(c: seq<seq<nat>>, q: seq<nat>): (order: seq<nat>)
    requires WellFormed(c) && InRange(c, q)
    ensures InRange(c, order)
    decreases SumSizes(c, q)
  {
    if q == [] then
      []
    else
      PopShrinks(c, q);
      [q[0]] + Bfs(c, q[1..] + c[q[0]])
  }

  /** The children of the ids of `q`, in queue order: the level BFS reaches after `q`. */
  function NextLevel(c: seq<seq<nat>>, q: seq<nat>): (next: seq<nat>)
    requires WellFormed(c) && InRange(c, q)
    ensures InRange(c, next)
  {
    if q == [] then [] else c[q[0]] + NextLevel(c, q[1..])
  }

  /**
   * BFS goes level by level: it yields the ids of `q`, then continues with
   * the rest `r` of the queue followed by the children of `q`.
   */
  lemma {:induction false} BfsByLevels(c: seq<seq<nat>>, q: seq<nat>, r: seq<nat>)
    requires WellFormed(c) && InRange(c, q) && InRange(c, r)
    ensures InRange(c, q + r) && InRange(c, r + NextLevel(c, q))
    ensures Bfs(c, q + r) == q + Bfs(c, r + NextLevel(c, q))
    decreases |q|
  {
    if q == [] {
      assert q + r == r && r + NextLevel(c, q) == r;
    } else {
      var x, qr := q[0], q + r;
      assert InRange(c, qr);
      PopShrinks(c, qr);
      assert qr[0] == x && qr[1..] + c[x] == q[1..] + (r + c[x]);
      var rest := Bfs(c, qr[1..] + c[x]);
      assert Bfs(c, qr) == [x] + rest;
      ChildrenInRange(c, x);
      BfsByLevels(c, q[1..], r + c[x]);
      var next := NextLevel(c, q);
      assert (r + c[x]) + NextLevel(c, q[1..]) == r + next;
      assert rest == q[1..] + Bfs(c, r + next);
      assert [x] + (q[1..] + Bfs(c, r + next)) == q + Bfs(c, r + next);
    }
  }

  /** BFS from a queue yields the queue, then BFS from the next level. */
  lemma BfsLevel(c: seq<seq<nat>>, q: seq<nat>)
    requires WellFormed(c) && InRange(c, q)
    ensures Bfs(c, q) == q + Bfs(c, NextLevel(c, q))
  {
    BfsByLevels(c, q, []);
    assert q + [] == q && [] + NextLevel(c, q) == NextLevel(c, q);
  }

  /** The ids at depth exactly `k` below `r` (`r` itself at depth 0). */
  function LevelSet(c: seq<seq<nat>>, r: nat, k: nat): (level: set<nat>)
    requires WellFormed(c) && r < |c|
    ensures forall x | x in level :: x < |c|
    decreases k, 1
  {
    if k == 0 then
      {r}
    else
      set x: nat | x < |c| && UnderChild(c, r, k, x)
  }

  /** `x` lies at depth `k - 1` below some child of `r`. */
  predicate UnderChild(c: seq<seq<nat>>, r: nat, k: nat, x: nat)
    requires WellFormed(c) && r < |c| && k > 0
    decreases k, 0
  {
    exists ch | ch in c[r] :: x in LevelSet(c, ch, k - 1)
  }

  /** `x` lies in the subtree below `r`. */
  ghost predicate Reachable(c: seq<seq<nat>>, r: nat, x: nat)
    requires WellFormed(c) && r < |c|
  {
    exists k: nat :: x in LevelSet(c, r, k)
  }

  /** BFS starts by yielding the queue it was given, in order. */
  lemma {:induction false} BfsStartsWithQueue(c: seq<seq<nat>>, q: seq<nat>)
    requires WellFormed(c) && InRange(c, q)
    ensures |q| <= |Bfs(c, q)| && Bfs(c, q)[..|q|] == q
    decreases SumSizes(c, q)
  {
    if q != [] {
      PopShrinks(c, q);
      var q' := q[1..] + c[q[0]];
      BfsStartsWithQueue(c, q');
      assert Bfs(c, q)[..|q|] == [q[0]] + Bfs(c, q')[..|q| - 1];
      assert Bfs(c, q')[..|q| - 1] == q'[..|q| - 1];
    }
  }

  /** BFS yields every node of the subtrees below its queue exactly as often as they occur there. */
  lemma {:induction false} BfsLength(c: seq<seq<nat>>, q: seq<nat>)
    requires WellFormed(c) && InRange(c, q)
    ensures |Bfs(c, q)| == SumSizes(c, q)
    decreases SumSizes(c, q)
  {
    if q != [] {
      PopShrinks(c, q);
      BfsLength(c, q[1..] + c[q[0]]);
    }
  }

  /**
   * Every child of a node BFS yields is yielded later: this is what lets
   * `evaluate_states` visit children before parents by walking the order
   * backwards.
   */
  lemma {:induction false} BfsChildrenAfter(c: seq<seq<nat>>, q: seq<nat>, p: nat)
    requires WellFormed(c) && InRange(c, q) && p < |Bfs(c, q)|
    ensures forall ch | ch in c[Bfs(c, q)[p]] :: ch in Bfs(c, q)[p + 1..]
    decreases SumSizes(c, q)
  {
    PopShrinks(c, q);
    var q' := q[1..] + c[q[0]];
    var order := Bfs(c, q);
    assert order == [q[0]] + Bfs(c, q');
    if p == 0 {
      BfsStartsWithQueue(c, q');
      forall ch | ch in c[q[0]] ensures ch in order[1..] {
        var j :| 0 <= j < |c[q[0]]| && c[q[0]][j] == ch;
        assert q'[|q| - 1 + j] == ch;
        assert Bfs(c, q')[..|q'|][|q| - 1 + j] == ch;
        assert order[1..] == Bfs(c, q');
      }
    } else {
      BfsChildrenAfter(c, q', p - 1);
      assert order[p] == Bfs(c, q')[p - 1];
      assert order[p + 1..] == Bfs(c, q')[p..];
    }
  }

  /** A child's nodes at depth `k` lie among its parent's nodes at depth `k + 1`. */
  lemma LevelSetOfChild(c: seq<seq<nat>>, r: nat, ch: nat, k: nat)
    requires WellFormed(c) && r < |c| && ch in c[r]
    ensures ch < |c| && LevelSet(c, ch, k) <= LevelSet(c, r, k + 1)
  {
  }

  /** Once a depth below `r` has no nodes, no deeper one has any. */
  lemma {:induction false} LevelSetEmptyStaysEmpty(c: seq<seq<nat>>, r: nat, k: nat)
    requires WellFormed(c) && r < |c| && LevelSet(c, r, k) == {}
    ensures LevelSet(c, r, k + 1) == {}
    decreases k
  {
    if k > 0 {
      forall ch | ch in c[r] ensures LevelSet(c, ch, k) == {} {
        LevelSetOfChild(c, r, ch, k - 1);
        LevelSetEmptyStaysEmpty(c, ch, k - 1);
      }
    }
  }

  /**
   * `c1` grows `c0` by new leaves only: existing nodes keep their children
   * and may gain new ids (which are leaves of `c1`); new nodes have no children.
   */
  ghost predicate GrowsByLeaves(c0: seq<seq<nat>>, c1: seq<seq<nat>>) {
    && |c0| <= |c1|
    && (forall r, x | 0 <= r < |c0| && x in c1[r] :: x in c0[r] || |c0| <= x)
    && (forall r | |c0| <= r < |c1| :: c1[r] == [])
  }

  /**
   * Growing by new leaves adds at most one level: if no node of `c0` lies at
   * depth `k` below `r`, no node of `c1` lies at depth `k + 1`.
   */
  lemma {:induction false} GrowthAddsOneLevel(c0: seq<seq<nat>>, c1: seq<seq<nat>>, r: nat, k: nat)
    requires WellFormed(c0) && WellFormed(c1) && GrowsByLeaves(c0, c1)
    requires r < |c0| && LevelSet(c0, r, k) == {}
    ensures LevelSet(c1, r, k + 1) == {}
    decreases k
  {
    if k > 0 {
      forall ch | ch in c1[r] ensures LevelSet(c1, ch, k) == {} {
        if ch in c0[r] {
          LevelSetOfChild(c0, r, ch, k - 1);
          GrowthAddsOneLevel(c0, c1, ch, k - 1);
        } else {
          assert c1[ch] == [];
        }
      }
    }
  }

  /** A child of a node at depth `k` below `r` lies at depth `k + 1`. */
  lemma {:induction false} LevelSetExtend(c: seq<seq<nat>>, r: nat, k: nat, n: nat, ch: nat)
    requires WellFormed(c) && r < |c| && n in LevelSet(c, r, k) && n < |c| && ch in c[n]
    ensures ch in LevelSet(c, r, k + 1)
    decreases k
  {
    if k == 0 {
      assert ch in LevelSet(c, ch, 0);
      assert UnderChild(c, r, 1, ch);
    } else {
      assert UnderChild(c, r, k, n);
      var ch0 :| ch0 in c[r] && n in LevelSet(c, ch0, k - 1);
      LevelSetExtend(c, ch0, k - 1, n, ch);
      assert UnderChild(c, r, k + 1, ch);
    }
  }

  /** The subtree below `r` is closed under taking children. */
  lemma ReachableChild(c: seq<seq<nat>>, r: nat, n: nat, ch: nat)
    requires WellFormed(c) && r < |c| && n < |c| && Reachable(c, r, n) && ch in c[n]
    ensures Reachable(c, r, ch)
  {
    var k: nat :| n in LevelSet(c, r, k);
    LevelSetExtend(c, r, k, n, ch);
  }

  /** A node has a node at depth 1 below it exactly when it has a child. */
  lemma LevelOneIffChild(c: seq<seq<nat>>, r: nat)
    requires WellFormed(c) && r < |c|
    ensures LevelSet(c, r, 1) != {} <==> c[r] != []
  {
    if c[r] != [] {
      assert c[r][0] in c[r] && c[r][0] in LevelSet(c, c[r][0], 0);
      assert UnderChild(c, r, 1, c[r][0]);
    } else {
      assert forall x: nat :: !UnderChild(c, r, 1, x);
    }
  }

  /**
   * BFS from a queue yields exactly the nodes reachable from some id of the
   * queue.
   */
  lemma {:induction false} BfsReachesQueue(c: seq<seq<nat>>, q: seq<nat>, x: nat)
    requires WellFormed(c) && InRange(c, q)
    ensures x in Bfs(c, q) <==> exists j, k: nat | 0 <= j < |q| :: x in LevelSet(c, q[j], k)
    decreases SumSizes(c, q)
  {
    if q != [] {
      PopShrinks(c, q);
      var q' := q[1..] + c[q[0]];
      BfsReachesQueue(c, q', x);
      assert Bfs(c, q) == [q[0]] + Bfs(c, q');
      if x in Bfs(c, q) {
        if x == q[0] {
          assert x in LevelSet(c, q[0], 0);
        } else {
          var j, k: nat :| 0 <= j < |q'| && x in LevelSet(c, q'[j], k);
          if j < |q| - 1 {
            assert q'[j] == q[j + 1];
            assert x in LevelSet(c, q[j + 1], k);
          } else {
            LevelSetOfChild(c, q[0], q'[j], k);
            assert x in LevelSet(c, q[0], k + 1);
          }
        }
      }
      if exists j, k: nat | 0 <= j < |q| :: x in LevelSet(c, q[j], k) {
        var j, k: nat :| 0 <= j < |q| && x in LevelSet(c, q[j], k);
        if j > 0 {
          assert q'[j - 1] == q[j];
          assert x in LevelSet(c, q'[j - 1], k);
        } else if k == 0 {
          assert x == q[0];
        } else {
          assert UnderChild(c, q[0], k, x);
          var ch :| ch in c[q[0]] && x in LevelSet(c, ch, k - 1);
          var i :| 0 <= i < |c[q[0]]| && c[q[0]][i] == ch;
          assert q'[|q| - 1 + i] == ch;
          var k1: nat := k - 1;
          assert 0 <= |q| - 1 + i < |q'| && x in LevelSet(c, q'[|q| - 1 + i], k1);
          assert x in Bfs(c, q');
          assert x in Bfs(c, q);
        }
      }
    }
  }

  /** BFS from `s` yields exactly the nodes of the subtree below `s`. */
  lemma BfsIsSubtree(c: seq<seq<nat>>, s: nat, x: nat)
    requires WellFormed(c) && s < |c|
    ensures x in Bfs(c, [s]) <==> Reachable(c, s, x)
  {
    BfsReachesQueue(c, [s], x);
    if Reachable(c, s, x) {
      var k: nat :| x in LevelSet(c, s, k);
      assert x in LevelSet(c, [s][0], k);
    }
  }
}
