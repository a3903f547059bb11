/**
 * The top-down search shared by add, contains and remove: start at the head on the top
 * level, walk right while the next element is smaller than the target, drop a level when
 * it is not. `Searching` is the state of that walk in terms of positions on the level-0
 * chain.
 */
module SkipSearch {
  import opened SkipNodes
  import opened SkipLayout
  import opened SkipStore

  /**
   * The walk for target t stands at position `pos` on level `cur`: pos lies before the
   * first position (after the head) whose element is at least t, every node between them
   * stays below level cur+1, and if that first position holds t itself, it does too.
   */
  ghost predicate Searching(nodes: seq<Node>, order: seq<nat>, t: int, pos: nat, cur: int)
  {
    && InArena(nodes, order) && 1 <= |order| && -1 <= cur <= MAX
    && var ins := FirstAtLeast(nodes, order, 1, t);
    && pos < ins
    && cur < Height(nodes, order, pos)
    && (forall p :: pos < p < ins ==> Height(nodes, order, p) <= cur + 1)
    && (ins < |order| && Data(nodes, order, ins) == t ==> Height(nodes, order, ins) <= cur + 1)
  }

  /** The walk starts at the head, which takes part in every level. */
  lemma SearchStart(nodes: seq<Node>, head: Link, order: seq<nat>, t: int)
    requires WellFormed(nodes, head, order) && order != []
    ensures Searching(nodes, order, t, 0, MAX)
  {
  }

  /**
   * A node on level l links to the next node of level l on the chain (`base` is a store
   * with the same levels, on which the walk is described).
   */
  lemma LinkOf(base: seq<Node>, nodes: seq<Node>, order: seq<nat>, k: nat, l: nat)
    requires InArena(base, order) && SameHeights(base, nodes) && InArena(nodes, order) && LinkedAt(nodes, order, l)
    requires k < |order| && l < Height(base, order, k)
    ensures nodes[order[k]].next[l] == LinkTo(order, NextPos(base, order, k + 1, l))
  {
    NextPosSameHeights(base, nodes, order, k + 1, l);
  }

  /** Stepping right onto a smaller element keeps the walk before the target. */
  lemma SearchAdvance(nodes: seq<Node>, order: seq<nat>, t: int, pos: nat, cur: nat)
    requires Searching(nodes, order, t, pos, cur) && Ascending(nodes, order)
    requires NextPos(nodes, order, pos + 1, cur) < |order|
    requires Data(nodes, order, NextPos(nodes, order, pos + 1, cur)) < t
    ensures pos < NextPos(nodes, order, pos + 1, cur)
    ensures Searching(nodes, order, t, NextPos(nodes, order, pos + 1, cur), cur)
  {
  }

  /** Meeting the target on level cur: it is the first element at least t, and its level is cur. */
  lemma SearchFound(nodes: seq<Node>, order: seq<nat>, t: int, pos: nat, cur: nat)
    requires Searching(nodes, order, t, pos, cur) && Ascending(nodes, order)
    requires NextPos(nodes, order, pos + 1, cur) < |order|
    requires Data(nodes, order, NextPos(nodes, order, pos + 1, cur)) == t
    ensures NextPos(nodes, order, pos + 1, cur) == FirstAtLeast(nodes, order, 1, t)
    ensures Height(nodes, order, FirstAtLeast(nodes, order, 1, t)) == cur + 1
    ensures forall p :: pos < p < FirstAtLeast(nodes, order, 1, t) ==> Height(nodes, order, p) <= cur
  {
    NextPosBelow(nodes, order, pos + 1, cur);
  }

  /** Overshooting (or reaching the end) on level cur: the walk may drop to level cur - 1. */
  lemma SearchDescend(nodes: seq<Node>, order: seq<nat>, t: int, pos: nat, cur: nat)
    requires Searching(nodes, order, t, pos, cur) && Ascending(nodes, order)
    requires NextPos(nodes, order, pos + 1, cur) == |order| || Data(nodes, order, NextPos(nodes, order, pos + 1, cur)) > t
    ensures Searching(nodes, order, t, pos, cur - 1)
  {
    NextPosBelow(nodes, order, pos + 1, cur);
  }

  /** Below level 0 the walk stands right before the target's place. */
  lemma SearchEnd(nodes: seq<Node>, order: seq<nat>, t: int, pos: nat)
    requires Searching(nodes, order, t, pos, -1)
    requires forall k :: 0 <= k < |order| ==> 1 <= Height(nodes, order, k)
    ensures pos + 1 == FirstAtLeast(nodes, order, 1, t)
    ensures pos + 1 < |order| ==> Data(nodes, order, pos + 1) != t
  {
    var ins := FirstAtLeast(nodes, order, 1, t);
    if pos + 1 < ins {
      GapIsLow(nodes, order, pos, ins, 0, pos + 1);
      assert false;
    }
  }

  /** t is absent when neither the head nor the first element at least t holds it. */
  lemma Absent(nodes: seq<Node>, order: seq<nat>, t: int)
    requires InArena(nodes, order) && Ascending(nodes, order) && 1 <= |order|
    requires Data(nodes, order, 0) != t
    requires FirstAtLeast(nodes, order, 1, t) < |order| ==> Data(nodes, order, FirstAtLeast(nodes, order, 1, t)) != t
    ensures t !in Members(nodes, order)
  {
    var ins := FirstAtLeast(nodes, order, 1, t);
    forall k | 0 <= k < |order| ensures Data(nodes, order, k) != t {
      if ins < k {
        assert Data(nodes, order, ins) < Data(nodes, order, k);
      }
    }
  }
}
