/**
 * The two ways the list changes a node in place: `setNext` rewrites one link of a node,
 * `swapNode` exchanges the elements of two nodes. Both leave every node's level alone,
 * which is what lets the layout predicates carry over.
 */
module SkipStore {
  import opened SkipNodes
  import opened SkipLayout

  /** `nodes'` extends `nodes` and every old node keeps its whole link array. */
  ghost predicate SameLinks(nodes: seq<Node>, nodes': seq<Node>)
  {
    && |nodes| <= |nodes'|
    && forall b :: 0 <= b < |nodes| ==> nodes'[b].next == nodes[b].next
  }

  /** `nodes'` extends `nodes` and every old node keeps its element. */
  ghost predicate SameData(nodes: seq<Node>, nodes': seq<Node>)
  {
    && |nodes| <= |nodes'|
    && forall b :: 0 <= b < |nodes| ==> nodes'[b].data == nodes[b].data
  }

  /** The store after `setNext(l, x)` on the node at address a: only that one link differs. */
  ghost function SetLink(nodes: seq<Node>, a: nat, l: nat, x: Link): (r: seq<Node>)
    requires a < |nodes| && l < |nodes[a].next|
    ensures |r| == |nodes| && SameHeights(nodes, r) && SameData(nodes, r)
    ensures r[a].next[l] == x
    ensures forall b, m {:trigger r[b].next[m]} :: 0 <= b < |nodes| && 0 <= m < |nodes[b].next| && (b != a || m != l) ==>
      r[b].next[m] == nodes[b].next[m]
  {
    nodes[a := Node(nodes[a].data, nodes[a].next[l := x])]
  }

  /** The store after `swapNode` on addresses a and b: their elements trade places, links stay. */
  ghost function SwapData(nodes: seq<Node>, a: nat, b: nat): (r: seq<Node>)
    requires a < |nodes| && b < |nodes|
    ensures |r| == |nodes| && SameLinks(nodes, r)
    ensures r[a].data == nodes[b].data && r[b].data == nodes[a].data
    ensures forall c :: 0 <= c < |nodes| && c != a && c != b ==> r[c].data == nodes[c].data
  {
    nodes[a := Node(nodes[b].data, nodes[a].next)][b := Node(nodes[a].data, nodes[b].next)]
  }

  /** Keeping every link keeps the structure. */
  lemma SameLinksWellFormed(nodes: seq<Node>, nodes': seq<Node>, head: Link, order: seq<nat>)
    requires WellFormed(nodes, head, order) && SameLinks(nodes, nodes')
    ensures WellFormed(nodes', head, order)
  {
    assert SameHeights(nodes, nodes');
    SameHeightsInArena(nodes, nodes', order);
    forall l: nat | l <= MAX ensures LinkedAt(nodes', order, l) {
      assert LinkedAt(nodes, order, l);
      LinkedAtFrame(nodes, nodes', order, l);
    }
  }

  /** Keeping every element keeps what the chain holds and its search positions. */
  lemma SameDataKeeps(nodes: seq<Node>, nodes': seq<Node>, order: seq<nat>)
    requires InArena(nodes, order) && SameData(nodes, nodes')
    ensures InArena(nodes', order)
    ensures forall k :: 0 <= k < |order| ==> Data(nodes', order, k) == Data(nodes, order, k)
    ensures Members(nodes', order) == Members(nodes, order)
    ensures Ascending(nodes', order) <==> Ascending(nodes, order)
  {
    forall k | 0 <= k < |order| ensures Data(nodes', order, k) == Data(nodes, order, k) {
      assert order[k] < |nodes|;
    }
  }

  /** Keeping every element keeps FirstAtLeast. */
  lemma {:induction false} SameDataFirst(nodes: seq<Node>, nodes': seq<Node>, order: seq<nat>, j: nat, t: int)
    requires InArena(nodes, order) && SameData(nodes, nodes') && j <= |order|
    ensures InArena(nodes', order)
    ensures FirstAtLeast(nodes', order, j, t) == FirstAtLeast(nodes, order, j, t)
    decreases |order| - j
  {
    SameDataKeeps(nodes, nodes', order);
    if j < |order| {
      SameDataFirst(nodes, nodes', order, j + 1, t);
    }
  }
}
