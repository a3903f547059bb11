/**
 * The unlink that `remove` performs: the node at position d of the level-0 chain is taken
 * out of its levels from the top down. On each level its predecessor takes over its link;
 * the predecessor on the next level down is found again by a walk that stops at the node
 * holding the removed element.
 */
module SkipRemove {
  import opened SkipNodes
  import opened SkipLayout
  import opened SkipSearch
  import opened SkipStore

  /** No other node of the chain holds the element at position d. */
  ghost predicate Unique(nodes: seq<Node>, order: seq<nat>, d: nat)
    requires InArena(nodes, order) && d < |order|
  {
    forall p :: 0 <= p < |order| && p != d ==> Data(nodes, order, p) != Data(nodes, order, d)
  }

  /**
   * The unlink of position d has done every level above `cut`: those levels follow o'
   * (the chain without d) and the levels up to `cut` still follow `order`. Since `base`
   * only links have changed, and the chain without d is ascending in `base`.
   */
  ghost predicate Unlinked(base: seq<Node>, head: Link, order: seq<nat>, d: nat, o': seq<nat>, nodes: seq<Node>, cut: int)
  {
    && WellFormed(base, head, order) && 0 < d < |order| && Inserted(o', d, order[d], order)
    && InArena(base, o') && Ascending(base, o') && Unique(base, order, d)
    && |nodes| == |base| && SameHeights(base, nodes) && SameData(base, nodes)
    && InArena(nodes, order) && InArena(nodes, o')
    && -1 <= cut < Height(base, order, d)
    && LinkedSplit(nodes, order, o', cut)
  }

  /** ... and level `cut` is next: position pos is the last node of that level before d. */
  ghost predicate Unlinking(base: seq<Node>, head: Link, order: seq<nat>, d: nat, o': seq<nat>, nodes: seq<Node>,
                            pos: nat, cut: int)
  {
    && Unlinked(base, head, order, d, o', nodes, cut) && 0 <= cut
    && pos < d && cut < Height(base, order, pos)
    && forall p :: pos < p < d ==> Height(base, order, p) <= cut
  }

  /** Unlinking on level l moves the split down one level. */
  lemma UnlinkStep(nodes: seq<Node>, nodes': seq<Node>, order: seq<nat>, pos: nat, d: nat, o': seq<nat>, l: nat)
    requires UnlinkedAt(nodes, nodes', order, pos, d, l) && Inserted(o', d, order[d], order)
    requires InArena(nodes, o') && LinkedSplit(nodes, order, o', l) && |nodes'| == |nodes|
    requires forall b, m {:trigger nodes'[b].next[m]} :: 0 <= b < |nodes| && 0 <= m < |nodes[b].next| && m != l ==>
      nodes'[b].next[m] == nodes[b].next[m]
    ensures InArena(nodes', order) && InArena(nodes', o')
    ensures LinkedSplit(nodes', order, o', l - 1)
  {
    UnlinkAt(nodes, nodes', order, pos, d, o', l);
    SameHeightsInArena(nodes, nodes', order);
    forall m: nat | m < l ensures LinkedAt(nodes', order, m) {
      assert LinkedAt(nodes, order, m);
      LinkedAtFrame(nodes, nodes', order, m);
    }
    forall m: nat | l < m <= MAX ensures LinkedAt(nodes', o', m) {
      assert LinkedAt(nodes, o', m);
      LinkedAtFrame(nodes, nodes', o', m);
    }
  }

  /** `prev.setNext(cut, node.getNext(cut))`: the node leaves level `cut`. */
  lemma UnlinkNext(base: seq<Node>, head: Link, order: seq<nat>, d: nat, o': seq<nat>, nodes: seq<Node>,
                   pos: nat, cut: nat, nodes': seq<Node>)
    requires Unlinking(base, head, order, d, o', nodes, pos, cut)
    requires nodes' == SetLink(nodes, order[pos], cut, nodes[order[d]].next[cut])
    ensures Unlinked(base, head, order, d, o', nodes', cut - 1)
  {
    SameHeightsInArena(base, nodes, order);
    assert UnlinkedAt(nodes, nodes', order, pos, d, cut);
    UnlinkStep(nodes, nodes', order, pos, d, o', cut);
  }

  /**
   * The walk on level l from `from` that stops at the node holding the removed element
   * (or at the end) stops right before d: it cannot pass d, and no node between holds it.
   */
  lemma UnlinkRescanned(base: seq<Node>, head: Link, order: seq<nat>, d: nat, o': seq<nat>, nodes: seq<Node>,
                        from: nat, pos: nat, l: nat)
    requires Unlinked(base, head, order, d, o', nodes, l) && from < d && l < Height(base, order, from)
    requires from <= pos < |order| && l < Height(base, order, pos)
    requires NextPos(base, order, pos + 1, l) == |order| ||
      Data(base, order, NextPos(base, order, pos + 1, l)) == Data(base, order, d)
    requires forall p :: from < p <= pos && l < Height(base, order, p) ==> Data(base, order, p) != Data(base, order, d)
    ensures Unlinking(base, head, order, d, o', nodes, pos, l)
  {
    assert pos < d;
    NextPosBelow(base, order, pos + 1, l);
    assert NextPos(base, order, pos + 1, l) <= d;
  }

  /** The chain without position d of an ascending chain is ascending, and d's element is unique. */
  lemma AscendingWithout(nodes: seq<Node>, order: seq<nat>, d: nat, o': seq<nat>)
    requires InArena(nodes, order) && Ascending(nodes, order) && d < |order| && Inserted(o', d, order[d], order)
    ensures InArena(nodes, o') && Ascending(nodes, o') && Unique(nodes, order, d)
  {
    WithoutInArena(nodes, order, d, o');
    forall x, y | 0 <= x < y < |o'| ensures Data(nodes, o', x) < Data(nodes, o', y) {
      var x' := if x < d then x else x + 1;
      var y' := if y < d then y else y + 1;
      assert Data(nodes, o', x) == Data(nodes, order, x');
      assert Data(nodes, o', y) == Data(nodes, order, y');
    }
    forall p | 0 <= p < |order| && p != d ensures Data(nodes, order, p) != Data(nodes, order, d) {
      if p < d {
        assert Data(nodes, order, p) < Data(nodes, order, d);
      } else {
        assert Data(nodes, order, d) < Data(nodes, order, p);
      }
    }
  }

  /** Levels above the height of position d do not see it: they follow the chain without d too. */
  lemma LinkedAbove(nodes: seq<Node>, order: seq<nat>, d: nat, o': seq<nat>, cut: int)
    requires InArena(nodes, order) && Linked(nodes, order) && d < |order| && Inserted(o', d, order[d], order)
    requires InArena(nodes, o') && Height(nodes, order, d) - 1 <= cut <= MAX
    ensures LinkedSplit(nodes, order, o', cut)
  {
    forall l: nat | l <= cut ensures LinkedAt(nodes, order, l) {
    }
    forall l: nat | cut < l <= MAX ensures LinkedAt(nodes, o', l) {
      assert LinkedAt(nodes, order, l);
      LinkedAtInsertLow(nodes, o', d, order[d], order, l);
    }
  }

  /**
   * The search of `remove` met the element on level cur: the node holding it has level cur,
   * and the unlink starts there from the node the search stands on.
   */
  lemma UnlinkBegin(nodes: seq<Node>, head: Link, order: seq<nat>, v: int, pos: nat, cur: nat, d: nat, o': seq<nat>)
    requires WellFormed(nodes, head, order) && Ascending(nodes, order) && Searching(nodes, order, v, pos, cur)
    requires NextPos(nodes, order, pos + 1, cur) < |order| && Data(nodes, order, NextPos(nodes, order, pos + 1, cur)) == v
    requires d == NextPos(nodes, order, pos + 1, cur) && o' == Without(order, d)
    ensures Unlinking(nodes, head, order, d, o', nodes, pos, cur) && Height(nodes, order, d) == cur + 1
  {
    SearchFound(nodes, order, v, pos, cur);
    AscendingWithout(nodes, order, d, o');
    assert SameHeights(nodes, nodes) && SameData(nodes, nodes);
    LinkedAbove(nodes, order, d, o', cur);
  }

  /**
   * Removing the head's element v: once the head and its successor have traded elements
   * (`base`), the successor, now holding v, is unlinked from its own top level down, the
   * head being its predecessor on every one of its levels.
   */
  lemma HeadUnlinkBegin(nodes0: seq<Node>, head: Link, order: seq<nat>, base: seq<Node>, o': seq<nat>)
    requires WellFormed(nodes0, head, order) && Ascending(nodes0, order) && 2 <= |order|
    requires base == SwapData(nodes0, order[0], order[1]) && o' == Without(order, 1)
    ensures Unlinking(base, head, order, 1, o', base, 0, Height(base, order, 1) - 1)
    ensures Data(base, order, 0) == Data(nodes0, order, 1) && Data(base, order, 1) == Data(nodes0, order, 0)
    ensures Members(base, order) == Members(nodes0, order)
  {
    SameLinksWellFormed(nodes0, base, head, order);
    WithoutInArena(base, order, 1, o');
    forall k | 2 <= k < |order| ensures Data(base, order, k) == Data(nodes0, order, k) {
      assert order[k] != order[0] && order[k] != order[1];
    }
    forall x, y | 0 <= x < y < |o'| ensures Data(base, o', x) < Data(base, o', y) {
      assert Data(base, o', y) == Data(nodes0, order, y + 1);
      if x == 0 {
        assert Data(base, o', 0) == Data(nodes0, order, 1);
      } else {
        assert Data(base, o', x) == Data(nodes0, order, x + 1);
      }
    }
    assert Unique(base, order, 1) by {
      forall p | 0 <= p < |order| && p != 1 ensures Data(base, order, p) != Data(base, order, 1) {
        if p == 0 {
          assert Data(nodes0, order, 0) < Data(nodes0, order, 1);
        } else {
          assert Data(nodes0, order, 0) < Data(nodes0, order, p);
        }
      }
    }
    assert SameHeights(base, base) && SameData(base, base);
    LinkedAbove(base, order, 1, o', Height(base, order, 1) - 1);
    forall x | x in Members(nodes0, order) ensures x in Members(base, order) {
      var k :| 0 <= k < |order| && Data(nodes0, order, k) == x;
      if k == 0 {
        assert Data(base, order, 1) == x;
      } else if k == 1 {
        assert Data(base, order, 0) == x;
      } else {
        assert Data(base, order, k) == x;
      }
    }
    forall x | x in Members(base, order) ensures x in Members(nodes0, order) {
      var k :| 0 <= k < |order| && Data(base, order, k) == x;
      if k == 0 {
        assert Data(nodes0, order, 1) == x;
      } else if k == 1 {
        assert Data(nodes0, order, 0) == x;
      } else {
        assert Data(nodes0, order, k) == x;
      }
    }
  }

  /** Every level unlinked: the chain without d is a skip list holding all but d's element. */
  lemma UnlinkDone(base: seq<Node>, head: Link, order: seq<nat>, d: nat, o': seq<nat>, nodes: seq<Node>)
    requires Unlinked(base, head, order, d, o', nodes, -1)
    ensures WellFormed(nodes, head, o') && Ascending(nodes, o') && |o'| == |order| - 1
    ensures Members(nodes, o') == Members(base, order) - {Data(base, order, d)}
  {
    SameHeightsInArena(base, nodes, order);
    forall k | 0 <= k < |o'| ensures 1 <= Height(nodes, o', k) <= MAX + 1 {
      if k < d {
        assert o'[k] == order[k];
        assert Height(nodes, o', k) == Height(nodes, order, k);
      } else {
        assert o'[k] == order[k + 1];
        assert Height(nodes, o', k) == Height(nodes, order, k + 1);
      }
    }
    forall i, j | 0 <= i < j < |o'| ensures o'[i] != o'[j] {
      var i' := if i < d then i else i + 1;
      var j' := if j < d then j else j + 1;
      assert o'[i] == order[i'] && o'[j] == order[j'];
    }
    assert o'[0] == order[0];
    forall l: nat | l <= MAX ensures LinkedAt(nodes, o', l) {
    }
    SameDataKeeps(base, nodes, o');
    MembersInsert(base, o', d, order[d], order);
    assert Data(base, order, d) !in Members(base, o') by {
      forall k | 0 <= k < |o'| ensures Data(base, o', k) != Data(base, order, d) {
        var k' := if k < d then k else k + 1;
        assert Data(base, o', k) == Data(base, order, k');
      }
    }
  }

  /**
   * The unlink of the head's successor as the source starts it, from level MAX, while the
   * level is still above the successor's own levels: since `base` only links at levels
   * from `cut` up have changed, so the levels below `cut` are as they were.
   */
  ghost predicate Overrun(base: seq<Node>, head: Link, order: seq<nat>, nodes: seq<Node>, cut: int)
  {
    && WellFormed(base, head, order) && 2 <= |order|
    && |nodes| == |base| && SameHeights(base, nodes) && SameData(base, nodes) && InArena(nodes, order)
    && forall l: nat :: l < cut ==> LinkedAt(nodes, order, l)
  }

  /** `prev.setNext(cut, null)` on a level above the successor's only changes level `cut`. */
  lemma OverrunStep(base: seq<Node>, head: Link, order: seq<nat>, nodes: seq<Node>, pos: nat, cut: nat, nodes': seq<Node>)
    requires Overrun(base, head, order, nodes, cut) && pos < |order| && cut < Height(base, order, pos)
    requires nodes' == SetLink(nodes, order[pos], cut, Nil)
    ensures Overrun(base, head, order, nodes', cut)
  {
    SameHeightsInArena(base, nodes, order);
    forall l: nat | l < cut ensures LinkedAt(nodes', order, l) {
      assert LinkedAt(nodes, order, l);
      LinkedAtFrame(nodes, nodes', order, l);
    }
  }

  /**
   * Where the overrun stops (the read past the successor's link array): the head and its
   * successor have traded elements, so the chain holds the same elements but the
   * successor, still linked, holds the head's old element and the chain is out of order.
   */
  lemma OverrunFault(nodes0: seq<Node>, head: Link, order: seq<nat>, base: seq<Node>, nodes: seq<Node>, cut: int)
    requires WellFormed(nodes0, head, order) && Ascending(nodes0, order) && 2 <= |order|
    requires base == SwapData(nodes0, order[0], order[1]) && Overrun(base, head, order, nodes, cut)
    ensures Members(nodes, order) == Members(nodes0, order)
    ensures Data(nodes, order, 1) == Data(nodes0, order, 0) && !Ascending(nodes, order)
  {
    HeadUnlinkBegin(nodes0, head, order, base, Without(order, 1));
    SameDataKeeps(base, nodes, order);
    assert Data(nodes, order, 0) == Data(nodes0, order, 1) > Data(nodes0, order, 0) == Data(nodes, order, 1);
  }

  /**
   * What a successful removal of v does to the level-0 chain, position d being v's: the
   * elements are the old ones without position d; a node after the head leaves the chain
   * with the rest in place, while for the head's element the head's successor leaves it
   * (holding v, its level-0 link still on the node after it), the head having taken over
   * the successor's element.
   */
  ghost predicate Removed(nodes0: seq<Node>, order: seq<nat>, nodes: seq<Node>, o': seq<nat>, v: int)
  {
    && InArena(nodes0, order) && InArena(nodes, o')
    && var d := FirstAtLeast(nodes0, order, 0, v);
    && d < |order| && Data(nodes0, order, d) == v
    && Elements(nodes, o') == Elements(nodes0, order)[..d] + Elements(nodes0, order)[d + 1..]
    && (0 < d ==> o' == Without(order, d))
    && (d == 0 && 2 <= |order| ==>
          && o' == Without(order, 1) && order[1] < |nodes| && nodes[order[1]].data == v
          && 0 < |nodes[order[1]].next| && nodes[order[1]].next[0] == LinkTo(o', 1))
  }

  /** In an ascending chain the element at position d is first found, searching from j, at d. */
  lemma {:induction false} FirstAtLeastAt(nodes: seq<Node>, order: seq<nat>, j: nat, d: nat)
    requires InArena(nodes, order) && Ascending(nodes, order) && j <= d < |order|
    ensures FirstAtLeast(nodes, order, j, Data(nodes, order, d)) == d
    decreases d - j
  {
    if j < d {
      assert Data(nodes, order, j) < Data(nodes, order, d);
      FirstAtLeastAt(nodes, order, j + 1, d);
    }
  }

  /** Dropping position d from the chain drops position d from its elements. */
  lemma ElementsWithout(base: seq<Node>, nodes: seq<Node>, order: seq<nat>, d: nat, o': seq<nat>)
    requires InArena(base, order) && SameData(base, nodes) && d < |order| && o' == Without(order, d)
    ensures InArena(nodes, o')
    ensures Elements(nodes, o') == Elements(base, order)[..d] + Elements(base, order)[d + 1..]
  {
    var e := Elements(base, order);
    forall k | 0 <= k < |o'| ensures o'[k] < |nodes| && nodes[o'[k]].data == (e[..d] + e[d + 1..])[k] {
      if k < d {
        assert o'[k] == order[k];
      } else {
        assert o'[k] == order[k + 1];
      }
    }
  }

  /** The removal of a node after the head, in terms of the chain. */
  lemma AfterHeadRemoved(base: seq<Node>, order: seq<nat>, d: nat, nodes: seq<Node>, o': seq<nat>)
    requires InArena(base, order) && Ascending(base, order) && 0 < d < |order|
    requires o' == Without(order, d) && SameData(base, nodes)
    ensures Removed(base, order, nodes, o', Data(base, order, d))
  {
    FirstAtLeastAt(base, order, 0, d);
    ElementsWithout(base, nodes, order, d, o');
  }

  /** The removal of the head's element, where the head took over its successor's element. */
  lemma HeadRemoved(nodes0: seq<Node>, head: Link, order: seq<nat>, base: seq<Node>, nodes: seq<Node>, o': seq<nat>)
    requires WellFormed(nodes0, head, order) && Ascending(nodes0, order) && 2 <= |order|
    requires base == SwapData(nodes0, order[0], order[1]) && o' == Without(order, 1) && SameData(base, nodes)
    requires |nodes| == |base| && nodes[order[1]] == base[order[1]]
    ensures Removed(nodes0, order, nodes, o', Data(nodes0, order, 0))
  {
    assert LinkedAt(nodes0, order, 0);
    assert NextPos(nodes0, order, 2, 0) == 2;
    if 2 < |order| {
      assert o'[1] == order[2];
    }
    var e, eb := Elements(nodes0, order), Elements(base, order);
    ElementsWithout(base, nodes, order, 1, o');
    forall k | 0 <= k < |o'| ensures (eb[..1] + eb[2..])[k] == e[1..][k] {
      if 0 < k {
        assert order[k + 1] != order[0] && order[k + 1] != order[1];
      }
    }
    assert eb[..1] + eb[2..] == e[..0] + e[1..];
  }

  /** Removing the only element leaves the empty chain. */
  lemma OnlyRemoved(nodes: seq<Node>, order: seq<nat>)
    requires InArena(nodes, order) && |order| == 1
    ensures Removed(nodes, order, nodes, [], Data(nodes, order, 0))
  {
    assert Elements(nodes, order)[..0] + Elements(nodes, order)[1..] == [];
  }
}
