/**
 * The proof steps of `add`: the new node is created and possibly swapped with the head,
 * then spliced in level by level, top down, behind the last node the search passes on
 * each level it takes part in.
 */
module SkipInsert {
  import opened SkipNodes
  import opened SkipLayout
  import opened SkipSearch
  import opened SkipStore

  /**
   * The store once `add` has created its node at the end and, when the new element is
   * smaller than the head's, swapped the two elements so that the head keeps the smallest.
   */
  ghost function PrepareAdd(nodes: seq<Node>, h: nat, level: nat, v: int): seq<Node>
    requires h < |nodes|
  {
    var grown := nodes + [NewNode(level, v)];
    if nodes[h].data > v then SwapData(grown, h, |nodes|) else grown
  }

  /** A list of one node, the head, at level MAX. */
  lemma SingleWellFormed(nodes: seq<Node>, a: nat)
    requires a < |nodes| && nodes[a].next == NewNode(MAX, nodes[a].data).next
    ensures WellFormed(nodes, To(a), [a]) && Ascending(nodes, [a]) && Members(nodes, [a]) == {nodes[a].data}
  {
    forall l: nat | l <= MAX ensures LinkedAt(nodes, [a], l) {
      assert NextPos(nodes, [a], 1, l) == 1;
    }
    assert Data(nodes, [a], 0) == nodes[a].data;
  }

  /**
   * What the search of `add` starts from: the old chain is still a skip list over the
   * grown store, the new node is off the chain, and the head holds the smaller of the
   * two elements (equal only when the new element repeats the head's).
   */
  lemma AddPrepared(nodes0: seq<Node>, head: Link, order: seq<nat>, level: nat, v: int, base: seq<Node>)
    requires WellFormed(nodes0, head, order) && Ascending(nodes0, order) && order != [] && 1 <= level <= MAX
    requires base == PrepareAdd(nodes0, order[0], level, v)
    ensures WellFormed(base, head, order) && Ascending(base, order)
    ensures |base| == |nodes0| + 1 && |nodes0| !in order && |base[|nodes0|].next| == level + 1
    ensures SameHeights(nodes0, base)
    ensures Members(base, order) + {base[|nodes0|].data} == Members(nodes0, order) + {v}
    ensures Data(nodes0, order, 0) != v ==> Data(base, order, 0) < base[|nodes0|].data
    ensures Data(nodes0, order, 0) <= v ==> base == nodes0 + [NewNode(level, v)]
    ensures forall k :: 1 <= k < |order| && Data(base, order, k) == base[|nodes0|].data ==>
      Data(nodes0, order, 0) < v
  {
    var n := |nodes0|;
    var grown := nodes0 + [NewNode(level, v)];
    assert SameLinks(nodes0, grown);
    SameLinksWellFormed(nodes0, grown, head, order);
    assert SameData(nodes0, grown);
    SameDataKeeps(nodes0, grown, order);
    assert n !in order;
    if nodes0[order[0]].data > v {
      SameLinksWellFormed(grown, base, head, order);
      SwappedHead(nodes0, order, grown, base);
    } else {
      assert Members(base, order) + {base[n].data} == Members(nodes0, order) + {v};
    }
  }

  /** The swap with the head: the head takes the new element, the new node the old head element. */
  lemma SwappedHead(nodes0: seq<Node>, order: seq<nat>, grown: seq<Node>, base: seq<Node>)
    requires InArena(nodes0, order) && Distinct(order) && Ascending(nodes0, order) && order != []
    requires |grown| == |nodes0| + 1 && SameData(nodes0, grown) && |nodes0| !in order
    requires base == SwapData(grown, order[0], |nodes0|) && grown[|nodes0|].data < Data(nodes0, order, 0)
    ensures InArena(base, order) && Ascending(base, order)
    ensures Members(base, order) + {base[|nodes0|].data} == Members(nodes0, order) + {grown[|nodes0|].data}
    ensures Data(base, order, 0) < base[|nodes0|].data
    ensures forall k :: 1 <= k < |order| ==> Data(base, order, k) == Data(nodes0, order, k)
  {
    SwappedRest(nodes0, order, grown, base);
    forall i, j | 0 <= i < j < |order| ensures Data(base, order, i) < Data(base, order, j) {
      if i == 0 {
        assert Data(nodes0, order, 0) < Data(nodes0, order, j);
      } else {
        assert Data(nodes0, order, i) < Data(nodes0, order, j);
      }
    }
    SwappedMembers(nodes0, order, grown[|nodes0|].data, base);
  }

  /** The swap leaves the elements after the head alone. */
  lemma SwappedRest(nodes0: seq<Node>, order: seq<nat>, grown: seq<Node>, base: seq<Node>)
    requires InArena(nodes0, order) && Distinct(order) && order != []
    requires |grown| == |nodes0| + 1 && SameData(nodes0, grown) && |nodes0| !in order
    requires base == SwapData(grown, order[0], |nodes0|)
    ensures InArena(base, order)
    ensures Data(base, order, 0) == grown[|nodes0|].data && base[|nodes0|].data == Data(nodes0, order, 0)
    ensures forall k :: 1 <= k < |order| ==> Data(base, order, k) == Data(nodes0, order, k)
  {
    forall k | 1 <= k < |order| ensures Data(base, order, k) == Data(nodes0, order, k) {
      assert order[k] != order[0];
    }
  }

  lemma SwappedMembers(nodes0: seq<Node>, order: seq<nat>, x: int, base: seq<Node>)
    requires InArena(nodes0, order) && InArena(base, order) && order != [] && |nodes0| < |base|
    requires Data(base, order, 0) == x && base[|nodes0|].data == Data(nodes0, order, 0)
    requires forall k :: 1 <= k < |order| ==> Data(base, order, k) == Data(nodes0, order, k)
    ensures Members(base, order) + {base[|nodes0|].data} == Members(nodes0, order) + {x}
  {
    var n := |nodes0|;
    var lhs := Members(base, order) + {base[n].data};
    var rhs := Members(nodes0, order) + {x};
    assert Data(base, order, 0) in Members(base, order);
    forall y | y in Members(nodes0, order) ensures y in lhs {
      var k :| 0 <= k < |order| && Data(nodes0, order, k) == y;
      if k != 0 {
        assert Data(base, order, k) == y;
      }
    }
    assert Data(nodes0, order, 0) in Members(nodes0, order);
    forall y | y in Members(base, order) ensures y in rhs {
      var k :| 0 <= k < |order| && Data(base, order, k) == y;
      if k != 0 {
        assert Data(nodes0, order, k) == y;
      }
    }
  }

  /** One splice on level l: levels from l up now follow o', levels below still follow order. */
  lemma SpliceStep(nodes: seq<Node>, nodes': seq<Node>, order: seq<nat>, pos: nat, ins: nat, a: nat, o': seq<nat>, l: nat)
    requires SplicedAt(nodes, nodes', order, pos, ins, a, l) && Inserted(order, ins, a, o')
    requires InArena(nodes, o') && LinkedSplit(nodes, order, o', l) && |nodes'| == |nodes|
    requires forall b, m {:trigger nodes'[b].next[m]} :: 0 <= b < |nodes| && 0 <= m < |nodes[b].next| && m != l ==>
      nodes'[b].next[m] == nodes[b].next[m]
    ensures InArena(nodes', order) && InArena(nodes', o')
    ensures LinkedSplit(nodes', order, o', l - 1)
  {
    SpliceAt(nodes, nodes', order, pos, ins, a, o', l);
    SameHeightsInArena(nodes, nodes', order);
    forall m: nat | m < l ensures LinkedAt(nodes', order, m) {
      assert LinkedAt(nodes, order, m);
      LinkedAtFrame(nodes, nodes', order, m);
    }
    forall m: nat | l < m <= MAX ensures LinkedAt(nodes', o', m) {
      assert LinkedAt(nodes, o', m);
      LinkedAtFrame(nodes, nodes', o', m);
    }
  }

  /**
   * The splice `add` performs on level l (`node.setNext(l, next); prev.setNext(l, node)`)
   * keeps the split: afterwards the levels from l up follow the chain with the new node.
   */
  lemma AddSplice(base: seq<Node>, nodes: seq<Node>, nodes': seq<Node>, order: seq<nat>, t: int, pos: nat,
                  a: nat, o': seq<nat>, l: nat, next: Link)
    requires Distinct(order) && a < |base| && a !in order && l < |base[a].next|
    requires Searching(base, order, t, pos, l) && Searching(base, order, t, pos, l - 1)
    requires Inserted(order, FirstAtLeast(base, order, 1, t), a, o')
    requires |nodes| == |base| && SameHeights(base, nodes)
    requires InArena(nodes, order) && InArena(nodes, o') && LinkedSplit(nodes, order, o', l)
    requires next == LinkTo(order, NextPos(base, order, pos + 1, l))
    requires nodes' == SetLink(SetLink(nodes, a, l, next), order[pos], l, To(a))
    ensures InArena(nodes', order) && InArena(nodes', o')
    ensures LinkedSplit(nodes', order, o', l - 1)
  {
    var ins := FirstAtLeast(base, order, 1, t);
    SameHeightsInArena(base, nodes, order);
    NextPosSameHeights(base, nodes, order, pos + 1, l);
    assert LinkedAt(nodes, order, l);
    assert SplicedAt(nodes, nodes', order, pos, ins, a, l);
    SpliceStep(nodes, nodes', order, pos, ins, a, o', l);
  }

  /** On a level above the new node's, the new node is invisible: the split moves down unchanged. */
  lemma AddSkipLevel(nodes: seq<Node>, order: seq<nat>, ins: nat, a: nat, o': seq<nat>, l: nat)
    requires InArena(nodes, order) && a < |nodes| && Inserted(order, ins, a, o') && |nodes[a].next| <= l
    requires InArena(nodes, o') && LinkedSplit(nodes, order, o', l)
    ensures LinkedSplit(nodes, order, o', l - 1)
  {
    assert LinkedAt(nodes, order, l);
    LinkedAtInsertLow(nodes, order, ins, a, o', l);
  }

  /** o' puts a between two neighbours it lies strictly between: o' is ascending too. */
  lemma AscendingInsert(nodes: seq<Node>, order: seq<nat>, i: nat, a: nat, o': seq<nat>)
    requires InArena(nodes, order) && Ascending(nodes, order) && a < |nodes| && Inserted(order, i, a, o')
    requires 1 <= i && Data(nodes, order, i - 1) < nodes[a].data
    requires i < |order| ==> nodes[a].data < Data(nodes, order, i)
    ensures InArena(nodes, o') && Ascending(nodes, o')
  {
    InsertInArena(nodes, order, i, a, o');
    forall x, y | 0 <= x < y < |o'| ensures Data(nodes, o', x) < Data(nodes, o', y) {
      var dx := if x < i then Data(nodes, order, x) else if x == i then nodes[a].data else Data(nodes, order, x - 1);
      var dy := if y < i then Data(nodes, order, y) else if y == i then nodes[a].data else Data(nodes, order, y - 1);
      assert Data(nodes, o', x) == dx;
      assert Data(nodes, o', y) == dy;
      if x < i && i <= y {
        assert Data(nodes, order, x) <= Data(nodes, order, i - 1);
      }
      if x <= i && i < y {
        assert Data(nodes, order, i) <= Data(nodes, order, y - 1);
      }
    }
  }

  /** After the last level is spliced, the chain with the new node at `ins` is a skip list. */
  lemma InsertWellFormed(base: seq<Node>, nodes: seq<Node>, head: Link, order: seq<nat>, ins: nat, a: nat, o': seq<nat>)
    requires WellFormed(base, head, order) && order != [] && 1 <= ins
    requires a < |base| && a !in order && 1 <= |base[a].next| <= MAX + 1 && Inserted(order, ins, a, o')
    requires |nodes| == |base| && SameHeights(base, nodes)
    requires InArena(nodes, order) && InArena(nodes, o') && LinkedSplit(nodes, order, o', -1)
    ensures WellFormed(nodes, head, o')
  {
    SameHeightsInArena(base, nodes, order);
    forall k | 0 <= k < |o'| ensures 1 <= Height(nodes, o', k) <= MAX + 1 {
      if k < ins {
        assert o'[k] == order[k];
        assert Height(nodes, o', k) == Height(nodes, order, k) == Height(base, order, k);
      } else if k > ins {
        assert o'[k] == order[k - 1];
        assert Height(nodes, o', k) == Height(nodes, order, k - 1) == Height(base, order, k - 1);
      }
    }
    forall i, j | 0 <= i < j < |o'| ensures o'[i] != o'[j] {
      if i < ins && j > ins {
        assert o'[j] == order[j - 1];
      } else if i > ins {
        assert o'[i] == order[i - 1] && o'[j] == order[j - 1];
      }
    }
    assert o'[0] == order[0];
    forall l: nat | l <= MAX ensures LinkedAt(nodes, o', l) {
    }
  }

  /**
   * A fresh node already spliced into level l, the level of a chain node before it (the
   * head), cannot be invisible there: level l no longer follows the old chain.
   */
  lemma SplicedNotLinked(nodes: seq<Node>, order: seq<nat>, ins: nat, a: nat, o': seq<nat>, l: nat)
    requires InArena(nodes, order) && InArena(nodes, o') && Inserted(order, ins, a, o') && a !in order
    requires 1 <= ins && l < Height(nodes, order, 0) && l < |nodes[a].next|
    requires LinkedAt(nodes, o', l)
    ensures !LinkedAt(nodes, order, l)
  {
    assert o'[0] == order[0];
    var p := FindPred(nodes, o', ins, l, 0);
    assert o'[p] == order[p];
    assert nodes[order[p]].next[l] == To(a);
    var q := NextPos(nodes, order, p + 1, l);
    if q < |order| {
      assert order[q] != a;
    }
    assert nodes[order[p]].next[l] != LinkTo(order, q);
  }

  /** Walking level l from a node before `ins` reaches the last node of level l before it. */
  lemma {:induction false} FindPred(nodes: seq<Node>, order: seq<nat>, ins: nat, l: nat, k: nat) returns (p: nat)
    requires InArena(nodes, order) && k < ins < |order| && l < Height(nodes, order, k) && l < Height(nodes, order, ins)
    ensures k <= p < ins && l < Height(nodes, order, p) && NextPos(nodes, order, p + 1, l) == ins
    decreases ins - k
  {
    var q := NextPos(nodes, order, k + 1, l);
    NextPosBelow(nodes, order, k + 1, l);
    if q == ins {
      p := k;
    } else {
      assert q < ins;
      p := FindPred(nodes, order, ins, l, q);
    }
  }
  /**
   * `add` meets a node holding its element on level cur (the level of that node) and
   * returns false. The element was there already, and not in the head; the store is the
   * old one plus the unlinked new node when no splice happened yet (the new node's level is
   * at most cur), and otherwise the new node stays linked into the levels above cur, so
   * those levels no longer follow the chain.
   */
  lemma AddRejected(nodes0: seq<Node>, head: Link, order: seq<nat>, level: nat, v: int, base: seq<Node>,
                    nodes: seq<Node>, t: int, ins: nat, o': seq<nat>, cur: nat)
    requires WellFormed(nodes0, head, order) && Ascending(nodes0, order) && order != [] && 1 <= level <= MAX
    requires base == PrepareAdd(nodes0, order[0], level, v) && |base| == |nodes0| + 1 && InArena(base, order)
    requires |nodes| == |base| && SameHeights(base, nodes) && SameData(base, nodes)
    requires t == base[|nodes0|].data && ins == FirstAtLeast(base, order, 1, t)
    requires ins < |order| && Data(base, order, ins) == t && Height(base, order, ins) == cur + 1
    requires Inserted(order, ins, |nodes0|, o')
    requires InArena(nodes, order) && InArena(nodes, o') && LinkedSplit(nodes, order, o', cur)
    requires cur >= level ==> nodes == base
    ensures v in Members(nodes0, order) && Data(nodes0, order, 0) != v
    ensures Members(nodes, order) == Members(nodes0, order)
    ensures ins == FirstAtLeast(nodes, order, 1, v) && Data(nodes, order, ins) == v && Height(nodes, order, ins) == cur + 1
    ensures level <= cur ==> nodes == nodes0 + [NewNode(level, v)] && WellFormed(nodes, head, order) && Ascending(nodes, order)
    ensures level > cur ==> !Linked(nodes, order)
  {
    AddPrepared(nodes0, head, order, level, v, base);
    assert Data(nodes0, order, 0) < v;
    assert SameData(nodes0, base);
    SameDataKeeps(nodes0, base, order);
    SameDataKeeps(base, nodes, order);
    SameDataFirst(base, nodes, order, 1, v);
    SameHeightsInArena(base, nodes, order);
    assert Data(nodes0, order, ins) == v;
    if level > cur {
      var l := cur + 1;
      assert LinkedAt(nodes, o', l);
      SplicedNotLinked(nodes, order, ins, |nodes0|, o', l);
    }
  }

  /**
   * `add` runs through level 0 without meeting its element: the chain with the new node
   * at `ins` is a skip list holding the old elements and v. It is ascending unless v is
   * the head's element, which the search never compares: then v sits at the head and
   * again right after it.
   */
  lemma AddCompleted(nodes0: seq<Node>, head: Link, order: seq<nat>, level: nat, v: int, base: seq<Node>,
                     nodes: seq<Node>, t: int, ins: nat, o': seq<nat>)
    requires WellFormed(nodes0, head, order) && Ascending(nodes0, order) && order != [] && 1 <= level <= MAX
    requires base == PrepareAdd(nodes0, order[0], level, v) && |base| == |nodes0| + 1 && InArena(base, order)
    requires |nodes| == |base| && SameHeights(base, nodes) && SameData(base, nodes)
    requires t == base[|nodes0|].data && ins == FirstAtLeast(base, order, 1, t)
    requires ins < |order| ==> Data(base, order, ins) != t
    requires Inserted(order, ins, |nodes0|, o')
    requires InArena(nodes, order) && InArena(nodes, o') && LinkedSplit(nodes, order, o', -1)
    ensures WellFormed(nodes, head, o')
    ensures Members(nodes, o') == Members(nodes0, order) + {v}
    ensures Data(nodes0, order, 0) != v ==> v !in Members(nodes0, order) && Ascending(nodes, o')
    ensures Data(nodes0, order, 0) == v ==> ins == 1 && Data(nodes, o', 0) == v == Data(nodes, o', 1)
  {
    var n := |nodes0|;
    AddPrepared(nodes0, head, order, level, v, base);
    InsertWellFormed(base, nodes, head, order, ins, n, o');
    MembersInsert(base, order, ins, n, o');
    assert SameData(base, nodes);
    SameDataKeeps(base, nodes, o');
    if Data(nodes0, order, 0) != v {
      FreshAbsent(nodes0, order, level, v, base);
      AscendingInsert(base, order, ins, n, o');
    } else {
      HeadRepeatedFirst(base, order, t);
      assert o'[0] == order[0] && o'[1] == n;
    }
  }

  /** When v differs from the head's element, the search of `add` found it absent. */
  lemma FreshAbsent(nodes0: seq<Node>, order: seq<nat>, level: nat, v: int, base: seq<Node>)
    requires InArena(nodes0, order) && Ascending(nodes0, order) && order != [] && Data(nodes0, order, 0) != v
    requires base == PrepareAdd(nodes0, order[0], level, v) && InArena(base, order)
    requires FirstAtLeast(base, order, 1, base[|nodes0|].data) < |order| ==>
      Data(base, order, FirstAtLeast(base, order, 1, base[|nodes0|].data)) != base[|nodes0|].data
    ensures v !in Members(nodes0, order)
  {
    if Data(nodes0, order, 0) < v {
      assert SameData(nodes0, base);
      SameDataKeeps(nodes0, base, order);
      Absent(base, order, v);
    } else {
      forall k | 0 <= k < |order| ensures Data(nodes0, order, k) != v {
        if k > 0 {
          assert Data(nodes0, order, 0) < Data(nodes0, order, k);
        }
      }
    }
  }

  /** A repeat of the head's element is the first element at least itself from position 1. */
  lemma HeadRepeatedFirst(nodes: seq<Node>, order: seq<nat>, t: int)
    requires InArena(nodes, order) && Ascending(nodes, order) && order != [] && Data(nodes, order, 0) == t
    ensures FirstAtLeast(nodes, order, 1, t) == 1
  {
    if 1 < |order| {
      assert Data(nodes, order, 0) < Data(nodes, order, 1);
    }
  }
  // ---------------------------------------------------------------------------
  // The descent of `add` as one invariant

  /**
   * The state of `add` at the top of its loop on level cur: the store `base` is the old
   * one with the new node at address |nodes0| (after the swap with the head, if any), the
   * search for its element stands at position pos, and the levels above cur already
   * follow the chain o' that has the new node at `ins`. No splice has happened while cur
   * is at least the new node's level.
   */
  ghost predicate Descending(nodes0: seq<Node>, head: Link, order: seq<nat>, level: nat, v: int, base: seq<Node>,
                             nodes: seq<Node>, ins: nat, o': seq<nat>, pos: nat, cur: int)
  {
    && WellFormed(nodes0, head, order) && Ascending(nodes0, order) && order != [] && 1 <= level <= MAX
    && base == PrepareAdd(nodes0, order[0], level, v)
    && WellFormed(base, head, order) && Ascending(base, order)
    && |base| == |nodes0| + 1 && |nodes0| !in order && |base[|nodes0|].next| == level + 1
    && ins == FirstAtLeast(base, order, 1, base[|nodes0|].data) && Inserted(order, ins, |nodes0|, o')
    && |nodes| == |base| && SameHeights(base, nodes) && SameData(base, nodes)
    && Searching(base, order, base[|nodes0|].data, pos, cur)
    && InArena(nodes, order) && InArena(nodes, o') && LinkedSplit(nodes, order, o', cur)
    && (cur >= level ==> nodes == base)
  }

  /** The descent starts at the head on level MAX with nothing spliced. */
  lemma AddBegin(nodes0: seq<Node>, head: Link, order: seq<nat>, level: nat, v: int, base: seq<Node>, ins: nat, o': seq<nat>)
    requires WellFormed(nodes0, head, order) && Ascending(nodes0, order) && order != [] && 1 <= level <= MAX
    requires base == PrepareAdd(nodes0, order[0], level, v)
    requires |base| == |nodes0| + 1 && ins == FirstAtLeast(base, order, 1, base[|nodes0|].data)
    requires o' == Insert(order, ins, |nodes0|)
    ensures Descending(nodes0, head, order, level, v, base, base, ins, o', 0, MAX)
  {
    AddPrepared(nodes0, head, order, level, v, base);
    SearchStart(base, head, order, base[|nodes0|].data);
    InsertInArena(base, order, ins, |nodes0|, o');
    assert SameHeights(base, base) && SameData(base, base);
  }

  /** Overshooting on a level above the new node's: drop a level, nothing to splice. */
  lemma AddPass(nodes0: seq<Node>, head: Link, order: seq<nat>, level: nat, v: int, base: seq<Node>,
                nodes: seq<Node>, ins: nat, o': seq<nat>, pos: nat, cur: nat)
    requires Descending(nodes0, head, order, level, v, base, nodes, ins, o', pos, cur) && level < cur
    requires NextPos(base, order, pos + 1, cur) == |order| ||
      Data(base, order, NextPos(base, order, pos + 1, cur)) > base[|nodes0|].data
    ensures Descending(nodes0, head, order, level, v, base, nodes, ins, o', pos, cur - 1)
  {
    SearchDescend(base, order, base[|nodes0|].data, pos, cur);
    AddSkipLevel(nodes, order, ins, |nodes0|, o', cur);
  }

  /** Overshooting on a level of the new node: after the splice, drop a level. */
  lemma AddSpliced(nodes0: seq<Node>, head: Link, order: seq<nat>, level: nat, v: int, base: seq<Node>,
                   nodes: seq<Node>, nodes': seq<Node>, ins: nat, o': seq<nat>, pos: nat, cur: nat, next: Link)
    requires Descending(nodes0, head, order, level, v, base, nodes, ins, o', pos, cur) && cur <= level
    requires NextPos(base, order, pos + 1, cur) == |order| ||
      Data(base, order, NextPos(base, order, pos + 1, cur)) > base[|nodes0|].data
    requires next == LinkTo(order, NextPos(base, order, pos + 1, cur))
    requires nodes' == SetLink(SetLink(nodes, |nodes0|, cur, next), order[pos], cur, To(|nodes0|))
    ensures Descending(nodes0, head, order, level, v, base, nodes', ins, o', pos, cur - 1)
  {
    var t := base[|nodes0|].data;
    SearchDescend(base, order, t, pos, cur);
    AddSplice(base, nodes, nodes', order, t, pos, |nodes0|, o', cur, next);
  }

  /**
   * What `add` leaves when it meets v at position d on the way down: v was there and is
   * not the head's element, the elements are unchanged, and the new node is either left out altogether (its level is below that of
   * the node holding v) or still spliced in after position d on the levels above that
   * node's level, so that those levels no longer follow the level-0 chain.
   */
  ghost predicate Rejected(nodes0: seq<Node>, head: Link, order: seq<nat>, level: nat, v: int, nodes: seq<Node>)
  {
    && 0 < |order| && InArena(nodes0, order) && InArena(nodes, order)
    && v in Members(nodes0, order) && Data(nodes0, order, 0) != v
    && Members(nodes, order) == Members(nodes0, order)
    && var d := FirstAtLeast(nodes, order, 1, v);
    && d < |order| && Data(nodes, order, d) == v
    && (level < Height(nodes, order, d) ==>
          nodes == nodes0 + [NewNode(level, v)] && WellFormed(nodes, head, order) && Ascending(nodes, order))
    && (level >= Height(nodes, order, d) ==>
          && !Linked(nodes, order) && InArena(nodes, Insert(order, d, |nodes0|))
          && LinkedSplit(nodes, order, Insert(order, d, |nodes0|), Height(nodes, order, d) - 1))
  }

  /** Met the element on the way down: `add` gives up (see AddRejected). */
  lemma AddMet(nodes0: seq<Node>, head: Link, order: seq<nat>, level: nat, v: int, base: seq<Node>,
               nodes: seq<Node>, ins: nat, o': seq<nat>, pos: nat, cur: nat)
    requires Descending(nodes0, head, order, level, v, base, nodes, ins, o', pos, cur)
    requires o' == Insert(order, ins, |nodes0|)
    requires NextPos(base, order, pos + 1, cur) < |order|
    requires Data(base, order, NextPos(base, order, pos + 1, cur)) == base[|nodes0|].data
    ensures Rejected(nodes0, head, order, level, v, nodes)
  {
    var t := base[|nodes0|].data;
    SearchFound(base, order, t, pos, cur);
    AddRejected(nodes0, head, order, level, v, base, nodes, t, ins, o', cur);
  }

  /**
   * What `add` leaves when it gets past level 0 without meeting the element: the new node
   * is linked on every level, after the head when v is the head's element (never compared)
   * and in sorted position otherwise.
   */
  ghost predicate Completed(nodes0: seq<Node>, head: Link, order: seq<nat>, v: int,
                            nodes: seq<Node>, ins: nat, o': seq<nat>)
  {
    && WellFormed(nodes, head, o') && 0 < |order| && InArena(nodes0, order) && |o'| == |order| + 1
    && Members(nodes, o') == Members(nodes0, order) + {v}
    && (Data(nodes0, order, 0) != v ==> v !in Members(nodes0, order) && Ascending(nodes, o'))
    && (Data(nodes0, order, 0) == v ==> ins == 1 && Data(nodes, o', 0) == v == Data(nodes, o', 1))
  }

  /** Past level 0 without meeting the element: `add` completes (see AddCompleted). */
  lemma AddDone(nodes0: seq<Node>, head: Link, order: seq<nat>, level: nat, v: int, base: seq<Node>,
                nodes: seq<Node>, ins: nat, o': seq<nat>, pos: nat)
    requires Descending(nodes0, head, order, level, v, base, nodes, ins, o', pos, -1)
    ensures Completed(nodes0, head, order, v, nodes, ins, o')
  {
    var t := base[|nodes0|].data;
    SearchEnd(base, order, t, pos);
    AddCompleted(nodes0, head, order, level, v, base, nodes, t, ins, o');
  }

  /**
   * What `add` leaves when v is the head's element: a second node holding v follows the
   * head on the level-0 chain, so the chain holds the same elements but is no longer
   * strictly ascending.
   */
  ghost predicate HeadRepeated(nodes0: seq<Node>, head: Link, order: seq<nat>, nodes: seq<Node>, o': seq<nat>)
  {
    && 0 < |order| && InArena(nodes0, order) && o' == Insert(order, 1, |nodes0|)
    && WellFormed(nodes, head, o') && Members(nodes, o') == Members(nodes0, order)
    && Data(nodes, o', 0) == Data(nodes0, order, 0) == Data(nodes, o', 1)
    && !Ascending(nodes, o')
  }

  /** The completed `add` of the head's element is the repeated-head outcome. */
  lemma AddedAgain(nodes0: seq<Node>, head: Link, order: seq<nat>, v: int, nodes: seq<Node>, ins: nat, o': seq<nat>)
    requires Completed(nodes0, head, order, v, nodes, ins, o') && Data(nodes0, order, 0) == v
    requires o' == Insert(order, ins, |nodes0|)
    ensures HeadRepeated(nodes0, head, order, nodes, o')
  {
    assert v in Members(nodes0, order);
  }
}
