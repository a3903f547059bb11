/**
 * The shape of a skip list over a node store. `order` lists, head first, the addresses
 * of the nodes on the level-0 chain; the chain at level l is the sub-sequence of the
 * nodes whose link array is longer than l, and every such node links at level l to the
 * next one of them (`NextPos`).
 */
module SkipLayout {
  import opened SkipNodes

  /** Every address in `order` names a node of the store. */
  ghost predicate InArena(nodes: seq<Node>, order: seq<nat>)
  {
    forall k :: 0 <= k < |order| ==> order[k] < |nodes|
  }

  ghost predicate Distinct(order: seq<nat>)
  {
    forall i, j :: 0 <= i < j < |order| ==> order[i] != order[j]
  }

  /** The length of the link array of the node at position k, i.e. its level plus one. */
  ghost function Height(nodes: seq<Node>, order: seq<nat>, k: nat): nat
    requires InArena(nodes, order) && k < |order|
  {
    |nodes[order[k]].next|
  }

  ghost function Data(nodes: seq<Node>, order: seq<nat>, k: nat): int
    requires InArena(nodes, order) && k < |order|
  {
    nodes[order[k]].data
  }

  /** The first position at or after j whose node takes part in level l, or |order|. */
  ghost function NextPos(nodes: seq<Node>, order: seq<nat>, j: nat, l: nat): (q: nat)
    requires InArena(nodes, order) && j <= |order|
    ensures j <= q <= |order|
    ensures q < |order| ==> Height(nodes, order, q) > l
    decreases |order| - j
  {
    if j == |order| || Height(nodes, order, j) > l then j else NextPos(nodes, order, j + 1, l)
  }

  /** The link to position q, null past the end. */
  ghost function LinkTo(order: seq<nat>, q: nat): Link
  {
    if q < |order| then To(order[q]) else Nil
  }

  /** Level l is the chain of the nodes of height > l, in the order of `order`. */
  ghost predicate LinkedAt(nodes: seq<Node>, order: seq<nat>, l: nat)
    requires InArena(nodes, order)
  {
    forall k {:trigger nodes[order[k]].next[l]} :: 0 <= k < |order| && l < Height(nodes, order, k) ==>
      nodes[order[k]].next[l] == LinkTo(order, NextPos(nodes, order, k + 1, l))
  }

  /** Levels up to `cut` are linked as `lo` says and levels above it as `hi` says. */
  ghost predicate LinkedSplit(nodes: seq<Node>, lo: seq<nat>, hi: seq<nat>, cut: int)
    requires InArena(nodes, lo) && InArena(nodes, hi)
  {
    && (forall l: nat :: l <= cut ==> LinkedAt(nodes, lo, l))
    && (forall l: nat :: cut < l <= MAX ==> LinkedAt(nodes, hi, l))
  }

  /** Every level 0..MAX is linked as `order` says. */
  ghost predicate Linked(nodes: seq<Node>, order: seq<nat>)
    requires InArena(nodes, order)
  {
    forall l: nat :: l <= MAX ==> LinkedAt(nodes, order, l)
  }

  /**
   * The structural invariant: the head is the first node and has MAX+1 links, every node
   * has between 1 and MAX+1 links, and each level is the chain of the nodes that reach it.
   */
  ghost predicate WellFormed(nodes: seq<Node>, head: Link, order: seq<nat>)
  {
    && InArena(nodes, order)
    && Distinct(order)
    && (head == Nil <==> order == [])
    && (order != [] ==> head == To(order[0]) && Height(nodes, order, 0) == MAX + 1)
    && (forall k :: 0 <= k < |order| ==> 1 <= Height(nodes, order, k) <= MAX + 1)
    && Linked(nodes, order)
  }

  /** The level-0 chain holds strictly ascending elements (so no duplicates either). */
  ghost predicate Ascending(nodes: seq<Node>, order: seq<nat>)
    requires InArena(nodes, order)
  {
    forall i, j :: 0 <= i < j < |order| ==> Data(nodes, order, i) < Data(nodes, order, j)
  }

  /** The elements on the level-0 chain, in chain order. */
  ghost function Elements(nodes: seq<Node>, order: seq<nat>): (s: seq<int>)
    requires InArena(nodes, order)
    ensures |s| == |order|
    ensures forall k :: 0 <= k < |order| ==> s[k] == Data(nodes, order, k)
  {
    seq(|order|, k requires 0 <= k < |order| => nodes[order[k]].data)
  }

  /** The set the list represents. */
  ghost function Members(nodes: seq<Node>, order: seq<nat>): (s: set<int>)
    requires InArena(nodes, order)
    ensures forall v :: v in s <==> exists k :: 0 <= k < |order| && Data(nodes, order, k) == v
  {
    set k | 0 <= k < |order| :: Data(nodes, order, k)
  }

  /** The chain holds no element exactly when it is empty. */
  lemma MembersEmpty(nodes: seq<Node>, order: seq<nat>)
    ensures InArena(nodes, order) ==> (Members(nodes, order) == {} <==> order == [])
  {
    if InArena(nodes, order) && order != [] {
      assert Data(nodes, order, 0) in Members(nodes, order);
    }
  }

  /** The first position at or after j whose element is at least t, or |order|. */
  ghost function FirstAtLeast(nodes: seq<Node>, order: seq<nat>, j: nat, t: int): (q: nat)
    requires InArena(nodes, order) && j <= |order|
    ensures j <= q <= |order|
    ensures forall p :: j <= p < q ==> Data(nodes, order, p) < t
    ensures q < |order| ==> Data(nodes, order, q) >= t
    decreases |order| - j
  {
    if j == |order| || Data(nodes, order, j) >= t then j else FirstAtLeast(nodes, order, j + 1, t)
  }

  /**
   * o' is `order` with address a put at position i (described pointwise, so that proofs
   * never need the sequence operations behind `Insert`).
   */
  ghost predicate Inserted(order: seq<nat>, i: nat, a: nat, o': seq<nat>)
  {
    && i <= |order| && |o'| == |order| + 1 && o'[i] == a
    && (forall k :: 0 <= k < i ==> o'[k] == order[k])
    && (forall k :: i < k < |o'| ==> o'[k] == order[k - 1])
  }

  /** `order` with address a put at position i. */
  ghost function Insert(order: seq<nat>, i: nat, a: nat): (r: seq<nat>)
    requires i <= |order|
    ensures Inserted(order, i, a, r)
  {
    order[..i] + [a] + order[i..]
  }

  /** `order` without position i: putting order[i] back at i gives `order` again. */
  ghost function Without(order: seq<nat>, i: nat): (r: seq<nat>)
    requires i < |order|
    ensures |r| == |order| - 1
    ensures Inserted(r, i, order[i], order)
  {
    order[..i] + order[i + 1..]
  }

  /**
   * `nodes'` extends `nodes` and every node keeps its level: only links, elements and
   * nodes added at the end may differ.
   */
  ghost predicate SameHeights(nodes: seq<Node>, nodes': seq<Node>)
  {
    && |nodes| <= |nodes'|
    && forall b :: 0 <= b < |nodes| ==> |nodes'[b].next| == |nodes[b].next|
  }

  // ---------------------------------------------------------------------------
  // Lemmas about NextPos

  /** Every position NextPos passes over stays below level l. */
  lemma {:induction false} NextPosBelow(nodes: seq<Node>, order: seq<nat>, j: nat, l: nat)
    requires InArena(nodes, order) && j <= |order|
    ensures forall p :: j <= p < NextPos(nodes, order, j, l) ==> Height(nodes, order, p) <= l
    decreases |order| - j
  {
    if j < |order| && Height(nodes, order, j) <= l {
      NextPosBelow(nodes, order, j + 1, l);
    }
  }

  /** NextPos is determined by the heights: any position with its characterisation is it. */
  lemma {:induction false} NextPosIs(nodes: seq<Node>, order: seq<nat>, j: nat, l: nat, q: nat)
    requires InArena(nodes, order) && j <= q <= |order|
    requires forall p :: j <= p < q ==> Height(nodes, order, p) <= l
    requires q < |order| ==> Height(nodes, order, q) > l
    ensures NextPos(nodes, order, j, l) == q
    decreases q - j
  {
    if j < q {
      assert Height(nodes, order, j) <= l;
      NextPosIs(nodes, order, j + 1, l, q);
    }
  }

  /** Positions j..m-1 all stay below level l: the next node of level l is the same from j and m. */
  lemma NextPosSkip(nodes: seq<Node>, order: seq<nat>, j: nat, m: nat, l: nat)
    requires InArena(nodes, order) && j <= m <= |order|
    requires forall p :: j <= p < m ==> Height(nodes, order, p) <= l
    ensures NextPos(nodes, order, j, l) == NextPos(nodes, order, m, l)
  {
    NextPosBelow(nodes, order, m, l);
    NextPosIs(nodes, order, j, l, NextPos(nodes, order, m, l));
  }

  /** Links do not influence NextPos. */
  lemma NextPosSameHeights(nodes: seq<Node>, nodes': seq<Node>, order: seq<nat>, j: nat, l: nat)
    requires SameHeights(nodes, nodes') && InArena(nodes, order) && j <= |order|
    ensures InArena(nodes', order)
    ensures NextPos(nodes', order, j, l) == NextPos(nodes, order, j, l)
  {
    var q := NextPos(nodes, order, j, l);
    forall p | 0 <= p < |order| ensures Height(nodes', order, p) == Height(nodes, order, p) {
      assert order[p] < |nodes|;
    }
    NextPosBelow(nodes, order, j, l);
    NextPosIs(nodes', order, j, l, q);
  }

  // ---------------------------------------------------------------------------
  // Inserting one address into the chain

  lemma InsertInArena(nodes: seq<Node>, order: seq<nat>, i: nat, a: nat, o': seq<nat>)
    requires InArena(nodes, order) && a < |nodes| && Inserted(order, i, a, o')
    ensures InArena(nodes, o')
  {
    forall k | 0 <= k < |o'| ensures o'[k] < |nodes| {
      if k < i {
        assert o'[k] == order[k];
      } else if k > i {
        assert o'[k] == order[k - 1];
      }
    }
  }

  /** Inserting address a adds exactly a's element to the members. */
  lemma MembersInsert(nodes: seq<Node>, order: seq<nat>, i: nat, a: nat, o': seq<nat>)
    requires InArena(nodes, order) && a < |nodes| && Inserted(order, i, a, o')
    ensures InArena(nodes, o') && Members(nodes, o') == Members(nodes, order) + {nodes[a].data}
  {
    InsertInArena(nodes, order, i, a, o');
    forall x | x in Members(nodes, order) ensures x in Members(nodes, o') {
      var k :| 0 <= k < |order| && Data(nodes, order, k) == x;
      if k < i {
        assert Data(nodes, o', k) == x;
      } else {
        assert Data(nodes, o', k + 1) == x;
      }
    }
    assert Data(nodes, o', i) == nodes[a].data;
    forall x | x in Members(nodes, o') ensures x in Members(nodes, order) + {nodes[a].data} {
      var k :| 0 <= k < |o'| && Data(nodes, o', k) == x;
      if k < i {
        assert Data(nodes, order, k) == x;
      } else if k > i {
        assert Data(nodes, order, k - 1) == x;
      }
    }
  }

  /** Past the inserted position everything moves up by one. */
  lemma NextPosInsertAbove(nodes: seq<Node>, order: seq<nat>, i: nat, a: nat, o': seq<nat>, j: nat, l: nat)
    requires InArena(nodes, order) && Inserted(order, i, a, o') && InArena(nodes, o') && i < j <= |o'|
    ensures NextPos(nodes, o', j, l) == NextPos(nodes, order, j - 1, l) + 1
  {
    var q := NextPos(nodes, order, j - 1, l);
    NextPosBelow(nodes, order, j - 1, l);
    forall p | j <= p < q + 1 ensures Height(nodes, o', p) <= l {
      assert o'[p] == order[p - 1];
      assert Height(nodes, order, p - 1) <= l;
    }
    if q + 1 < |o'| {
      assert o'[q + 1] == order[q];
    }
    NextPosIs(nodes, o', j, l, q + 1);
  }

  /** Before the inserted position, a search that stops before it is unchanged. */
  lemma NextPosInsertBefore(nodes: seq<Node>, order: seq<nat>, i: nat, a: nat, o': seq<nat>, j: nat, l: nat)
    requires InArena(nodes, order) && Inserted(order, i, a, o') && InArena(nodes, o') && j <= i
    requires NextPos(nodes, order, j, l) < i
    ensures NextPos(nodes, o', j, l) == NextPos(nodes, order, j, l)
  {
    var q := NextPos(nodes, order, j, l);
    NextPosBelow(nodes, order, j, l);
    forall p | j <= p < q ensures Height(nodes, o', p) <= l {
      assert o'[p] == order[p];
      assert Height(nodes, order, p) <= l;
    }
    assert o'[q] == order[q];
    NextPosIs(nodes, o', j, l, q);
  }

  /** A search that reaches the inserted position stops there when the new node takes part in level l. */
  lemma NextPosInsertHigh(nodes: seq<Node>, order: seq<nat>, i: nat, a: nat, o': seq<nat>, j: nat, l: nat)
    requires InArena(nodes, order) && Inserted(order, i, a, o') && InArena(nodes, o') && j <= i
    requires NextPos(nodes, order, j, l) >= i && l < |nodes[a].next|
    ensures NextPos(nodes, o', j, l) == i
  {
    NextPosBelow(nodes, order, j, l);
    forall p | j <= p < i ensures Height(nodes, o', p) <= l {
      assert o'[p] == order[p];
      assert Height(nodes, order, p) <= l;
    }
    NextPosIs(nodes, o', j, l, i);
  }

  /** A search that reaches the inserted position passes over it when the new node stays below level l. */
  lemma NextPosInsertLow(nodes: seq<Node>, order: seq<nat>, i: nat, a: nat, o': seq<nat>, j: nat, l: nat)
    requires InArena(nodes, order) && Inserted(order, i, a, o') && InArena(nodes, o') && j <= i
    requires NextPos(nodes, order, j, l) >= i && |nodes[a].next| <= l
    ensures NextPos(nodes, o', j, l) == NextPos(nodes, order, j, l) + 1
  {
    var q := NextPos(nodes, order, j, l);
    NextPosBelow(nodes, order, j, l);
    forall p | j <= p < q + 1 ensures Height(nodes, o', p) <= l {
      if p < i {
        assert o'[p] == order[p];
        assert Height(nodes, order, p) <= l;
      } else if i < p {
        assert o'[p] == order[p - 1];
        assert Height(nodes, order, p - 1) <= l;
      }
    }
    if q + 1 < |o'| {
      assert o'[q + 1] == order[q];
    }
    NextPosIs(nodes, o', j, l, q + 1);
  }

  lemma LinkToInsertAbove(order: seq<nat>, i: nat, a: nat, o': seq<nat>, q: nat)
    requires Inserted(order, i, a, o') && i <= q
    ensures LinkTo(o', q + 1) == LinkTo(order, q)
  {
    if q < |order| {
      assert o'[q + 1] == order[q];
    }
  }

  lemma LinkToInsertBefore(order: seq<nat>, i: nat, a: nat, o': seq<nat>, q: nat)
    requires Inserted(order, i, a, o') && q < i
    ensures LinkTo(o', q) == LinkTo(order, q)
  {
    assert o'[q] == order[q];
  }

  lemma SameHeightsInArena(nodes: seq<Node>, nodes': seq<Node>, order: seq<nat>)
    requires SameHeights(nodes, nodes') && InArena(nodes, order)
    ensures InArena(nodes', order)
    ensures forall k :: 0 <= k < |order| ==> Height(nodes', order, k) == Height(nodes, order, k)
  {
    forall k | 0 <= k < |order| ensures Height(nodes', order, k) == Height(nodes, order, k) {
      assert order[k] < |nodes|;
    }
  }

  // ---------------------------------------------------------------------------
  // Lemmas about linkage

  /** Changing links at levels other than l, or of nodes off the chain, leaves level l as it was. */
  lemma LinkedAtFrame(nodes: seq<Node>, nodes': seq<Node>, order: seq<nat>, l: nat)
    requires SameHeights(nodes, nodes') && InArena(nodes, order)
    requires forall k :: 0 <= k < |order| && l < Height(nodes, order, k) ==>
      nodes'[order[k]].next[l] == nodes[order[k]].next[l]
    ensures InArena(nodes', order)
    ensures LinkedAt(nodes', order, l) <==> LinkedAt(nodes, order, l)
  {
    SameHeightsInArena(nodes, nodes', order);
    forall j | 1 <= j <= |order|
      ensures NextPos(nodes', order, j, l) == NextPos(nodes, order, j, l)
    {
      NextPosSameHeights(nodes, nodes', order, j, l);
    }
  }

  /** A node too low for level l is invisible there: inserting it leaves level l as it was. */
  lemma LinkedAtInsertLow(nodes: seq<Node>, order: seq<nat>, i: nat, a: nat, o': seq<nat>, l: nat)
    requires InArena(nodes, order) && a < |nodes| && Inserted(order, i, a, o') && |nodes[a].next| <= l
    ensures InArena(nodes, o')
    ensures LinkedAt(nodes, o', l) <==> LinkedAt(nodes, order, l)
  {
    InsertInArena(nodes, order, i, a, o');
    if LinkedAt(nodes, order, l) {
      forall k | 0 <= k < |o'| && l < Height(nodes, o', k)
        ensures nodes[o'[k]].next[l] == LinkTo(o', NextPos(nodes, o', k + 1, l))
      {
        InsertLowKeeps(nodes, order, i, a, o', l, k);
      }
    }
    if LinkedAt(nodes, o', l) {
      forall k | 0 <= k < |order| && l < Height(nodes, order, k)
        ensures nodes[order[k]].next[l] == LinkTo(order, NextPos(nodes, order, k + 1, l))
      {
        InsertLowReflects(nodes, order, i, a, o', l, k);
      }
    }
  }

  lemma InsertLowKeeps(nodes: seq<Node>, order: seq<nat>, i: nat, a: nat, o': seq<nat>, l: nat, k: nat)
    requires InArena(nodes, order) && a < |nodes| && Inserted(order, i, a, o') && |nodes[a].next| <= l
    requires LinkedAt(nodes, order, l) && InArena(nodes, o')
    requires k < |o'| && l < Height(nodes, o', k)
    ensures nodes[o'[k]].next[l] == LinkTo(o', NextPos(nodes, o', k + 1, l))
  {
    if k < i {
      assert o'[k] == order[k];
      assert l < Height(nodes, order, k);
      LowSuccBefore(nodes, order, i, a, o', l, k);
    } else {
      assert o'[k] == order[k - 1];
      assert l < Height(nodes, order, k - 1);
      SuccAfter(nodes, order, i, a, o', l, k);
    }
  }

  lemma InsertLowReflects(nodes: seq<Node>, order: seq<nat>, i: nat, a: nat, o': seq<nat>, l: nat, k: nat)
    requires InArena(nodes, order) && a < |nodes| && Inserted(order, i, a, o') && |nodes[a].next| <= l
    requires InArena(nodes, o') && LinkedAt(nodes, o', l)
    requires k < |order| && l < Height(nodes, order, k)
    ensures nodes[order[k]].next[l] == LinkTo(order, NextPos(nodes, order, k + 1, l))
  {
    if k < i {
      assert o'[k] == order[k];
      assert l < Height(nodes, o', k);
      LowSuccBefore(nodes, order, i, a, o', l, k);
    } else {
      assert o'[k + 1] == order[k];
      assert l < Height(nodes, o', k + 1);
      SuccAfter(nodes, order, i, a, o', l, k + 1);
    }
  }

  /** Seen from a position before a low inserted node, the next node of level l is the same one. */
  lemma LowSuccBefore(nodes: seq<Node>, order: seq<nat>, i: nat, a: nat, o': seq<nat>, l: nat, m: nat)
    requires InArena(nodes, order) && a < |nodes| && Inserted(order, i, a, o') && |nodes[a].next| <= l
    requires InArena(nodes, o') && m < i
    ensures LinkTo(o', NextPos(nodes, o', m + 1, l)) == LinkTo(order, NextPos(nodes, order, m + 1, l))
  {
    var q := NextPos(nodes, order, m + 1, l);
    if q < i {
      NextPosInsertBefore(nodes, order, i, a, o', m + 1, l);
      LinkToInsertBefore(order, i, a, o', q);
    } else {
      NextPosInsertLow(nodes, order, i, a, o', m + 1, l);
      LinkToInsertAbove(order, i, a, o', q);
    }
  }

  /** Seen from a position after the inserted node, the next node of level l is the same one. */
  lemma SuccAfter(nodes: seq<Node>, order: seq<nat>, i: nat, a: nat, o': seq<nat>, l: nat, j: nat)
    requires InArena(nodes, order) && Inserted(order, i, a, o') && InArena(nodes, o') && i <= j <= |order|
    ensures LinkTo(o', NextPos(nodes, o', j + 1, l)) == LinkTo(order, NextPos(nodes, order, j, l))
  {
    NextPosInsertAbove(nodes, order, i, a, o', j + 1, l);
    LinkToInsertAbove(order, i, a, o', NextPos(nodes, order, j, l));
  }

  /**
   * nodes' is nodes with address a spliced into level l at position `ins`: a takes over
   * the link of its predecessor at position `pos` (the last node of level l before `ins`),
   * the predecessor now links to a, and no other link of level l changes.
   */
  ghost predicate SplicedAt(nodes: seq<Node>, nodes': seq<Node>, order: seq<nat>, pos: nat, ins: nat, a: nat, l: nat)
  {
    && InArena(nodes, order) && Distinct(order) && LinkedAt(nodes, order, l)
    && pos < ins <= |order| && l < Height(nodes, order, pos)
    && (forall p :: pos < p < ins ==> Height(nodes, order, p) <= l)
    && a < |nodes| && a !in order && l < |nodes[a].next|
    && SameHeights(nodes, nodes')
    && (forall b {:trigger nodes'[b].next[l]} :: 0 <= b < |nodes| && b != a && b != order[pos] && l < |nodes[b].next| ==>
         nodes'[b].next[l] == nodes[b].next[l])
    && nodes'[a].next[l] == LinkTo(order, NextPos(nodes, order, pos + 1, l))
    && nodes'[order[pos]].next[l] == To(a)
  }

  /** After the splice, level l is the chain of `order` with a inserted at `ins`. */
  lemma SpliceAt(nodes: seq<Node>, nodes': seq<Node>, order: seq<nat>, pos: nat, ins: nat, a: nat, o': seq<nat>, l: nat)
    requires SplicedAt(nodes, nodes', order, pos, ins, a, l) && Inserted(order, ins, a, o')
    ensures InArena(nodes', o')
    ensures LinkedAt(nodes', o', l)
  {
    InsertInArena(nodes, order, ins, a, o');
    SameHeightsInArena(nodes, nodes', o');
    forall k | 0 <= k < |o'| && l < Height(nodes', o', k)
      ensures nodes'[o'[k]].next[l] == LinkTo(o', NextPos(nodes', o', k + 1, l))
    {
      NextPosSameHeights(nodes, nodes', o', k + 1, l);
      SpliceOne(nodes, nodes', order, pos, ins, a, o', l, k);
    }
  }

  lemma SpliceOne(nodes: seq<Node>, nodes': seq<Node>, order: seq<nat>, pos: nat, ins: nat, a: nat, o': seq<nat>, l: nat, k: nat)
    requires SplicedAt(nodes, nodes', order, pos, ins, a, l) && Inserted(order, ins, a, o') && InArena(nodes, o')
    requires k < |o'| && l < Height(nodes, o', k)
    ensures nodes'[o'[k]].next[l] == LinkTo(o', NextPos(nodes, o', k + 1, l))
  {
    if k < pos {
      assert o'[k] == order[k];
      SpliceKeepBefore(nodes, nodes', order, pos, ins, a, o', l, k);
    } else if k == pos {
      SplicePredecessor(nodes, nodes', order, pos, ins, a, o', l);
    } else if k < ins {
      assert o'[k] == order[k];
      GapIsLow(nodes, order, pos, ins, l, k);
      assert false;
    } else if k == ins {
      SpliceNew(nodes, nodes', order, pos, ins, a, o', l);
    } else {
      assert o'[k] == order[k - 1];
      SpliceKeepAfter(nodes, nodes', order, pos, ins, a, o', l, k);
    }
  }

  lemma SpliceKeepBefore(nodes: seq<Node>, nodes': seq<Node>, order: seq<nat>, pos: nat, ins: nat, a: nat, o': seq<nat>, l: nat, k: nat)
    requires SplicedAt(nodes, nodes', order, pos, ins, a, l) && Inserted(order, ins, a, o') && InArena(nodes, o')
    requires k < pos && l < Height(nodes, order, k)
    ensures nodes'[o'[k]].next[l] == LinkTo(o', NextPos(nodes, o', k + 1, l))
  {
    assert o'[k] == order[k] != order[pos];
    assert nodes'[order[k]].next[l] == nodes[order[k]].next[l];
    NextPosBelow(nodes, order, k + 1, l);
    var q := NextPos(nodes, order, k + 1, l);
    assert q <= pos;
    NextPosInsertBefore(nodes, order, ins, a, o', k + 1, l);
    LinkToInsertBefore(order, ins, a, o', q);
  }

  lemma SplicePredecessor(nodes: seq<Node>, nodes': seq<Node>, order: seq<nat>, pos: nat, ins: nat, a: nat, o': seq<nat>, l: nat)
    requires SplicedAt(nodes, nodes', order, pos, ins, a, l) && Inserted(order, ins, a, o') && InArena(nodes, o')
    ensures nodes'[o'[pos]].next[l] == LinkTo(o', NextPos(nodes, o', pos + 1, l))
  {
    assert o'[pos] == order[pos];
    NextPosSkip(nodes, order, pos + 1, ins, l);
    NextPosInsertHigh(nodes, order, ins, a, o', pos + 1, l);
  }

  lemma SpliceNew(nodes: seq<Node>, nodes': seq<Node>, order: seq<nat>, pos: nat, ins: nat, a: nat, o': seq<nat>, l: nat)
    requires SplicedAt(nodes, nodes', order, pos, ins, a, l) && Inserted(order, ins, a, o') && InArena(nodes, o')
    ensures nodes'[o'[ins]].next[l] == LinkTo(o', NextPos(nodes, o', ins + 1, l))
  {
    NextPosSkip(nodes, order, pos + 1, ins, l);
    SuccAfter(nodes, order, ins, a, o', l, ins);
  }

  lemma SpliceKeepAfter(nodes: seq<Node>, nodes': seq<Node>, order: seq<nat>, pos: nat, ins: nat, a: nat, o': seq<nat>, l: nat, k: nat)
    requires SplicedAt(nodes, nodes', order, pos, ins, a, l) && Inserted(order, ins, a, o') && InArena(nodes, o')
    requires ins < k < |o'| && l < Height(nodes, order, k - 1)
    ensures nodes'[o'[k]].next[l] == LinkTo(o', NextPos(nodes, o', k + 1, l))
  {
    assert o'[k] == order[k - 1] != order[pos];
    assert nodes'[order[k - 1]].next[l] == nodes[order[k - 1]].next[l];
    SuccAfter(nodes, order, ins, a, o', l, k);
  }

  /** Between a node of level l and the next one, every node stays below level l. */
  lemma GapIsLow(nodes: seq<Node>, order: seq<nat>, pos: nat, ins: nat, l: nat, k: nat)
    requires InArena(nodes, order) && pos < k < ins <= |order|
    requires forall p :: pos < p < ins ==> Height(nodes, order, p) <= l
    ensures Height(nodes, order, k) <= l
  {
  }

  /**
   * nodes' is nodes with the node at position d unlinked from level l: its predecessor at
   * position `pos` (the last node of level l before d) takes over d's link, and no other
   * link of level l changes.
   */
  ghost predicate UnlinkedAt(nodes: seq<Node>, nodes': seq<Node>, order: seq<nat>, pos: nat, d: nat, l: nat)
  {
    && InArena(nodes, order) && Distinct(order) && LinkedAt(nodes, order, l)
    && pos < d < |order| && l < Height(nodes, order, pos) && l < Height(nodes, order, d)
    && (forall p :: pos < p < d ==> Height(nodes, order, p) <= l)
    && SameHeights(nodes, nodes')
    && (forall b {:trigger nodes'[b].next[l]} :: 0 <= b < |nodes| && b != order[pos] && l < |nodes[b].next| ==>
         nodes'[b].next[l] == nodes[b].next[l])
    && nodes'[order[pos]].next[l] == nodes[order[d]].next[l]
  }

  /** After the unlink, level l is the chain of `order` without position d. */
  lemma UnlinkAt(nodes: seq<Node>, nodes': seq<Node>, order: seq<nat>, pos: nat, d: nat, o': seq<nat>, l: nat)
    requires UnlinkedAt(nodes, nodes', order, pos, d, l) && Inserted(o', d, order[d], order)
    ensures InArena(nodes', o')
    ensures LinkedAt(nodes', o', l)
  {
    WithoutInArena(nodes, order, d, o');
    SameHeightsInArena(nodes, nodes', o');
    forall k | 0 <= k < |o'| && l < Height(nodes', o', k)
      ensures nodes'[o'[k]].next[l] == LinkTo(o', NextPos(nodes', o', k + 1, l))
    {
      NextPosSameHeights(nodes, nodes', o', k + 1, l);
      UnlinkOne(nodes, nodes', order, pos, d, o', l, k);
    }
  }

  lemma WithoutInArena(nodes: seq<Node>, order: seq<nat>, d: nat, o': seq<nat>)
    requires InArena(nodes, order) && d < |order| && Inserted(o', d, order[d], order)
    ensures InArena(nodes, o')
  {
    forall k | 0 <= k < |o'| ensures o'[k] < |nodes| {
      if k < d {
        assert o'[k] == order[k];
      } else {
        assert o'[k] == order[k + 1];
      }
    }
  }

  lemma UnlinkOne(nodes: seq<Node>, nodes': seq<Node>, order: seq<nat>, pos: nat, d: nat, o': seq<nat>, l: nat, k: nat)
    requires UnlinkedAt(nodes, nodes', order, pos, d, l) && Inserted(o', d, order[d], order) && InArena(nodes, o')
    requires k < |o'| && l < Height(nodes, o', k)
    ensures nodes'[o'[k]].next[l] == LinkTo(o', NextPos(nodes, o', k + 1, l))
  {
    if k < pos {
      assert o'[k] == order[k];
      UnlinkKeepBefore(nodes, nodes', order, pos, d, o', l, k);
    } else if k == pos {
      assert o'[pos] == order[pos];
      UnlinkPredecessor(nodes, nodes', order, pos, d, o', l);
    } else if k < d {
      assert o'[k] == order[k];
      GapIsLow(nodes, order, pos, d, l, k);
      assert false;
    } else {
      assert o'[k] == order[k + 1];
      UnlinkKeepAfter(nodes, nodes', order, pos, d, o', l, k);
    }
  }

  lemma UnlinkKeepBefore(nodes: seq<Node>, nodes': seq<Node>, order: seq<nat>, pos: nat, d: nat, o': seq<nat>, l: nat, k: nat)
    requires UnlinkedAt(nodes, nodes', order, pos, d, l) && Inserted(o', d, order[d], order) && InArena(nodes, o')
    requires k < pos && l < Height(nodes, order, k)
    ensures nodes'[o'[k]].next[l] == LinkTo(o', NextPos(nodes, o', k + 1, l))
  {
    assert o'[k] == order[k] != order[pos];
    assert nodes'[order[k]].next[l] == nodes[order[k]].next[l];
    assert o'[pos] == order[pos];
    assert l < Height(nodes, o', pos);
    NextPosBelow(nodes, o', k + 1, l);
    var q := NextPos(nodes, o', k + 1, l);
    assert q <= pos;
    NextPosInsertBefore(nodes, o', d, order[d], order, k + 1, l);
    LinkToInsertBefore(o', d, order[d], order, q);
  }

  lemma UnlinkPredecessor(nodes: seq<Node>, nodes': seq<Node>, order: seq<nat>, pos: nat, d: nat, o': seq<nat>, l: nat)
    requires UnlinkedAt(nodes, nodes', order, pos, d, l) && Inserted(o', d, order[d], order) && InArena(nodes, o')
    ensures nodes'[order[pos]].next[l] == LinkTo(o', NextPos(nodes, o', pos + 1, l))
  {
    forall p | pos + 1 <= p < d ensures Height(nodes, o', p) <= l {
      assert o'[p] == order[p];
      GapIsLow(nodes, order, pos, d, l, p);
    }
    NextPosSkip(nodes, o', pos + 1, d, l);
    SuccAfter(nodes, o', d, order[d], order, l, d);
  }

  lemma UnlinkKeepAfter(nodes: seq<Node>, nodes': seq<Node>, order: seq<nat>, pos: nat, d: nat, o': seq<nat>, l: nat, k: nat)
    requires UnlinkedAt(nodes, nodes', order, pos, d, l) && Inserted(o', d, order[d], order) && InArena(nodes, o')
    requires d <= k < |o'| && l < Height(nodes, order, k + 1)
    ensures nodes'[o'[k]].next[l] == LinkTo(o', NextPos(nodes, o', k + 1, l))
  {
    assert o'[k] == order[k + 1] != order[pos];
    assert nodes'[order[k + 1]].next[l] == nodes[order[k + 1]].next[l];
    SuccAfter(nodes, o', d, order[d], order, l, k + 1);
  }
}
