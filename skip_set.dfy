/**
 * The skip list itself: a head node of level MAX holding the smallest element, and for
 * each level a sorted singly linked chain of the nodes that take part in it.
 */
module SkipSet {
  import opened SkipNodes
  import opened SkipLayout
  import opened SkipSearch
  import opened SkipStore
  import opened SkipInsert
  import opened SkipRemove

  /** The elements of a sequence. */
  ghost function Elems(values: seq<int>): (s: set<int>)
    ensures forall x :: x in s <==> x in values
  {
    set x | x in values
  }

  /** Every value is new to s and to the values before it: every add of them is accepted. */
  ghost predicate AllNew(s: set<int>, values: seq<int>)
  {
    && (forall i :: 0 <= i < |values| ==> values[i] !in s)
    && (forall i, j :: 0 <= i < j < |values| ==> values[i] != values[j])
  }

  /**
   * The values, added in turn to s, are each accepted: each is new to s and to the values
   * added before it. This is how `addAll` folds the results of its adds with `&=`.
   */
  ghost predicate EveryAddAccepted(s: set<int>, values: seq<int>)
    decreases |values|
  {
    || |values| == 0
    || (var n := |values| - 1;
        EveryAddAccepted(s, values[..n]) && values[n] !in s + Elems(values[..n]))
  }

  /** Accepting every add in turn is the same as the values being new and pairwise distinct. */
  lemma {:induction false} EveryAddAcceptedIsAllNew(s: set<int>, values: seq<int>)
    ensures EveryAddAccepted(s, values) <==> AllNew(s, values)
    decreases |values|
  {
    if |values| > 0 {
      var n := |values| - 1;
      var u := values[..n];
      EveryAddAcceptedIsAllNew(s, u);
      assert forall i :: 0 <= i < n ==> values[i] == u[i];
      if AllNew(s, values) {
        forall i | 0 <= i < n ensures u[i] != values[n] {
          assert values[i] != values[n];
        }
      }
      if EveryAddAccepted(s, values) {
        forall i, j | 0 <= i < j < |values| ensures values[i] != values[j] {
          if j == n {
            assert u[i] in Elems(u);
          } else {
            assert u[i] != u[j];
          }
        }
      }
    }
  }

  /** One more add in `addAll`: its acceptance joins the others', and its value the contents. */
  lemma AddAllStep(s0: set<int>, values: seq<int>, i: nat, c: set<int>, r: bool, added: bool)
    requires i < |values| && c == s0 + Elems(values[..i]) && (r <==> EveryAddAccepted(s0, values[..i]))
    requires added <==> values[i] !in c
    ensures c + {values[i]} == s0 + Elems(values[..i + 1])
    ensures r && added <==> EveryAddAccepted(s0, values[..i + 1])
  {
    var u, w := values[..i], values[..i + 1];
    assert w[..i] == u;
    assert w == u + [values[i]];
  }

  /**
   * `remove(v)` as written throws: v is the head's element and the head has a successor
   * below level MAX, from whose link array the unlink reads past the end.
   */
  ghost predicate HeadRemovalThrows(nodes: seq<Node>, head: Link, order: seq<nat>, v: int)
  {
    && head != Nil && head.addr < |nodes| && nodes[head.addr].data == v
    && 2 <= |order| && InArena(nodes, order) && Height(nodes, order, 1) <= MAX
  }

  class SkipList {
    /** The node store: `Link.To(b)` refers to `nodes[b]`. */
    var nodes: seq<Node>
    var head: Link
    var size: int
    /** The addresses on the level-0 chain, head first. */
    ghost var Order: seq<nat>

    /** The linked structure, which is all that the searches read. */
    ghost predicate Structured()
      reads this
    {
      WellFormed(nodes, head, Order) && Ascending(nodes, Order)
    }

    /** ... and the size counter matches it. */
    ghost predicate Valid()
      reads this
    {
      Structured() && size == |Order|
    }

    /** The elements the list holds. */
    ghost function Contents(): set<int>
      reads this
      requires InArena(nodes, Order)
    {
      Members(nodes, Order)
    }

    /** The empty list. */
    constructor ()
      ensures Valid() && Contents() == {} && size == 0
    {
      nodes := [];
      head := Nil;
      size := 0;
      Order := [];
    }

    /**
     * The inner loop that the searches of `add`, `contains` and `remove` share: from the
     * node at `start` on level cur, move right while the next node's element is below t.
     * It stops on the last node of level cur before the first element at least t, and
     * `next` is that node's link on level cur.
     */
    method Walk(start: nat, cur: nat, t: int, ghost base: seq<Node>, ghost order: seq<nat>, ghost from: nat)
      returns (prev: nat, next: Link, ghost pos: nat)
      requires Searching(base, order, t, from, cur) && Ascending(base, order) && start == order[from]
      requires SameHeights(base, nodes) && SameData(base, nodes) && InArena(nodes, order) && LinkedAt(nodes, order, cur)
      ensures from <= pos && Searching(base, order, t, pos, cur) && prev == order[pos]
      ensures next == LinkTo(order, NextPos(base, order, pos + 1, cur))
      ensures next == Nil || nodes[next.addr].data >= t
    {
      prev, pos := start, from;
      LinkOf(base, nodes, order, pos, cur);
      next := GetNext(nodes[prev], cur).value;
      while next != Nil && nodes[next.addr].data < t
        invariant from <= pos && Searching(base, order, t, pos, cur) && prev == order[pos]
        invariant next == LinkTo(order, NextPos(base, order, pos + 1, cur))
        decreases |order| - pos
      {
        SearchAdvance(base, order, t, pos, cur);
        pos := NextPos(base, order, pos + 1, cur);
        prev := next.addr;
        LinkOf(base, nodes, order, pos, cur);
        next := GetNext(nodes[prev], cur).value;
      }
    }

    /**
     * The top-down search that `contains` and `remove` run once the head is known not to
     * hold v: on each level, walk to the last node before v and drop a level, until the
     * walk meets v (at its top level, `level`) or passes level 0.
     */
    method Locate(v: int) returns (found: bool, prev: nat, node: nat, level: nat, ghost pos: nat, ghost d: nat)
      requires Structured() && head != Nil && nodes[head.addr].data != v
      ensures found <==> v in Contents()
      ensures found ==>
        && Searching(nodes, Order, v, pos, level) && d == NextPos(nodes, Order, pos + 1, level)
        && d < |Order| && Data(nodes, Order, d) == v && prev == Order[pos] && node == Order[d]
    {
      prev, pos := head.addr, 0;
      var cur: int := MAX;
      SearchStart(nodes, head, Order, v);
      assert SameHeights(nodes, nodes) && SameData(nodes, nodes);
      while cur >= 0
        invariant Searching(nodes, Order, v, pos, cur) && prev == Order[pos]
        decreases cur
      {
        assert LinkedAt(nodes, Order, cur);
        var next;
        prev, next, pos := Walk(prev, cur, v, nodes, Order, pos);
        if next != Nil && nodes[next.addr].data == v {
          d := NextPos(nodes, Order, pos + 1, cur);
          assert Data(nodes, Order, d) == v;
          return true, prev, next.addr, cur, pos, d;
        }
        SearchDescend(nodes, Order, v, pos, cur);
        cur := cur - 1;
      }
      SearchEnd(nodes, Order, v, pos);
      Absent(nodes, Order, v);
      return false, prev, 0, 0, pos, 0;
    }

    /** `contains`: the head is checked first, then the top-down search. */
    method Contains(v: int) returns (r: bool)
      requires Structured()
      ensures r <==> v in Contents()
    {
      if head == Nil {
        return false;
      }
      if nodes[head.addr].data == v {
        assert Data(nodes, Order, 0) == v;
        return true;
      }
      var found, prev, node, level, pos, d := Locate(v);
      return found;
    }

    /** `containsAll(values)`: stops with false at the first value the list does not hold. */
    method ContainsAll(values: seq<int>) returns (r: bool)
      requires Structured()
      ensures r <==> forall i :: 0 <= i < |values| ==> values[i] in Contents()
    {
      var i := 0;
      while i < |values|
        invariant 0 <= i <= |values|
        invariant forall j :: 0 <= j < i ==> values[j] in Contents()
      {
        var present := Contains(values[i]);
        if !present {
          return false;
        }
        i := i + 1;
      }
      return true;
    }

    /** `Node.setNext`: rewrites one link of one node; the level must exist in that node. */
    method SetNext(a: nat, l: nat, x: Link)
      requires a < |nodes| && l < |nodes[a].next|
      modifies this
      ensures nodes == SetLink(old(nodes), a, l, x)
      ensures head == old(head) && size == old(size) && Order == old(Order)
    {
      nodes := nodes[a := Node(nodes[a].data, nodes[a].next[l := x])];
    }

    /** `swapNode`: the two nodes trade elements and keep their links. */
    method SwapNode(a: nat, b: nat)
      requires a < |nodes| && b < |nodes|
      modifies this
      ensures nodes == SwapData(old(nodes), a, b)
      ensures head == old(head) && size == old(size) && Order == old(Order)
    {
      var value := nodes[a].data;
      nodes := nodes[a := Node(nodes[b].data, nodes[a].next)];
      nodes := nodes[b := Node(value, nodes[b].next)];
    }

    /**
     * The splice `add` performs on each level of the new node, from the top down: the new
     * node takes over the link of the last node before it on level l, which then links to
     * the new node.
     */
    method SpliceLevel(node: nat, prev: nat, l: nat, next: Link, ghost nodes0: seq<Node>, ghost head0: Link,
                       ghost order: seq<nat>, ghost level: nat, ghost v: int, ghost base: seq<Node>,
                       ghost ins: nat, ghost o': seq<nat>, ghost pos: nat)
      requires Descending(nodes0, head0, order, level, v, base, nodes, ins, o', pos, l) && l <= level
      requires node == |nodes0| && prev == order[pos]
      requires NextPos(base, order, pos + 1, l) == |order| ||
        Data(base, order, NextPos(base, order, pos + 1, l)) > base[node].data
      requires next == LinkTo(order, NextPos(base, order, pos + 1, l))
      modifies this
      ensures nodes == SetLink(SetLink(old(nodes), node, l, next), prev, l, To(node))
      ensures head == old(head) && size == old(size) && Order == old(Order)
      ensures Descending(nodes0, head0, order, level, v, base, nodes, ins, o', pos, l - 1)
    {
      SetNext(node, l, next);
      SetNext(prev, l, To(node));
      AddSpliced(nodes0, head0, order, level, v, base, old(nodes), nodes, ins, o', pos, l, next);
    }

    /**
     * One level of the descent of `add`: walk to the last node before the new node's
     * element on level cur; meeting that element ends `add` (met), otherwise the new node
     * is spliced in on this level when it takes part in it.
     */
    method DescendLevel(node: nat, prev: nat, cur: nat, ghost nodes0: seq<Node>, ghost order: seq<nat>,
                        level: nat, ghost v: int, ghost base: seq<Node>, ghost ins: nat,
                        ghost o': seq<nat>, ghost pos: nat)
      returns (met: bool, last: nat, ghost pos': nat)
      requires Descending(nodes0, head, order, level, v, base, nodes, ins, o', pos, cur) && prev == order[pos]
      requires node == |nodes0| && o' == Insert(order, ins, node)
      modifies this
      ensures head == old(head) && size == old(size) && Order == old(Order)
      ensures met ==> Rejected(nodes0, head, order, level, v, nodes)
      ensures !met ==> Descending(nodes0, head, order, level, v, base, nodes, ins, o', pos', cur - 1) && last == order[pos']
    {
      assert LinkedAt(nodes, order, cur);
      var next;
      last, next, pos' := Walk(prev, cur, nodes[node].data, base, order, pos);
      if next != Nil && nodes[next.addr].data == nodes[node].data {
        AddMet(nodes0, head, order, level, v, base, nodes, ins, o', pos', cur);
        return true, last, pos';
      }
      if cur <= level {
        SpliceLevel(node, last, cur, next, nodes0, head, order, level, v, base, ins, o', pos');
      } else {
        AddPass(nodes0, head, order, level, v, base, nodes, ins, o', pos', cur);
      }
      met := false;
    }

    /**
     * The top-down descent of `add`, from the head on level MAX down to level 0; it ends
     * early, with false, when it meets the new node's element.
     */
    method Descend(node: nat, level: nat, ghost nodes0: seq<Node>, ghost order: seq<nat>, ghost v: int,
                   ghost base: seq<Node>, ghost ins: nat, ghost o': seq<nat>)
      returns (r: bool)
      requires Descending(nodes0, head, order, level, v, base, nodes, ins, o', 0, MAX)
      requires node == |nodes0| && Order == order && o' == Insert(order, ins, node)
      modifies this
      ensures head == old(head)
      ensures r ==> Order == o' && size == old(size) + 1 && Completed(nodes0, head, order, v, nodes, ins, o')
      ensures r ==> |nodes| == node + 1 && |nodes[node].next| == level + 1
      ensures !r ==> Order == order && size == old(size) && Rejected(nodes0, head, order, level, v, nodes)
    {
      var prev := head.addr;
      ghost var pos: nat := 0;
      var cur: int := MAX;
      while cur >= 0
        invariant Order == order && head == old(head) && size == old(size)
        invariant Descending(nodes0, head, order, level, v, base, nodes, ins, o', pos, cur) && prev == order[pos]
        decreases cur
      {
        var met;
        met, prev, pos := DescendLevel(node, prev, cur, nodes0, order, level, v, base, ins, o', pos);
        if met {
          return false;
        }
        cur := cur - 1;
      }
      AddDone(nodes0, head, order, level, v, base, nodes, ins, o', pos);
      Order := o';
      size := size + 1;
      return true;
    }

    /**
     * `add(value)`, with the level the source draws at random passed in. It inserts the
     * element as the source does, including the two ways the source mishandles an element
     * that is already there.
     */
    method Add(v: int, level: int) returns (r: bool)
      requires Structured() && 1 <= level <= MAX
      modifies this
      // the first element becomes the head, at level MAX
      ensures old(head) == Nil ==>
        && r && Structured() && Contents() == {v} && size == old(size) + 1 && (old(Valid()) ==> Valid())
        && |nodes| == old(|nodes|) + 1 && Order == [old(|nodes|)] && |nodes[old(|nodes|)].next| == MAX + 1
      // a new element: added, and the list is a skip list again, in which the new node
      // takes part in levels 0 to `level`
      ensures old(head) != Nil && v !in old(Contents()) ==>
        && r && Structured() && head == old(head) && (old(Valid()) ==> Valid())
        && Contents() == old(Contents()) + {v} && size == old(size) + 1
        && |nodes| == old(|nodes|) + 1 && old(|nodes|) in Order && |nodes[old(|nodes|)].next| == level + 1
      // the head's element again: never compared, so a second node holding it follows the head
      ensures old(head) != Nil && old(nodes[head.addr].data) == v ==>
        && r && head == old(head) && size == old(size) + 1
        && |nodes| == old(|nodes|) + 1 && old(|nodes|) in Order && |nodes[old(|nodes|)].next| == level + 1
        && HeadRepeated(old(nodes), head, old(Order), nodes, Order)
      // another element already there: false, but a new node of a higher level than the one
      // holding v stays linked into the levels above that node's level
      ensures old(head) != Nil && v in old(Contents()) && old(nodes[head.addr].data) != v ==>
        && !r && head == old(head) && Order == old(Order) && size == old(size)
        && Rejected(old(nodes), head, Order, level, v, nodes)
    {
      if head == Nil {
        nodes := nodes + [NewNode(MAX, v)];
        head := To(|nodes| - 1);
        Order := [|nodes| - 1];
        size := size + 1;
        SingleWellFormed(nodes, |nodes| - 1);
        return true;
      }
      ghost var nodes0, order := nodes, Order;
      var node := |nodes|;
      nodes := nodes + [NewNode(level, v)];
      var first := head.addr;
      if nodes[first].data > nodes[node].data {
        SwapNode(first, node);
      }
      ghost var ins := FirstAtLeast(nodes, order, 1, nodes[node].data);
      AddBegin(nodes0, head, order, level, v, nodes, ins, Insert(order, ins, node));
      r := Descend(node, level, nodes0, order, v, nodes, ins, Insert(order, ins, node));
      if r && Data(nodes0, order, 0) == v {
        AddedAgain(nodes0, head, order, v, nodes, ins, Order);
      }
    }

    /**
     * `add` with the duplicate check the source evidently intends: an element already
     * there, the head's included, is refused before anything is linked.
     */
    method AddChecked(v: int, level: int) returns (r: bool)
      requires Structured() && 1 <= level <= MAX
      modifies this
      ensures r <==> v !in old(Contents())
      ensures Structured() && Contents() == old(Contents()) + {v} && (old(Valid()) ==> Valid())
      ensures size == old(size) + (if r then 1 else 0)
      ensures !r ==> nodes == old(nodes) && head == old(head) && Order == old(Order)
      // an accepted element gets a new node, which takes part in levels 0 to `level`
      // (the head, when it is the first element, in every level)
      ensures r ==>
        && |nodes| == old(|nodes|) + 1 && old(|nodes|) in Order
        && |nodes[old(|nodes|)].next| == (if old(head) == Nil then MAX + 1 else level + 1)
    {
      var present := Contains(v);
      if present {
        return false;
      }
      r := Add(v, level);
    }

    /**
     * `addAll(values)`: adds every value in turn (the `&=` does not stop at a refusal),
     * `levels[i]` being the level drawn for `values[i]`; true iff every add was accepted.
     */
    method AddAll(values: seq<int>, levels: seq<int>) returns (r: bool)
      requires Structured() && |levels| == |values|
      requires forall i :: 0 <= i < |levels| ==> 1 <= levels[i] <= MAX
      modifies this
      ensures Structured() && Contents() == old(Contents()) + Elems(values) && (old(Valid()) ==> Valid())
      ensures r <==> AllNew(old(Contents()), values)
    {
      ghost var s0, valid0 := Contents(), Valid();
      r := true;
      var i := 0;
      while i < |values|
        invariant 0 <= i <= |values| && Structured() && (valid0 ==> Valid())
        invariant Contents() == s0 + Elems(values[..i])
        invariant r <==> EveryAddAccepted(s0, values[..i])
      {
        ghost var before := Contents();
        var added := AddChecked(values[i], levels[i]);
        AddAllStep(s0, values, i, before, r, added);
        r := r && added;
        i := i + 1;
      }
      assert values[..i] == values;
      EveryAddAcceptedIsAllNew(s0, values);
    }

    /** `isEmpty`: reads only the size, which in a valid list is the number of elements. */
    function IsEmpty(): (r: bool)
      reads this
      ensures Valid() ==> (r <==> Contents() == {})
    {
      MembersEmpty(nodes, Order);
      size == 0
    }

    /**
     * `clear` as written: drops the head but keeps the size, so a list that held elements
     * is left empty yet not `IsEmpty`, and no longer valid; its structure is the empty one,
     * so `contains` still answers (false).
     */
    method Clear()
      modifies this
      ensures head == Nil && Order == [] && nodes == old(nodes) && size == old(size)
      ensures Structured() && Contents() == {}
      ensures IsEmpty() <==> old(size) == 0
      ensures Valid() <==> old(size) == 0
    {
      head := Nil;
      Order := [];
    }

    /** `clear` with the size reset too: the empty list. */
    method ClearFixed()
      modifies this
      ensures Valid() && Contents() == {} && IsEmpty() && nodes == old(nodes)
    {
      head := Nil;
      Order := [];
      size := 0;
    }

    /**
     * The walk of `remove` on level l that finds the predecessor again: from the node at
     * `start`, move right until the next node holds v or there is none.
     */
    method Rescan(start: nat, l: nat, v: int, ghost base: seq<Node>, ghost order: seq<nat>, ghost from: nat)
      returns (prev: nat, ghost pos: nat)
      requires InArena(base, order) && from < |order| && start == order[from] && l < Height(base, order, from)
      requires SameHeights(base, nodes) && SameData(base, nodes) && InArena(nodes, order) && LinkedAt(nodes, order, l)
      ensures from <= pos < |order| && prev == order[pos] && l < Height(base, order, pos)
      ensures NextPos(base, order, pos + 1, l) == |order| || Data(base, order, NextPos(base, order, pos + 1, l)) == v
      ensures forall p :: from < p <= pos && l < Height(base, order, p) ==> Data(base, order, p) != v
    {
      prev, pos := start, from;
      LinkOf(base, nodes, order, pos, l);
      var temp := GetNext(nodes[prev], l).value;
      while temp != Nil && nodes[temp.addr].data != v
        invariant from <= pos < |order| && prev == order[pos] && l < Height(base, order, pos)
        invariant temp == LinkTo(order, NextPos(base, order, pos + 1, l))
        invariant forall p :: from < p <= pos && l < Height(base, order, p) ==> Data(base, order, p) != v
        decreases |order| - pos
      {
        NextPosBelow(base, order, pos + 1, l);
        pos := NextPos(base, order, pos + 1, l);
        prev := temp.addr;
        LinkOf(base, nodes, order, pos, l);
        temp := GetNext(nodes[prev], l).value;
      }
    }

    /**
     * The unlink loop of `remove`: from level `level` down to 0 the predecessor takes over
     * the node's link, and on the level below the predecessor is found again.
     */
    method Unlink(prev: nat, node: nat, level: nat, v: int, ghost base: seq<Node>, ghost head0: Link,
                  ghost order: seq<nat>, ghost d: nat, ghost o': seq<nat>, ghost pos: nat)
      requires Unlinking(base, head0, order, d, o', nodes, pos, level) && prev == order[pos] && node == order[d]
      requires v == Data(base, order, d)
      modifies this
      ensures Unlinked(base, head0, order, d, o', nodes, -1)
      ensures head == old(head) && size == old(size) && Order == old(Order)
      ensures |nodes| == |old(nodes)| && nodes[node] == old(nodes)[node]
    {
      var i: int := level;
      var p := prev;
      ghost var ps := pos;
      while i >= 0
        invariant -1 <= i
        invariant i >= 0 ==> Unlinking(base, head0, order, d, o', nodes, ps, i) && p == order[ps]
        invariant i < 0 ==> Unlinked(base, head0, order, d, o', nodes, -1)
        invariant head == old(head) && size == old(size) && Order == old(Order)
        invariant |nodes| == |old(nodes)| && nodes[node] == old(nodes)[node]
        decreases i
      {
        ghost var before := nodes;
        var next := GetNext(nodes[node], i).value;
        assert order[ps] != order[d];
        SetNext(p, i, next);
        UnlinkNext(base, head0, order, d, o', before, ps, i, nodes);
        if i > 0 {
          ghost var from := ps;
          p, ps := Rescan(p, i - 1, v, base, order, ps);
          UnlinkRescanned(base, head0, order, d, o', nodes, from, ps, i - 1);
        }
        i := i - 1;
      }
    }

    /** `remove` of an element other than the head's: search for it, then unlink its node. */
    method RemoveAfterHead(v: int) returns (r: bool)
      requires Structured() && head != Nil && nodes[head.addr].data != v
      modifies this
      ensures r <==> v in old(Contents())
      ensures Structured() && head == old(head) && Contents() == old(Contents()) - {v} && (old(Valid()) ==> Valid())
      ensures size == old(size) - (if r then 1 else 0)
      ensures r ==> Removed(old(nodes), old(Order), nodes, Order, v)
      ensures !r ==> nodes == old(nodes) && Order == old(Order)
      ensures |nodes| == |old(nodes)|
    {
      ghost var order := Order;
      var found, prev, node, level, pos, d := Locate(v);
      if !found {
        return false;
      }
      ghost var o' := Without(order, d);
      ghost var base := nodes;
      UnlinkBegin(nodes, head, order, v, pos, level, d, o');
      Unlink(prev, node, level, v, base, head, order, d, o', pos);
      UnlinkDone(base, head, order, d, o', nodes);
      AfterHeadRemoved(base, order, d, nodes, o');
      Order := o';
      size := size - 1;
      return true;
    }

    /**
     * `remove` of the head's element, with the start level the source evidently intends:
     * the head takes its successor's element and the successor is unlinked from its own
     * top level down; with no successor the list becomes empty.
     */
    method RemoveHead(v: int)
      requires Structured() && head != Nil && nodes[head.addr].data == v
      modifies this
      ensures Structured() && Contents() == old(Contents()) - {v} && size == old(size) - 1
      ensures old(Valid()) ==> Valid()
      ensures Removed(old(nodes), old(Order), nodes, Order, v)
      ensures |nodes| == |old(nodes)|
    {
      ghost var order, nodes0 := Order, nodes;
      var node := head.addr;
      LinkOf(nodes, nodes, order, 0, 0);
      var next := GetNext(nodes[node], 0).value;
      if next == Nil {
        assert |order| == 1;
        OnlyRemoved(nodes, order);
        head := Nil;
        Order := [];
        size := size - 1;
        return;
      }
      SwapNode(node, next.addr);
      var prev := node;
      node := next.addr;
      ghost var base := nodes;
      ghost var o' := Without(order, 1);
      HeadUnlinkBegin(nodes0, head, order, base, o');
      var level := GetLevel(nodes[node]);
      Unlink(prev, node, level, v, base, head, order, 1, o', 0);
      UnlinkDone(base, head, order, 1, o', nodes);
      HeadRemoved(nodes0, head, order, base, nodes, o');
      Order := o';
      size := size - 1;
    }

    /** `remove(value)` with the head case corrected (see RemoveAsWritten for the source's). */
    method Remove(v: int) returns (r: bool)
      requires Structured()
      modifies this
      ensures r <==> v in old(Contents())
      ensures Structured() && Contents() == old(Contents()) - {v} && (old(Valid()) ==> Valid())
      ensures size == old(size) - (if r then 1 else 0)
      ensures r ==> Removed(old(nodes), old(Order), nodes, Order, v)
      ensures !r ==> nodes == old(nodes) && head == old(head) && Order == old(Order)
      ensures |nodes| == |old(nodes)|
    {
      if head == Nil {
        return false;
      }
      if nodes[head.addr].data == v {
        assert Data(nodes, Order, 0) == v;
        RemoveHead(v);
        return true;
      }
      r := RemoveAfterHead(v);
    }

    /**
     * The unlink loop of `remove` after the head took its successor's element, started at
     * level MAX as written: it gets through only when the successor has level MAX, and
     * otherwise throws where `getNext` reads past the successor's link array, the head and
     * the successor having traded elements.
     */
    method UnlinkFromMax(start: nat, node: nat, v: int, ghost nodes0: seq<Node>, ghost head0: Link,
                         ghost order: seq<nat>, ghost base: seq<Node>, ghost o': seq<nat>) returns (ok: bool)
      requires WellFormed(nodes0, head0, order) && Ascending(nodes0, order) && 2 <= |order|
      requires base == SwapData(nodes0, order[0], order[1]) && o' == Without(order, 1)
      requires Unlinking(base, head0, order, 1, o', base, 0, Height(base, order, 1) - 1)
      requires nodes == base && Order == order && start == order[0] && node == order[1] && v == Data(base, order, 1)
      modifies this
      ensures head == old(head) && size == old(size) && Order == old(Order)
      ensures ok <==> Height(base, order, 1) == MAX + 1
      ensures |nodes| == |base|
      ensures ok ==> Unlinked(base, head0, order, 1, o', nodes, -1) && nodes[node] == base[node]
      ensures !ok ==>
        && InArena(nodes, order) && Members(nodes, order) == Members(nodes0, order)
        && Data(nodes, order, 1) == Data(nodes0, order, 0) && !Ascending(nodes, order)
        && forall l: nat :: l < Height(base, order, 1) ==> LinkedAt(nodes, order, l)
    {
      var prev := start;
      ghost var h := |nodes[node].next|;
      var i: int := MAX;
      ghost var ps: nat := 0;
      while i >= 0
        invariant -1 <= i <= MAX && node == order[1] && |nodes| == |base| && SameHeights(base, nodes)
        invariant h == MAX + 1 ==>
          && nodes[node] == base[node]
          && (i >= 0 ==> Unlinking(base, head0, order, 1, o', nodes, ps, i) && prev == order[ps])
          && (i < 0 ==> Unlinked(base, head0, order, 1, o', nodes, -1))
        invariant h <= MAX ==>
          && h <= i && Overrun(base, head0, order, nodes, i)
          && ps < |order| && i < Height(base, order, ps) && prev == order[ps]
        invariant head == old(head) && size == old(size) && Order == order
        decreases i
      {
        var link := GetNext(nodes[node], i);
        if link.Err? {
          OverrunFault(nodes0, head0, order, base, nodes, i);
          return false;
        }
        ghost var before := nodes;
        if h == MAX + 1 {
          assert order[ps] != order[1];
        }
        SetNext(prev, i, link.value);
        if h == MAX + 1 {
          UnlinkNext(base, head0, order, 1, o', before, ps, i, nodes);
        } else {
          OverrunStep(base, head0, order, before, ps, i, nodes);
        }
        if i > 0 {
          ghost var from := ps;
          prev, ps := Rescan(prev, i - 1, v, base, order, ps);
          if h == MAX + 1 {
            UnlinkRescanned(base, head0, order, 1, o', nodes, from, ps, i - 1);
          }
        }
        i := i - 1;
      }
      return true;
    }

    /**
     * `remove` of the head's element as written: after the swap the unlink starts at level
     * MAX instead of at the successor's own top level. On levels above the successor's,
     * `getNext` returns null and the head (then the last node of each level) gets a null
     * link; at the level equal to the length of the successor's link array, `getNext`
     * reads past its end. Only a successor of level MAX gets through.
     */
    method RemoveHeadAsWritten(v: int) returns (r: Result<bool>)
      requires Structured() && head != Nil && nodes[head.addr].data == v
      modifies this
      ensures r.Err? <==> 2 <= |old(Order)| && Height(old(nodes), old(Order), 1) <= MAX
      ensures r.Ok? ==> r.value && Structured() && Contents() == old(Contents()) - {v} && size == old(size) - 1
      ensures r.Ok? ==> (old(Valid()) ==> Valid())
      ensures r.Ok? ==> Removed(old(nodes), old(Order), nodes, Order, v)
      ensures |nodes| == |old(nodes)|
      ensures r.Err? ==>
        && r == Err(IndexOutOfBounds) && head == old(head) && Order == old(Order) && size == old(size)
        && InArena(nodes, Order) && Members(nodes, Order) == old(Contents())
        && Data(nodes, Order, 1) == v && !Ascending(nodes, Order)
        && forall l: nat :: l < Height(old(nodes), old(Order), 1) ==> LinkedAt(nodes, Order, l)
    {
      ghost var order, nodes0, head0 := Order, nodes, head;
      var node := head.addr;
      LinkOf(nodes, nodes, order, 0, 0);
      var next := GetNext(nodes[node], 0).value;
      if next == Nil {
        assert |order| == 1;
        OnlyRemoved(nodes, order);
        head := Nil;
        Order := [];
        size := size - 1;
        return Ok(true);
      }
      SwapNode(node, next.addr);
      var prev := node;
      node := next.addr;
      ghost var base := nodes;
      ghost var o' := Without(order, 1);
      HeadUnlinkBegin(nodes0, head, order, base, o');
      var unlinked := UnlinkFromMax(prev, node, v, nodes0, head0, order, base, o');
      if !unlinked {
        return Err(IndexOutOfBounds);
      }
      UnlinkDone(base, head0, order, 1, o', nodes);
      HeadRemoved(nodes0, head0, order, base, nodes, o');
      Order := o';
      size := size - 1;
      return Ok(true);
    }

    /**
     * `remove(value)` as written: correct for every element but the head's, where it
     * throws unless the head's successor has level MAX.
     */
    method RemoveAsWritten(v: int) returns (r: Result<bool>)
      requires Structured()
      modifies this
      ensures r.Err? <==> HeadRemovalThrows(old(nodes), old(head), old(Order), v)
      ensures r.Ok? ==>
        && (r.value <==> v in old(Contents())) && Structured() && Contents() == old(Contents()) - {v}
        && (old(Valid()) ==> Valid())
        && size == old(size) - (if r.value then 1 else 0)
      ensures r.Ok? && r.value ==> Removed(old(nodes), old(Order), nodes, Order, v)
      ensures r.Ok? && !r.value ==> nodes == old(nodes) && head == old(head) && Order == old(Order)
      ensures |nodes| == |old(nodes)|
      ensures r.Err? ==>
        && r == Err(IndexOutOfBounds) && head == old(head) && Order == old(Order) && size == old(size)
        && InArena(nodes, Order) && Members(nodes, Order) == old(Contents()) && !Ascending(nodes, Order)
        && forall l: nat :: l < Height(old(nodes), old(Order), 1) ==> LinkedAt(nodes, Order, l)
    {
      if head == Nil {
        return Ok(false);
      }
      if nodes[head.addr].data == v {
        assert Data(nodes, Order, 0) == v;
        r := RemoveHeadAsWritten(v);
        return;
      }
      var removed := RemoveAfterHead(v);
      return Ok(removed);
    }
  }
}
