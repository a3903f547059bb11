/**
 * The list's forward iterator: a cursor on the level-0 chain, the node the last `next`
 * returned, and `remove`, which hands that node's element to the list's `remove`.
 */
module SkipIterator {
  import opened SkipNodes
  import opened SkipLayout
  import opened SkipSearch
  import opened SkipRemove
  import opened SkipSet

  /**
   * After the removal of the element at position k - 1 (not the head's), the node at
   * position k is at position k - 1 and the elements from there on are those from k on.
   */
  lemma CursorAfterRemoval(nodes0: seq<Node>, order: seq<nat>, nodes: seq<Node>, o': seq<nat>, k: nat)
    requires InArena(nodes0, order) && Ascending(nodes0, order) && 2 <= k <= |order|
    requires Removed(nodes0, order, nodes, o', Data(nodes0, order, k - 1))
    ensures LinkTo(o', k - 1) == LinkTo(order, k)
    ensures Elements(nodes, o')[k - 1..] == Elements(nodes0, order)[k..]
  {
    FirstAtLeastAt(nodes0, order, 0, k - 1);
    var e := Elements(nodes0, order);
    assert (e[..k - 1] + e[k..])[k - 1..] == e[k..];
  }

  /**
   * After the removal of the head's element, the head's old successor is off the chain,
   * holds the removed element and links on level 0 to the node after the head, and the
   * chain holds the old elements but the first.
   */
  lemma CursorAfterHeadRemoval(nodes0: seq<Node>, head: Link, order: seq<nat>, nodes: seq<Node>, o': seq<nat>)
    requires WellFormed(nodes0, head, order) && 2 <= |order|
    requires Removed(nodes0, order, nodes, o', Data(nodes0, order, 0))
    ensures order[1] < |nodes| && order[1] !in o' && nodes[order[1]].data == Data(nodes0, order, 0)
    ensures 0 < |nodes[order[1]].next| && nodes[order[1]].next[0] == LinkTo(o', 1)
    ensures Elements(nodes, o') == Elements(nodes0, order)[1..]
  {
    assert FirstAtLeast(nodes0, order, 0, Data(nodes0, order, 0)) == 0;
    forall k | 0 <= k < |o'| ensures o'[k] != order[1] {
      if k == 0 {
        assert o'[k] == order[0];
      } else {
        assert o'[k] == order[k + 1];
      }
    }
  }

  /** `last` before a cursor at position k is the head exactly when k is 1. */
  lemma LastIsHead(nodes: seq<Node>, head: Link, order: seq<nat>, k: nat)
    requires WellFormed(nodes, head, order) && 0 < k <= |order|
    ensures To(order[k - 1]) == head <==> k == 1
  {
    if k != 1 {
      assert order[0] != order[k - 1];
    }
  }

  /**
   * `clear` as written followed by `iterator()`: the size counter is left as it was, yet
   * the iteration is empty, so its first `next` throws NoSuchElementException.
   */
  method IterateAfterClear(list: SkipList) returns (it: SkipListIterator)
    requires list.Structured()
    modifies list
    ensures list.size == old(list.size) && list.head == Nil && list.Order == []
    ensures it.list == list && it.Tracking() && !it.HasNext() && it.Remaining() == []
  {
    list.Clear();
    it := new SkipListIterator(list);
  }

  class SkipListIterator {
    const list: SkipList
    /** The node `next` returns next (the source's `next` field); null when exhausted. */
    var cursor: Link
    /** The node the last `next` returned, null before the first. */
    var last: Link
    /** The cursor's position on the level-0 chain. */
    ghost var Index: nat

    ghost predicate Valid()
      reads this, list
    {
      && list.Structured() && Index <= |list.Order|
      && cursor == LinkTo(list.Order, Index)
      && (last == Nil || last.addr < |list.nodes|)
    }

    /** ... and `last` is null or the node right before the cursor. */
    ghost predicate Tracking()
      reads this, list
    {
      && Valid()
      && (last == Nil || (0 < Index && last == To(list.Order[Index - 1])))
    }

    /** The elements the iteration has still to return. */
    ghost function Remaining(): seq<int>
      reads this, list
      requires Valid()
    {
      Elements(list.nodes, list.Order)[Index..]
    }

    /**
     * A new iterator starts at the head: it will return every element, in ascending order,
     * and none when the head is null (after `clear` too, whatever the size counter says).
     */
    constructor (list: SkipList)
      requires list.Structured()
      ensures this.list == list && Tracking() && last == Nil
      ensures Remaining() == Elements(list.nodes, list.Order)
      ensures HasNext() <==> list.head != Nil
    {
      this.list := list;
      cursor := list.head;
      last := Nil;
      Index := 0;
    }

    /** `hasNext`: the cursor is not null. */
    function HasNext(): (r: bool)
      reads this, list
      ensures Valid() ==> (r <==> Remaining() != [])
    {
      cursor != Nil
    }

    /**
     * `next`: the cursor's element, the cursor moving on along link 0, or
     * NoSuchElementException when the iteration is over.
     */
    method Next() returns (r: Result<int>)
      requires Valid()
      modifies this
      ensures Valid()
      ensures old(Remaining()) == [] ==> r == Err(NoSuchElement) && Index == old(Index) && last == old(last)
      ensures old(Remaining()) != [] ==>
        && r == Ok(old(Remaining())[0]) && Remaining() == old(Remaining())[1..] && Tracking()
    {
      if cursor == Nil {
        return Err(NoSuchElement);
      }
      LinkOf(list.nodes, list.nodes, list.Order, Index, 0);
      last := cursor;
      cursor := GetNext(list.nodes[cursor.addr], 0).value;
      Index := Index + 1;
      return Ok(list.nodes[last.addr].data);
    }

    /**
     * `remove` as written: the list's own `remove`, as written, removes the element `next`
     * returned last, and cursor and `last` stay where they were. That throws when the
     * element is the head's and the head's successor is below level MAX. Otherwise it is
     * right unless the element was the head's: the list then moves its successor's element
     * into the head and unlinks the successor, which is the cursor, so the cursor is left on
     * a node off the chain that holds the removed element and links on to the element after
     * the head, whose new element is never returned.
     */
    method RemoveAsWritten() returns (r: Result<()>)
      requires Valid()
      modifies this, list
      ensures cursor == old(cursor) && last == old(last) && |list.nodes| == |old(list.nodes)|
      ensures old(last) == Nil ==>
        && r == Ok(()) && list.nodes == old(list.nodes) && list.Order == old(list.Order)
        && list.size == old(list.size) && Index == old(Index) && Valid() && Remaining() == old(Remaining())
      ensures r.Err? <==>
        old(last) != Nil && HeadRemovalThrows(old(list.nodes), old(list.head), old(list.Order), old(list.nodes[last.addr].data))
      ensures r.Ok? ==> list.Structured() && (old(list.Valid()) ==> list.Valid())
      ensures r.Err? ==>
        && r == Err(IndexOutOfBounds) && list.Order == old(list.Order)
        && InArena(list.nodes, list.Order) && Members(list.nodes, list.Order) == old(list.Contents())
        && !Ascending(list.nodes, list.Order)
      ensures old(Tracking()) && old(last) != Nil && r.Ok? ==>
        Removed(old(list.nodes), old(list.Order), list.nodes, list.Order, old(list.nodes[last.addr].data))
      ensures old(Tracking()) && old(last) != Nil && 2 <= old(Index) ==> r.Ok? && Valid() && Remaining() == old(Remaining())
      ensures old(Tracking()) && old(last) != Nil && old(Index) == 1 && old(|list.Order|) == 1 ==>
        r.Ok? && Valid() && Remaining() == []
      ensures old(Tracking()) && old(last) != Nil && old(Index) == 1 && 2 <= old(|list.Order|) && r.Ok? ==>
        && cursor.To? && cursor.addr < |list.nodes| && cursor.addr !in list.Order
        && list.nodes[cursor.addr].data == old(Data(list.nodes, list.Order, 0))
        && 0 < |list.nodes[cursor.addr].next| && list.nodes[cursor.addr].next[0] == LinkTo(list.Order, 1)
        && Elements(list.nodes, list.Order) == old(Remaining())
    {
      if last == Nil {
        return Ok(());
      }
      if Tracking() {
        LastIsHead(list.nodes, list.head, list.Order, Index);
      }
      if last == list.head {
        r := RemoveFirstAsWritten();
      } else {
        r := RemoveLaterAsWritten();
      }
    }

    /** `remove` as written, the head's element having been returned last. */
    method RemoveFirstAsWritten() returns (r: Result<()>)
      requires Valid() && last != Nil && last == list.head
      modifies this, list
      ensures cursor == old(cursor) && last == old(last) && |list.nodes| == |old(list.nodes)|
      ensures r.Err? <==> HeadRemovalThrows(old(list.nodes), old(list.head), old(list.Order), old(list.nodes[last.addr].data))
      ensures r.Ok? ==> list.Structured() && (old(list.Valid()) ==> list.Valid())
      ensures r.Err? ==>
        && r == Err(IndexOutOfBounds) && list.Order == old(list.Order)
        && InArena(list.nodes, list.Order) && Members(list.nodes, list.Order) == old(list.Contents())
        && !Ascending(list.nodes, list.Order)
      ensures old(Tracking()) && r.Ok? ==>
        Removed(old(list.nodes), old(list.Order), list.nodes, list.Order, old(list.nodes[last.addr].data))
      ensures old(Tracking()) && old(|list.Order|) == 1 ==> r.Ok? && Valid() && Remaining() == []
      ensures old(Tracking()) && 2 <= old(|list.Order|) && r.Ok? ==>
        && cursor.To? && cursor.addr < |list.nodes| && cursor.addr !in list.Order
        && list.nodes[cursor.addr].data == old(Data(list.nodes, list.Order, 0))
        && 0 < |list.nodes[cursor.addr].next| && list.nodes[cursor.addr].next[0] == LinkTo(list.Order, 1)
        && Elements(list.nodes, list.Order) == old(Remaining())
    {
      ghost var nodes0, order, tracking := list.nodes, list.Order, Tracking();
      if tracking {
        LastIsHead(nodes0, list.head, order, Index);
        assert Data(nodes0, order, 0) in list.Contents();
      }
      var removed := list.RemoveAsWritten(list.nodes[last.addr].data);
      if removed.Err? {
        return Err(removed.fault);
      }
      if tracking && 2 <= |order| {
        CursorAfterHeadRemoval(nodes0, list.head, order, list.nodes, list.Order);
      }
      if tracking && |order| == 1 {
        // the only element is gone: the cursor was already null, at the end of the empty chain
        Index := 0;
      }
      return Ok(());
    }

    /** `remove` as written, a later element having been returned last. */
    method RemoveLaterAsWritten() returns (r: Result<()>)
      requires Valid() && last != Nil && last != list.head
      modifies this, list
      ensures cursor == old(cursor) && last == old(last) && |list.nodes| == |old(list.nodes)|
      ensures r.Err? <==> HeadRemovalThrows(old(list.nodes), old(list.head), old(list.Order), old(list.nodes[last.addr].data))
      ensures r.Ok? ==> list.Structured() && (old(list.Valid()) ==> list.Valid())
      ensures r.Err? ==>
        && r == Err(IndexOutOfBounds) && list.Order == old(list.Order)
        && InArena(list.nodes, list.Order) && Members(list.nodes, list.Order) == old(list.Contents())
        && !Ascending(list.nodes, list.Order)
      ensures old(Tracking()) ==>
        && r.Ok? && Removed(old(list.nodes), old(list.Order), list.nodes, list.Order, old(list.nodes[last.addr].data))
        && Valid() && Remaining() == old(Remaining())
    {
      ghost var nodes0, order, k, tracking := list.nodes, list.Order, Index, Tracking();
      if tracking {
        LastIsHead(nodes0, list.head, order, k);
        assert Data(nodes0, order, 0) < Data(nodes0, order, k - 1);
        assert Data(nodes0, order, k - 1) in list.Contents();
      }
      var removed := list.RemoveAsWritten(list.nodes[last.addr].data);
      if removed.Err? {
        return Err(removed.fault);
      }
      if tracking {
        CursorAfterRemoval(nodes0, order, list.nodes, list.Order, k);
        Index := k - 1;
      }
      return Ok(());
    }

    /**
     * `remove` as evidently intended: after a removal at the head the cursor moves to the
     * head, which now holds the element that was next; either way the iteration goes on
     * with the elements it had still to return, and `last` is cleared.
     */
    method Remove()
      requires Tracking()
      modifies this, list
      ensures Tracking() && last == Nil && Remaining() == old(Remaining()) && (old(list.Valid()) ==> list.Valid())
      ensures old(last) == Nil ==> list.nodes == old(list.nodes) && list.Order == old(list.Order)
      ensures old(last) != Nil ==> Removed(old(list.nodes), old(list.Order), list.nodes, list.Order, old(list.nodes[last.addr].data))
    {
      if last == Nil {
        return;
      }
      if last == list.head {
        RemoveFirst();
      } else {
        RemoveLater();
      }
    }

    /** The corrected `remove` after the head's element was returned: the cursor restarts at the head. */
    method RemoveFirst()
      requires Tracking() && last != Nil && last == list.head
      modifies this, list
      ensures Tracking() && last == Nil && Remaining() == old(Remaining()) && (old(list.Valid()) ==> list.Valid())
      ensures Removed(old(list.nodes), old(list.Order), list.nodes, list.Order, old(list.nodes[last.addr].data))
    {
      ghost var nodes0, order := list.nodes, list.Order;
      LastIsHead(nodes0, list.head, order, Index);
      assert Data(nodes0, order, 0) in list.Contents();
      var removed := list.Remove(list.nodes[last.addr].data);
      if 2 <= |order| {
        CursorAfterHeadRemoval(nodes0, list.head, order, list.nodes, list.Order);
      }
      cursor := list.head;
      Index := 0;
      last := Nil;
    }

    /** The corrected `remove` after a later element was returned: the cursor stays put. */
    method RemoveLater()
      requires Tracking() && last != Nil && last != list.head
      modifies this, list
      ensures Tracking() && last == Nil && Remaining() == old(Remaining()) && (old(list.Valid()) ==> list.Valid())
      ensures Removed(old(list.nodes), old(list.Order), list.nodes, list.Order, old(list.nodes[last.addr].data))
    {
      ghost var nodes0, order, k := list.nodes, list.Order, Index;
      LastIsHead(nodes0, list.head, order, k);
      assert Data(nodes0, order, k - 1) in list.Contents();
      var removed := list.Remove(list.nodes[last.addr].data);
      CursorAfterRemoval(nodes0, order, list.nodes, list.Order, k);
      Index := k - 1;
      last := Nil;
    }
  }
}
