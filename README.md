# EfficientSplitList in Dafny

A model of `com.ajr.EfficientSplitList`. This is a sorted set kept as a skip list, together with its forward iterator. The two pieces are:

- **the list**: a head node that is always created at the top level `MAX = 5`, a `size` counter, and nodes that each carry one forward link per level they take part in;
- **the iterator**: a cursor on the level-0 chain, plus the node that `next` returned last.

The source changes things in place, and the model does the same:

- `SkipSet.SkipList` is a class with the source's fields `head` and `size`.
- The Java node objects live in a store `nodes: seq<Node>` that the methods reassign. A link is an address into that store (`Link = Nil | To(addr)`).
- `setNext` rewrites one link of one node of the store, and `swapNode` makes two nodes of the store trade elements, as the source mutates those node objects in place. Aliasing stays visible through addresses.
- The ghost field `Order` lists the addresses on the level-0 chain, head first.
- `Valid()` is the skip-list invariant:
  - the chain is duplicate-free;
  - every node's level is between 0 and `MAX`, and the head's level is `MAX`;
  - on every level, each node that takes part links to the next node along the chain that also takes part;
  - the elements ascend strictly along the chain;
  - `size` is the number of elements.

  The first four points alone are `Structured()`. The source's operations never read `size` except in `isEmpty` and `toString`, so every modelled operation requires only `Structured()`. Each operation that keeps the structure also keeps `Valid()` when it held before. So after the as-written `clear`, which leaves `size` stale, `add`, `contains`, `remove` and the iterator go on working, as they do in the source.
- `Contents()` is the set of elements on the chain.

Elements are `int`. The source's `compareTo` on `T extends Comparable<T>` becomes integer comparison.

The random level, `SplittableRandom.nextInt(MAX) + 1`, becomes a `level` parameter in `1..MAX`. `SkipNodes.RandomLevel` states the range that the draw gives.

Modules:

- `SkipNodes` — the node, `getLevel`, the constructor and `getNext`.
- `SkipLayout` — the level-0 chain and the linkage predicates.
- `SkipStore` — the effect of `setNext` and `swapNode` on the store.
- `SkipSearch` — the top-down search shared by `add`, `contains` and `remove`.
- `SkipInsert` — the proof of `add`.
- `SkipRemove` — the proof of `remove`.
- `SkipSet` — the list class.
- `SkipIterator` — the iterator class.

The source has several faults, listed under Findings below. Each one is modelled twice: once as written (the members named `…AsWritten`, and `Add`, `Clear` and `GetNext`), and once as evidently intended, with the intended property proved. The corrected members use the as-written `Add` and `GetNext` only where those are proved to behave as intended: `AddChecked` calls `Add` only for an element that is not there, and the searches and unlinks call `GetNext` only at levels within the node's link array.

`clear` keeps the `size` counter (see Findings). The class has no `size()` accessor: `size` is a private field, and only `isEmpty` and `toString` read it.

## Model

| member | source | states |
|---|---|---|
| SkipNodes.GetLevel | src/com/ajr/EfficientSplitList.java:275-277 | a node's level is its top link: that link can be read, every link above it is null as intended, and `getNext` as written throws one level above it |
| SkipNodes.NewNode | src/com/ajr/EfficientSplitList.java:270-277 | a new node's level (`getLevel`, the link count minus one) is the level it was created with; it holds its element and all its links are null |
| SkipNodes.RandomLevel | src/com/ajr/EfficientSplitList.java:24-26 | a draw in `[0, MAX)` plus one gives a level between 1 and `MAX` |
| SkipNodes.GetNext | src/com/ajr/EfficientSplitList.java:282-287 | as written: it throws exactly when the level is negative or equals the link array's length; it returns null beyond the length and the stored link within it |
| SkipNodes.GetNextGuarded | src/com/ajr/EfficientSplitList.java:282-287 | as intended: it agrees with `getNext` wherever that returns, and gives null from the array length on |
| SkipNodes.GetNextReadsPastEnd | src/com/ajr/EfficientSplitList.java:283 | for every node, the read one level above its top throws as written and gives null as intended |
| SkipStore.SetLink | src/com/ajr/EfficientSplitList.java:279-281 | `setNext` changes exactly one link of one node; every level and every element is kept |
| SkipStore.SwapData | src/com/ajr/EfficientSplitList.java:258-262 | `swapNode` makes two nodes trade elements; every link and every other element is kept |
| SkipStore.SameLinksWellFormed | src/com/ajr/EfficientSplitList.java:258-262 | changing elements but no link keeps the linked structure of every level |
| SkipStore.SameDataKeeps | src/com/ajr/EfficientSplitList.java:279-281 | changing links but no element keeps what the chain holds and whether it ascends |
| SkipLayout.MembersEmpty | src/com/ajr/EfficientSplitList.java:137-140 | the chain holds no element exactly when it has no node |
| SkipSearch.SearchStart | src/com/ajr/EfficientSplitList.java:100-103 | the search starts at the head on level `MAX`, with nothing before it on any level |
| SkipSearch.LinkOf | src/com/ajr/EfficientSplitList.java:104-118 | in a linked list, `getNext(l)` of a node on level l is the next node along the chain that takes part in level l |
| SkipSearch.SearchAdvance | src/com/ajr/EfficientSplitList.java:116-118 | moving right past a node whose element is below the target keeps every element before the cursor below the target |
| SkipSearch.SearchFound | src/com/ajr/EfficientSplitList.java:107-110 | the first node met that holds the target is the target's place on the chain, and the node's top level is the current level |
| SkipSearch.SearchDescend | src/com/ajr/EfficientSplitList.java:112-114 | stopping at null or at a larger element and dropping a level loses no position |
| SkipSearch.SearchEnd | src/com/ajr/EfficientSplitList.java:102-122 | once the search is past level 0, the node after the cursor is the first element at least the target, and it is not the target |
| SkipSearch.Absent | src/com/ajr/EfficientSplitList.java:93-123 | when neither the head nor the search's end node holds the target, the list does not hold it |
| SkipInsert.SingleWellFormed | src/com/ajr/EfficientSplitList.java:31-36 | the first element makes a head of level `MAX` on its own, which is a valid one-element list |
| SkipInsert.AddPrepared | src/com/ajr/EfficientSplitList.java:38-46 | after the new node is made and any swap with the head, the chain is intact; chain plus new node hold the old elements plus v; the head holds less than the new node unless v is the head's element |
| SkipInsert.SwappedHead | src/com/ajr/EfficientSplitList.java:44-46 | swapping a smaller new element into the head keeps the chain ascending, and the new node then holds the old head element |
| SkipInsert.SwappedMembers | src/com/ajr/EfficientSplitList.java:44-46 | after the swap, the chain plus the new node hold exactly the old elements plus v |
| SkipInsert.SpliceStep | src/com/ajr/EfficientSplitList.java:67-70 | a splice on level l leaves the levels below l linked per the old chain and levels l and above linked per the new one |
| SkipInsert.AddSplice | src/com/ajr/EfficientSplitList.java:66-70 | the two `setNext` calls at the search position splice the new node in on that level |
| SkipInsert.AddSkipLevel | src/com/ajr/EfficientSplitList.java:66 | a level above the new node's level already agrees with the new chain, so nothing is spliced there |
| SkipInsert.AscendingInsert | src/com/ajr/EfficientSplitList.java:48-71 | putting the node between a smaller and a larger neighbour keeps the chain strictly ascending |
| SkipInsert.InsertWellFormed | src/com/ajr/EfficientSplitList.java:48-71 | once every level is spliced, the new chain is a valid skip-list layout |
| SkipInsert.SplicedNotLinked | src/com/ajr/EfficientSplitList.java:54-55 | a level that was already spliced before `add` gave up no longer follows the old chain |
| SkipInsert.AddRejected | src/com/ajr/EfficientSplitList.java:52-55 | meeting v on the way down means v was there and is not the head's; the elements are unchanged; the list is intact only if the new node had not yet been spliced anywhere, and is no longer linked otherwise |
| SkipInsert.AddCompleted | src/com/ajr/EfficientSplitList.java:48-74 | passing level 0 gives a valid layout with the old elements plus v; it ascends when v was not the head's element, and v is repeated right after the head when it was |
| SkipInsert.FreshAbsent | src/com/ajr/EfficientSplitList.java:48-71 | when the descent finds no equal element and v is not the head's, v was not in the list |
| SkipInsert.HeadRepeatedFirst | src/com/ajr/EfficientSplitList.java:44 | the head's own element is placed right after the head, at position 1 |
| SkipInsert.AddBegin | src/com/ajr/EfficientSplitList.java:48-49 | the descent starts at the head on level `MAX` with nothing spliced |
| SkipInsert.AddPass | src/com/ajr/EfficientSplitList.java:57-60 | overshooting on a level above the new node's level drops a level without a change |
| SkipInsert.AddSpliced | src/com/ajr/EfficientSplitList.java:66-70 | overshooting on one of the new node's levels splices it in and drops a level |
| SkipInsert.AddMet | src/com/ajr/EfficientSplitList.java:52-55 | meeting v on the way down is the rejected outcome |
| SkipInsert.AddDone | src/com/ajr/EfficientSplitList.java:73-74 | getting past level 0 is the completed outcome |
| SkipInsert.AddedAgain | src/com/ajr/EfficientSplitList.java:44 | a completed add of the head's element leaves two nodes holding it, and the chain no longer ascends strictly |
| SkipRemove.UnlinkStep | src/com/ajr/EfficientSplitList.java:215-217 | bypassing the node on level l leaves the levels below l per the old chain and the others per the chain without the node |
| SkipRemove.UnlinkNext | src/com/ajr/EfficientSplitList.java:215-217 | `prev.setNext(i, node.getNext(i))` unlinks the node on level i |
| SkipRemove.UnlinkRescanned | src/com/ajr/EfficientSplitList.java:218-223 | the rescan from the old predecessor stops at the node's predecessor on the level below |
| SkipRemove.AscendingWithout | src/com/ajr/EfficientSplitList.java:213-226 | removing a node keeps the chain ascending; in an ascending chain, the removed element occurs once |
| SkipRemove.LinkedAbove | src/com/ajr/EfficientSplitList.java:213 | levels above the node's top level already agree with the chain without it |
| SkipRemove.UnlinkBegin | src/com/ajr/EfficientSplitList.java:172-176 | when the search meets v on level l, that node's top level is l and the unlink starts from the search's predecessor |
| SkipRemove.HeadUnlinkBegin | src/com/ajr/EfficientSplitList.java:197-205 | swapping the head's element with its successor's keeps the elements, and the successor now holds v and is the node to unlink |
| SkipRemove.UnlinkDone | src/com/ajr/EfficientSplitList.java:213-229 | once every level is unlinked, the chain without the node is a valid layout that ascends and holds the old elements minus v |
| SkipRemove.OverrunStep | src/com/ajr/EfficientSplitList.java:213-223 | on a level above the successor's top, writing the null that `getNext` returns onto the current predecessor keeps the levels below linked. That predecessor is the head at level `MAX`; after the rescan at lines 219-223 it is the last node of each later level |
| SkipRemove.OverrunFault | src/com/ajr/EfficientSplitList.java:202-215 | when `getNext` throws mid-unlink, the chain holds the same elements but the swapped head successor holds v out of order |
| SkipRemove.FirstAtLeastAt | src/com/ajr/EfficientSplitList.java:166-186 | in an ascending chain, an element's search position is its own position |
| SkipRemove.ElementsWithout | src/com/ajr/EfficientSplitList.java:213-226 | the chain without position d lists the old elements without the d-th |
| SkipRemove.AfterHeadRemoved | src/com/ajr/EfficientSplitList.java:166-229 | removing a later element deletes exactly its position from the chain's element sequence |
| SkipRemove.HeadRemoved | src/com/ajr/EfficientSplitList.java:197-229 | removing the head's element takes the second node off the chain; that node holds the removed element and still links on level 0 to the node after it, and the sequence loses its first element |
| SkipRemove.OnlyRemoved | src/com/ajr/EfficientSplitList.java:206-209 | removing the only element leaves the empty chain |
| SkipSet.AddAllStep | src/com/ajr/EfficientSplitList.java:79-82 | each step of `addAll` adds its value, and the `&=` of the results stays true exactly while every add so far was accepted |
| SkipSet.EveryAddAcceptedIsAllNew | src/com/ajr/EfficientSplitList.java:77-85 | every add in turn being accepted is the same as every value being new to the list and the values being pairwise distinct, in both directions |
| SkipSet.SkipList.constructor | src/com/ajr/EfficientSplitList.java:17-20 | a new list is valid and empty, with size 0 |
| SkipSet.SkipList.Walk | src/com/ajr/EfficientSplitList.java:105-119 | the inner loop stops on the last node of the level before the first element at least the target, and `next` is that node's link |
| SkipSet.SkipList.Locate | src/com/ajr/EfficientSplitList.java:166-186 | the search finds the node holding v exactly when the list holds v, with its predecessor on the node's top level |
| SkipSet.SkipList.Contains | src/com/ajr/EfficientSplitList.java:93-123 | `contains(v)` is true exactly when v is in the list; it reads only the linked structure, so it holds after the as-written `clear` too |
| SkipSet.SkipList.ContainsAll | src/com/ajr/EfficientSplitList.java:125-134 | `containsAll` is true exactly when every given value is in the list |
| SkipSet.SkipList.SetNext | src/com/ajr/EfficientSplitList.java:279-281 | the store changes by the one link, and head, size and chain stay |
| SkipSet.SkipList.SwapNode | src/com/ajr/EfficientSplitList.java:258-262 | the store changes by the two elements trading places, and head, size and chain stay |
| SkipSet.SkipList.SpliceLevel | src/com/ajr/EfficientSplitList.java:66-70 | the splice on one level keeps the descent invariant one level lower |
| SkipSet.SkipList.DescendLevel | src/com/ajr/EfficientSplitList.java:48-71 | one level of `add`'s descent either meets v (the rejected outcome) or drops a level with the invariant kept |
| SkipSet.SkipList.Descend | src/com/ajr/EfficientSplitList.java:48-74 | the whole descent returns true with the node linked on the new chain and size plus one, or false with the rejected outcome and size unchanged |
| SkipSet.SkipList.Add | src/com/ajr/EfficientSplitList.java:28-75 | as written: the first element becomes the head at level `MAX`; a new element is added and the list stays a skip list; the head's element is added a second time (true, size plus one); another present element gives false but may leave the new node half-spliced; whenever a node is added it is one new node, on the chain, with `level` + 1 links (the first element's head with `MAX` + 1), so with the invariant it is on exactly levels 0 to `level`. It needs only the structure, not a matching `size`, so it also runs after the as-written `clear`; when the size matched before a new element, it still matches |
| SkipSet.SkipList.AddChecked | src/com/ajr/EfficientSplitList.java:28-75 | corrected add: true exactly when v was new; the structure is kept, the list holds the old elements plus v, and size grows by one exactly on true (so a matching size stays matching); on false nothing changes; on true one new node is on the chain with `level` + 1 links (`MAX` + 1 for the first element), so it is on exactly levels 0 to `level` |
| SkipSet.SkipList.AddAll | src/com/ajr/EfficientSplitList.java:77-85 | the list ends up holding the old elements plus all the values, with the structure kept and a matching size kept matching; the result is true exactly when every value was new and the values are pairwise distinct |
| SkipSet.SkipList.IsEmpty | src/com/ajr/EfficientSplitList.java:137-140 | in a valid list, `isEmpty` is true exactly when the list holds no element |
| SkipSet.SkipList.Clear | src/com/ajr/EfficientSplitList.java:87-90 | as written: head null and no elements (the empty structure, which `contains` can still search), but size kept, so `isEmpty` holds and the list is valid only if it was already empty |
| SkipSet.SkipList.ClearFixed | src/com/ajr/EfficientSplitList.java:87-90 | corrected clear: a valid empty list for which `isEmpty` holds |
| SkipSet.SkipList.Rescan | src/com/ajr/EfficientSplitList.java:218-223 | the rescan stops before the node holding v on that level, or at the level's end, having passed only other elements |
| SkipSet.SkipList.Unlink | src/com/ajr/EfficientSplitList.java:213-226 | the unlink loop bypasses the node on every level from its top level down to 0 |
| SkipSet.SkipList.RemoveAfterHead | src/com/ajr/EfficientSplitList.java:163-229 | removing a non-head element: true exactly when it was there; the structure is kept without v, the size drops on true (a matching size stays matching), and nothing changes on false |
| SkipSet.SkipList.RemoveHead | src/com/ajr/EfficientSplitList.java:197-229 | removing the head's element, unlinking the successor from its own top level: the structure is kept, without v, size minus one, and a matching size stays matching |
| SkipSet.SkipList.Remove | src/com/ajr/EfficientSplitList.java:152-230 | corrected remove: true exactly when v was there; the structure is kept, the list holds the old elements minus v, the element sequence loses exactly v's position, and size drops by one exactly on true, so a matching size stays matching |
| SkipSet.SkipList.UnlinkFromMax | src/com/ajr/EfficientSplitList.java:213-226 | as written, unlinking the head's successor from level `MAX` completes exactly when the successor has level `MAX`; otherwise it throws with the elements kept, the chain out of order, and every level below the successor's link count still linked along the chain; on success the unlinked node itself is untouched |
| SkipSet.SkipList.RemoveHeadAsWritten | src/com/ajr/EfficientSplitList.java:197-229 | as written: removing the head's element throws `ArrayIndexOutOfBoundsException` exactly when there is a successor below level `MAX`, leaving the chain holding v out of order, with the levels below the successor's link count still linked along it; otherwise the head's element is removed as in the corrected remove, the structure kept and a matching size kept matching |
| SkipSet.SkipList.RemoveAsWritten | src/com/ajr/EfficientSplitList.java:152-230 | as written: it throws exactly for the head's element with a successor below level `MAX`; every other call behaves as the corrected remove, also on a list whose `size` is stale after `clear`; on a thrown exception the chain holds the same elements out of order with the levels below the successor's link count still linked |
| SkipIterator.CursorAfterRemoval | src/com/ajr/EfficientSplitList.java:427-434 | after removing the element before the cursor, the cursor's node is one position earlier and the elements from it on are unchanged |
| SkipIterator.CursorAfterHeadRemoval | src/com/ajr/EfficientSplitList.java:197-205 | after removing the head's element, the head's old successor is off the chain, holds the removed element and links on level 0 to the new chain's second node |
| SkipIterator.LastIsHead | src/com/ajr/EfficientSplitList.java:427-434 | the node before the cursor is the head exactly when the cursor is at position 1 |
| SkipIterator.SkipListIterator.constructor | src/com/ajr/EfficientSplitList.java:316-319 | a new iterator starts at the head and will return every element in ascending order; it has a next element exactly when the head is not null. It needs only the structure, so it also works on a list cleared as written |
| SkipIterator.IterateAfterClear | src/com/ajr/EfficientSplitList.java:87-90 | after the as-written `clear`, the size counter is stale, yet a new iterator is valid, has no next element and has nothing left to return |
| SkipIterator.SkipListIterator.HasNext | src/com/ajr/EfficientSplitList.java:329-331 | `hasNext` is true exactly when elements remain |
| SkipIterator.SkipListIterator.Next | src/com/ajr/EfficientSplitList.java:340-348 | `next` returns the first remaining element and drops it from the remaining ones, or throws `NoSuchElementException` when none remain; it reads only the structure |
| SkipIterator.SkipListIterator.RemoveAsWritten | src/com/ajr/EfficientSplitList.java:427-434 | as written: it hands the last element returned to the list's as-written `remove` and leaves cursor and `last` alone; it throws exactly when the list's remove throws (the head's element, with a successor below level `MAX`); after the head's element otherwise the cursor is on a node off the chain that holds the removed element and links on level 0 to the new chain's second node, so the iteration returns that element again and never returns the one moved into the head; before the first `next` it changes nothing, and the iteration goes on with the same remaining elements; after the only element, the iteration is valid and has nothing left, so the next `next` throws `NoSuchElementException` |
| SkipIterator.SkipListIterator.RemoveFirstAsWritten | src/com/ajr/EfficientSplitList.java:427-434 | as written, after the head's element: it throws when the head's successor is below level `MAX`, and otherwise leaves the cursor stranded off the chain, holding the removed element and linking on to the new chain's second node; when that element was the only one, the iteration is valid and has nothing left |
| SkipIterator.SkipListIterator.RemoveLaterAsWritten | src/com/ajr/EfficientSplitList.java:427-434 | as written, after a later element: it does not throw, the element leaves the list and the remaining elements are unchanged |
| SkipIterator.SkipListIterator.Remove | src/com/ajr/EfficientSplitList.java:427-434 | corrected remove: the last element returned leaves the list, the remaining elements are unchanged, and `last` is cleared |
| SkipIterator.SkipListIterator.RemoveFirst | src/com/ajr/EfficientSplitList.java:427-434 | corrected, after the head's element: the cursor restarts at the head, which now holds the next element |
| SkipIterator.SkipListIterator.RemoveLater | src/com/ajr/EfficientSplitList.java:427-434 | corrected, after a later element: the cursor keeps its node, one position earlier |

## Left out

- `toString` of the list and of `Node` produce text only; the `System.out.println` at line 214 and `main` are I/O.
- The random level generator is not modelled: `SplittableRandom` is replaced by the `level` parameter of `Add` and `AddChecked`.
- Generic elements and `compareTo` are not modelled: elements are `int`.
- `iterator()` and `listIterator()` (lines 142-150) only call the iterator constructor, which is modelled.
- The `ListIterator` members `hasPrevious`, `previous`, `nextIndex`, `previousIndex`, `set` and `add` (lines 359-484) are stubs that do not touch the list.
- Concurrent use of the list is not modelled; the source is single-threaded.
- Nodes are never freed: an unlinked node stays in the store, unreachable from the head.
- SkipSet.SkipList.AddAll calls the corrected `AddChecked` rather than the as-written `Add`. With the as-written add, a repeated head element or a half-spliced node breaks the invariant that the later adds rely on.
- SkipIterator.SkipListIterator.RemoveAsWritten, when `last` is not the node just before the cursor, states only when it throws and that the structure is kept otherwise, not which element left the list. That happens when `remove` is called twice without `next` in between; the list's own remove contract covers that call.
- SkipSet.SkipList.IsEmpty and the `size` field do not model the 32-bit wrap-around of Java's `int size`, because the model's counter is unbounded. Since the as-written `clear` never resets `size`, 2^32 add-then-clear cycles bring the Java counter back to 0, and `isEmpty` then returns true. The model's `IsEmpty` stays false there.
- SkipSet.SkipList.Add states the half-spliced duplicate only as "the list is no longer linked". It does not give the exact link layout beyond the levels the new node took part in.

## Findings

| source | as written | input that shows it | evidently intended | confidence | as-written member | corrected member |
|---|---|---|---|---|---|---|
| src/com/ajr/EfficientSplitList.java:283 | `getNext` returns null only for `level > next.length`, so `level == next.length` reads past the array | any node of level k, asked for level k + 1 | `level >= next.length` returns null | high, not executed | SkipNodes.GetNextReadsPastEnd | SkipNodes.GetNextGuarded |
| src/com/ajr/EfficientSplitList.java:160 | removing the head's element unlinks its successor from level `MAX` down, although the successor has fewer levels; on the levels above the successor's, `getNext` returns null and the current predecessor (the head first) gets a null link; at the level equal to the successor's link count, `getNext` throws `ArrayIndexOutOfBoundsException` | add 1 (level 5), then 2 with level 1, then remove(1) | start the unlink at the successor's own top level | high, not executed | SkipSet.SkipList.RemoveAsWritten | SkipSet.SkipList.Remove |
| src/com/ajr/EfficientSplitList.java:54-55 | a duplicate found on a level below the new node's top returns false after the new node was spliced into the levels above | add 1, add 3 with level 1, then add 3 with level 3 | look for the element before splicing anything | high, not executed | SkipSet.SkipList.Add | SkipSet.SkipList.AddChecked |
| src/com/ajr/EfficientSplitList.java:44 | the head's element is never compared with the new one, so adding it again inserts a second node holding it and returns true | add 1, then add 1 | return false for the head's element as for any other | high, not executed | SkipSet.SkipList.Add | SkipSet.SkipList.AddChecked |
| src/com/ajr/EfficientSplitList.java:89 | `clear` drops the head but keeps `size`, so `isEmpty` is false on the empty list | add 1, then clear, then isEmpty | also reset `size` to 0 | high, not executed | SkipSet.SkipList.Clear | SkipSet.SkipList.ClearFixed |
| src/com/ajr/EfficientSplitList.java:432 | after `next` returns the head's element, `remove` makes the list move the successor's element into the head and unlink the successor, which is the cursor; the iteration then returns the removed element again and never returns the element moved into the head | add 1 and 2 (2 at level 5), iterate: next, remove, next | move the cursor back to the head after a removal at the head | high, not executed | SkipIterator.SkipListIterator.RemoveAsWritten | SkipIterator.SkipListIterator.Remove |
