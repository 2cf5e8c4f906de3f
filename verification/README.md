# Graph and counting containers

This project models four sequential container classes from a Java
coursework repository and proves their representation invariants and
contracts:

- **EdgeCollection**: the edge labels between one ordered pair of nodes.
  They are kept in a list that is strictly ascending and free of duplicates.
- **Multigraph**: a directed multigraph. Each registered node maps to its
  children, and each child maps to the non-empty EdgeCollection of edge
  labels from the node to that child.
- **FourHeap**: an array-backed 4-ary min-heap ordered by a comparator. The
  parent of slot `i` is `(i-1)/4`. The array grows by doubling.
- **HashTable**: an occurrence-counting table. It uses linear probing over
  table sizes drawn from a fixed list of 17 primes and rehashes before it
  becomes half full.

## How the model is built

- **Values, not objects.** Every container is an immutable datatype.
  - A mutator returns the new container, plus the Java method's `boolean`
    result where there is one.
  - Exceptions become the `Fail` case of `Results.Result`.
  - A `null` return becomes `None` of `Results.Option`.
- **Comparators.** A comparator is a function `le(a, b)` that stands for
  `compare(a, b) <= 0`, so `compare(a, b) < 0` is `Orders.Less(le, a, b)`.
  - The heap needs a total preorder, so ties are allowed.
  - Edge labels and node keys need a total order. Their `compareTo` must
    agree with `equals`, as Java's sorted containers assume.
- **Hash function.** The hash function is a parameter `hash: E -> nat`.
- **Invariants.** Each class's representation invariant becomes a
  predicate, and every operation is proved to preserve it:
  - `EdgeCollections.CheckRep` and `EdgeCollections.Valid` model
    EdgeCollection's `checkRep`.
  - `Multigraphs.Valid` states the representation invariant of
    Multigraph.java:33-38: every adjacency entry holds a non-empty, valid
    collection, and every child is a registered node. This is stronger than
    what Multigraph's `checkRep` tests (see Findings).
  - `FourHeaps.Valid` states heap order over the live slots.
    `HashTables.Valid` states the prime-sized, under-half-full, probe-chained
    table. FourHeap.java and HashTable.java have no `checkRep`; these
    predicates come from their class comments and from what their methods
    rely on.
- **Loops.** The heap's percolation loops, the probing loop, the rehash loop
  and the iterator's scan are written as methods with loop invariants.
- **Files.**
  - `orders.dfy`: comparators and ascending sequences.
  - `results.dfy`: `Option` and `Result`.
  - `edge_collection.dfy`, `multigraph.dfy`, `four_heap.dfy` and
    `hash_table.dfy`: one module per class.

Where the code and its own documentation disagree, the model follows the
code:

- The Javadoc of `addEdgeDirected` promises `true` if the edge was added and
  `false` otherwise (Multigraph.java:71). The method ignores the result of
  the inner `add`, so adding an edge that is already present returns `true`
  and changes nothing (Multigraph.java:86-89).
- The Javadoc of EdgeCollection's `iterator` speaks of a copy
  (EdgeCollection.java:117). The method hands out the list's own iterator
  (EdgeCollection.java:121). The model returns the labels as a value.

`findEdges` and `nodeChildrenList` return `null` for an unregistered node;
the model returns `None`.

## Model

| member | source | states |
|---|---|---|
| EdgeCollections.CheckRepIsValid | EdgeCollection.java:128-141 | The checked invariant holds exactly when the list is strictly ascending. Since the order is total, that also means no two labels are equal. |
| EdgeCollections.AdjacentToPairwise | EdgeCollection.java:132-134 | If every pair of neighbours is in order, every pair of positions is in order. This makes the adjacent-pair check strong enough. |
| EdgeCollections.Empty | EdgeCollection.java:39-41 | The no-argument constructor yields a collection of size 0 that contains nothing. |
| EdgeCollections.Singleton | EdgeCollection.java:50-53 | The one-label constructor yields a valid collection of size 1 that contains exactly that label. |
| EdgeCollections.InsertSorted | EdgeCollection.java:67-77 | Inserting before the first larger label grows the list by one and adds exactly the new label. An ascending list that lacked the label stays ascending. |
| EdgeCollections.Add | EdgeCollection.java:64-80 | Returns true iff the label was absent. A false result leaves the collection unchanged. Size grows by one exactly on success. Contents become the old labels plus the new one, and the invariant is kept. |
| EdgeCollections.RemoveFirst | EdgeCollection.java:101-105 | Deleting the first occurrence shortens the list by one iff the label occurs. All other labels are kept, and an ascending list stays ascending without the label. |
| EdgeCollections.Remove | EdgeCollection.java:101-105 | Returns true iff the label was present. A false result leaves the collection unchanged. Size drops by one exactly on success. The label is gone, everything else stays, and the invariant is kept. |
| EdgeCollections.IteratorAscending | EdgeCollection.java:120-123 | The iterator yields every stored label exactly once, in strictly ascending order. It yields as many labels as `size` reports. |
| EdgeCollections.ContainsOnce | EdgeCollection.java:87-90 | In a valid collection `contains` accepts a label iff it is stored exactly once, and rejects it iff it is not stored at all. |
| EdgeCollections.SizeCountsLabels | EdgeCollection.java:112-114 | In a valid collection `size` is the number of distinct labels the iterator yields. |
| EdgeCollections.AscendingUnique | EdgeCollection.java:128-141 | Two strictly ascending lists with the same elements are equal, so the invariant fixes the representation. |
| EdgeCollections.RemoveUndoesAdd | EdgeCollection.java:64-105 | Removing a label that was just added succeeds and restores the original collection. |
| EdgeCollections.AddUndoesRemove | EdgeCollection.java:64-105 | Re-adding a label that was just removed succeeds and restores the original collection. |
| EdgeCollections.AddCommutes | EdgeCollection.java:64-80 | Adding two labels in either order gives the same collection. |
| EdgeCollections.AddAll | EdgeCollection.java:64-80 | Adding a sequence of labels one by one keeps the invariant and yields exactly the old labels plus those in the sequence. |
| EdgeCollections.InsertionOrderIrrelevant | EdgeCollection.java:64-80 | Building a collection from two sequences with the same elements gives the same collection. Its iterator is ascending and holds exactly those labels. |
| EdgeCollections.InsertAboveAll | EdgeCollection.java:67-77 | A label above every stored label is appended at the end. |
| EdgeCollections.AddAllAscending | EdgeCollection.java:64-80 | Adding labels that continue an ascending list appends them in order. |
| EdgeCollections.CopyIsIdentical | EdgeCollection.java:120-123 | Rebuilding a collection from its own iterator gives back the identical collection. This is what a copy made through the iterator relies on. |
| Multigraphs.UpdateChildrenValid | Multigraph.java:307-320 | Replacing one node's children with well-formed children keeps the graph invariant. Well-formed children are registered targets with valid, non-empty collections. |
| Multigraphs.PutEdges | Multigraph.java:79-86 | Storing a collection for a pair changes that pair's entry only. The pair is added to the node's children. |
| Multigraphs.DropEdges | Multigraph.java:126-128 | Removing a pair's entry changes nothing else. The child leaves the node's children and the pair has no edges. |
| Multigraphs.PutSameEdges | Multigraph.java:79-86 | Storing the collection a pair already has leaves the graph unchanged. |
| Multigraphs.New | Multigraph.java:45-47 | The constructor yields a graph with no nodes. |
| Multigraphs.AddNode | Multigraph.java:57-64 | Returns true iff the node was unregistered. On false the graph is unchanged. On true the node joins with no children. Every existing node keeps its children, and the invariant is kept. |
| Multigraphs.AddEdgeDirected | Multigraph.java:73-90 | Returns true iff both endpoints are registered, even for a duplicate label. Otherwise the graph is unchanged, and a label already present changes nothing. On success only the pair's entry changes: it gains exactly the label. The invariant is kept. |
| Multigraphs.AddEdgesCircular | Multigraph.java:99-106 | Returns true iff both endpoints are registered. Otherwise the graph is unchanged. On success each direction keeps its labels and gains exactly the label. Every other pair and the node set are unchanged, and the invariant is kept. |
| Multigraphs.DeleteEdgeDirected | Multigraph.java:116-135 | Returns true iff both endpoints are registered and the label lies on the pair. Otherwise the graph is unchanged. Only that pair's entry changes: it loses exactly the label. The entry disappears when its last label goes. The invariant is kept. |
| Multigraphs.DeleteEdgeOccurrences | Multigraph.java:145-152 | Returns true iff both endpoints are registered and the label lies in either direction; on false the graph is unchanged. Afterwards it lies in neither direction, every other label of both pairs is kept, every other pair and the node set are unchanged, and the invariant is kept. |
| Multigraphs.DeleteNode | Multigraph.java:161-172 | Returns true iff the node was registered. The node leaves the node set and every other node's children. All other pairs keep their edges, and the invariant is kept. |
| Multigraphs.Purge | Multigraph.java:163-167 | Afterwards no node has the purged node as a child. Every node, every other child and every other pair's labels are kept. |
| Multigraphs.PurgeUnreferenced | Multigraph.java:163-167 | Purging a node that no children map mentions changes nothing. |
| Multigraphs.FindEdges | Multigraph.java:183-196 | Returns a collection iff the first node is registered and has the second as a child. The copy built label by label through the iterator equals the stored collection and is non-empty. |
| Multigraphs.SortedObjectList | Multigraph.java:290-301 | Returns the map's keys, each exactly once, in strictly ascending order. |
| Multigraphs.NodeList | Multigraph.java:268-270 | Returns every registered node once, in ascending order. The list is as long as the graph's size. |
| Multigraphs.NodeChildrenList | Multigraph.java:278-280 | Returns none iff the node is unregistered. Otherwise it returns exactly its children in ascending order. |
| Multigraphs.HasNodeAfterNodeOps | Multigraph.java:204-207 | `hasNode` holds after `addNode` for its node and every node registered before. After `deleteNode` it holds for the registered nodes other than the deleted one. |
| Multigraphs.SizeAfterNodeOps | Multigraph.java:213-215 | `size` grows by one when `addNode` registers a new node and drops by one when `deleteNode` removes a registered node. Otherwise it stays the same. |
| Multigraphs.CheckRepMissesEarlierChild | Multigraph.java:307-320 | `checkRep` as written passes a graph with an empty collection on an entry to an earlier node, although the graph breaks the invariant. |
| Multigraphs.CheckRepAllPairsIsValid | Multigraph.java:33-38 | Checking every entry for a non-empty collection, with registered children and valid collections, accepts exactly the graphs that keep the invariant. |
| Multigraphs.DeleteNodeUndoesAddNode | Multigraph.java:57-172 | Deleting a freshly added node succeeds and restores the original graph. |
| Multigraphs.PutTwice | Multigraph.java:79-86 | A second store for the same pair overrides the first. |
| Multigraphs.DropUndoesPut | Multigraph.java:79-127 | Dropping a pair's entry just created by a store restores the graph. |
| Multigraphs.PutUndoesDrop | Multigraph.java:79-127 | Storing back the collection that was dropped restores the graph. |
| Multigraphs.AddEdgeFresh | Multigraph.java:79-81 | For a pair with no entry, adding a label creates a one-label collection. |
| Multigraphs.AddEdgeExisting | Multigraph.java:82-87 | For a pair with an entry, adding a label adds it to that collection. |
| Multigraphs.DeleteEdgePresent | Multigraph.java:116-135 | Deleting a label that is present removes it from the collection. The pair's entry is dropped exactly when the collection becomes empty. |
| Multigraphs.DeleteEdgeUndoesAddEdge | Multigraph.java:73-135 | Deleting a label just added between registered nodes succeeds and restores the original graph. |
| Multigraphs.AddEdgeUndoesDeleteEdge | Multigraph.java:73-135 | Re-adding a label just deleted succeeds and restores the original graph. |
| FourHeaps.Parent | FourHeap.java:39-41 | For a slot above 0 the computed parent `(hole-1)/4` is the slot whose four children contain it. Slot 0 maps to 0, as Java's truncating division of -1 by 4 does. |
| FourHeaps.New | FourHeap.java:19-23 | A new heap is empty and valid, with capacity 650. |
| FourHeaps.GetSize | FourHeap.java:72-74 | The size is the number of stored elements, counted with multiplicity. |
| FourHeaps.IsEmpty | FourHeap.java:132-134 | The heap is empty iff it stores no element. |
| FourHeaps.Resize | FourHeap.java:51-60 | Copying the live slots into the new array keeps every element in its slot and multiplies the capacity by the resize factor. A heap full up to its spare slot has a spare slot again beyond the next free one. |
| FourHeaps.RootBelow | FourHeap.java:39-41 | In a heap-ordered array the root is at most every element, by induction along the parent chain. |
| FourHeaps.RootIsMinimum | FourHeap.java:66-70 | In a heap-ordered array slot 0 holds a minimum. |
| FourHeaps.FindMin | FourHeap.java:66-70 | Fails iff the heap is empty. Otherwise it returns a stored element that is at most every stored element. |
| FourHeaps.MoveIntoHole | FourHeap.java:37-43 | Moving a parent down into the hole and then writing the item keeps the same elements as writing the item straight into the hole. |
| FourHeaps.SiftUpStep | FourHeap.java:37-43 | Moving a larger parent down into the hole keeps heap order everywhere except into the parent's slot, which becomes the new hole. |
| FourHeaps.SiftUpDone | FourHeap.java:38-44 | When the parent is at most the item, writing the item into the hole restores heap order. |
| FourHeaps.Insert | FourHeap.java:29-46 | Insertion adds exactly one occurrence of the item and keeps the heap valid. The capacity doubles exactly when the array was full up to the last slot. |
| FourHeaps.FindBestIndex | FourHeap.java:108-128 | Returns the hole unless some child below the size is strictly less than the plug. Then it returns the first smallest such child, which is at most every child of the hole. When it returns the hole, the plug is at most every child. |
| FourHeaps.SiftDownStep | FourHeap.java:96-103 | Moving the best child up into the hole keeps heap order except out of the child's slot, which becomes the new hole. |
| FourHeaps.SiftDownDone | FourHeap.java:96-103 | When no child is below the plug, writing the plug into the hole restores heap order. |
| FourHeaps.PercolateDown | FourHeap.java:96-103 | Percolating the plug down from the hole gives a heap-ordered array holding the same elements as the array with the plug in the hole. |
| FourHeaps.DeleteMinStart | FourHeap.java:84-86 | Moving the last element to the root and shrinking by one keeps heap order below the root. It removes exactly one occurrence of the old root. |
| FourHeaps.SinkRoot | FourHeap.java:87-89 | Percolating the root down when a child is below it gives a heap-ordered array with the same elements. |
| FourHeaps.DeleteMin | FourHeap.java:80-91 | Fails iff the heap is empty. Otherwise it returns the minimum reported by `findMin`. It removes exactly one occurrence of it, keeps the heap valid and keeps the capacity. |
| FourHeaps.Drain | FourHeap.java:80-91 | Repeated `deleteMin` until empty yields the heap's elements in ascending order. |
| FourHeaps.HeapSort | FourHeap.java:29-91 | Inserting a sequence and draining the heap yields a sorted permutation of it. |
| HashTables.Probe | HashTable.java:77-88 | The k-th probe position lies inside the table. |
| HashTables.Offset | HashTable.java:77-88 | The number of probe steps from an item's home slot to a slot is below the table length. |
| HashTables.ProbeStep | HashTable.java:77-88 | The k-th probe is the home slot plus k, wrapped around once at the end of the table. |
| HashTables.ProbeOffset | HashTable.java:77-88 | Probing for the offset of a slot reaches that slot. |
| HashTables.OffsetProbe | HashTable.java:77-88 | The offset of the k-th probe is k. Probing visits each slot once before wrapping back. |
| HashTables.CountUpdate | HashTable.java:44-55 | Overwriting one slot changes an item's count only by that slot's old and new contribution. |
| HashTables.OccupiedUpdate | HashTable.java:44-55 | Overwriting one slot changes the number of occupied slots only by that slot's old and new occupancy. |
| HashTables.CountAbsent | HashTable.java:65-72 | An item held by no slot has count 0. |
| HashTables.CountZero | HashTable.java:65-72 | With positive stored counts, an item has count 0 iff no slot holds it. |
| HashTables.CountAtSlot | HashTable.java:65-72 | With no duplicates, the count of an item is the count stored in its slot. |
| HashTables.FreeSlot | HashTable.java:82-85 | A table with fewer occupied slots than its length has an empty slot. |
| HashTables.OccupiedPrefix | HashTable.java:59-61 | A prefix of the table has no more occupied slots than the whole. |
| HashTables.GetIndex | HashTable.java:77-88 | Given an empty slot somewhere, probing terminates. It returns the first slot on the probe sequence from the home slot that is empty or holds the item. |
| HashTables.AbsentPastEmpty | HashTable.java:77-88 | If probing reaches an empty slot, no slot holds the item. |
| HashTables.StoreFresh | HashTable.java:48-50 | Storing a new item in the slot probing found keeps the table well formed. |
| HashTables.BumpCount | HashTable.java:51-53 | Incrementing a stored count keeps the table well formed. |
| HashTables.New | HashTable.java:33-40 | A new table is valid, with size 0 and capacity 17, the first prime. Every item's count is 0. |
| HashTables.OccupiedNone | HashTable.java:33-40 | A table of empty slots has no occupied slot. |
| HashTables.GetSize | HashTable.java:59-61 | The size equals the number of occupied slots. |
| HashTables.GetCapacity | HashTable.java:151-153 | The capacity is the current entry of the prime list, so it is always one of the listed primes. |
| HashTables.ValidHasFree | HashTable.java:45-46 | A valid table, under half full, always has an empty slot. |
| HashTables.GetCount | HashTable.java:65-72 | Returns the stored count of the item, or 0 when the table does not hold it. |
| HashTables.PrimesGrow | HashTable.java:23-24 | Each prime in the list has a larger half than its predecessor. |
| HashTables.PrefixStep | HashTable.java:99-106 | Reinserting the next old slot extends the agreement of counts and sizes by one slot. |
| HashTables.NotBefore | HashTable.java:99-106 | With no duplicates, an item stored at a slot does not occur in earlier slots. |
| HashTables.Reinsert | HashTable.java:100-104 | Reinserting an absent item keeps the table well formed. It occupies exactly one more slot and adds exactly that item's count. |
| HashTables.RehashData | HashTable.java:91-108 | Growing past the last prime fails with an index-out-of-bounds error. Otherwise the table moves to the next prime and stays valid. The size and every item's count are preserved, and the table is left with room for one more item. |
| HashTables.Store | HashTable.java:47-53 | Finding the item's slot, then storing it fresh or bumping its count, raises exactly that item's count by one. The size grows iff the item was new. |
| HashTables.IncCount | HashTable.java:44-55 | Fails exactly when a rehash is due and no larger prime remains. Otherwise it raises the item's count by one and leaves every other count unchanged. The size grows iff the item was new, and the prime index advances iff a rehash was due. |
| HashTables.DistinctPrefix | HashTable.java:44-55 | The distinct items of a prefix grow by the next item. They stay within the items of the whole sequence. |
| HashTables.CountAllStep | HashTable.java:44-55 | One `incCount` extends the counts of a prefix by its next item. The item was new iff it had not occurred in the prefix. |
| HashTables.CountNext | HashTable.java:44-55 | Counting the next item keeps the table valid and its counts equal to those of the longer prefix. Failure means the distinct items nearly fill the largest table. |
| HashTables.CountAll | HashTable.java:44-61 | Counting a sequence with few enough distinct items succeeds. Each item's count is its number of occurrences, and the size is the number of distinct items. |
| HashTables.FirstOccupied | HashTable.java:126-133 | Returns the first occupied slot at or after a position, or the table length when there is none. |
| HashTables.GetIteratorHasNext | HashTable.java:112-120 | A new iterator over a valid table has a next entry exactly when the table holds some item. |
| HashTables.HasNextIffUnread | HashTable.java:118-120 | While `currentSize` counts the occupied slots not yet passed, `hasNext` holds exactly when an occupied slot lies ahead of the scan. |
| HashTables.Next | HashTable.java:121-135 | Fails with no-such-element iff nothing remains to be returned. Otherwise it returns the next occupied slot's item and count, or nothing when the scan runs off the end. The position moves past the returned slot only while it is not the last slot. |
| HashTables.OccupiedSkipEmpty | HashTable.java:126-133 | Empty slots add nothing to the occupied count. |
| HashTables.EntriesSkipEmpty | HashTable.java:126-133 | Empty slots add no entries. |
| HashTables.OccupiedThroughNext | HashTable.java:126-133 | The slot the iterator returns adds exactly one to the occupied count. |
| HashTables.EntriesLength | HashTable.java:112-137 | There are as many entries as occupied slots. |
| HashTables.EntryFromSlot | HashTable.java:112-137 | Every entry comes from some slot holding that item and count. |
| HashTables.SlotInEntries | HashTable.java:112-137 | Every occupied slot contributes its entry. |
| HashTables.EntriesDistinct | HashTable.java:112-137 | With no duplicates, no item appears in two entries. |
| HashTables.EntriesAreCounts | HashTable.java:112-137 | In a well-formed table there is one entry per occupied slot, and each pairs an item with its positive count. An item has a positive count iff its entry is present. No item appears twice. |
| HashTables.IterStep | HashTable.java:121-135 | While the scan has passed fewer occupied slots than the table holds, the next call finds an occupied slot and appends its entry. |
| HashTables.NoneAfter | HashTable.java:121-135 | Once every occupied slot has been passed, the scan finds nothing more. |
| HashTables.IterDone | HashTable.java:121-135 | Once every occupied slot has been passed, the entries returned so far are all of them. |
| HashTables.IterateAll | HashTable.java:112-137 | Calling `next` while `hasNext` holds yields exactly `getSize` entries. Each pairs a stored item with its count, every item with a positive count appears, and none appears twice. |

## Left out

- `listNodes` and `listChildren` (Multigraph.java:230-262) render nodes and edges through `toString` of the generic types. String rendering of generic values is not modelled.
- The private `iterator` of Multigraph (Multigraph.java:221-224) only exposes the map's entries. The node map is read directly instead.
- BoundariesParallel.java and the CampusPaths files are not part of this model. They hold a fork-join reduction over floating-point coordinates and a path-finding client.
- The base types `Comparator`, `Hasher`, `DataCounter`, `Heap`, `SimpleIterator` and `DataCount` are not part of this model. The comparator and the hasher are function parameters, and `DataCount` is a datatype.
- HashTables.IncCount: Java `int` arithmetic is unbounded here. `hash + i` in probing, `count++` and the sizes cannot overflow, and a hash code is never negative (the hasher returns a `nat`).
- FourHeaps.Insert: `hole * 4 + 4` in `findBestIndex` and the doubled capacity are unbounded integers, so Java `int` overflow is not modelled.
- HashTables.GetCount: the HashTable comparator's `compare(a, b) == 0` is modelled as equality of items.
- FourHeaps.Valid: the heap stores only the first `size` slots of the Java array plus its length. Slots beyond `size` hold stale values that are never read, so they are not modelled.
- HashTables.Valid: the `currentPrime` field always equals the table length, so it is not stored separately.
- HashTables.Next: the anonymous iterator object is a value that `Next` returns updated, not a mutable object. `HashTables.IterateAll` is the client loop that drives it.
- FourHeaps.PercolateDown: `percolateDown` calls `findBestIndex` twice per step with the same arguments. The call is pure, so the model calls it once per step.
- Multigraphs.FindEdges: the copy is a fresh object in Java. Collections are values here, so the model cannot tell a copy from the stored collection.
- HashTables.GetIterator: Java's `table.clone()` (HashTable.java:114) is a shallow copy, so the iterator shares the count objects with the table. An `incCount` after `getIterator` changes the counts that `next` reports, while items added later never appear. The model copies values, so the counts are frozen when the iterator is made. `HashTables.IterateAll` assumes no `incCount` runs during the iteration.
- EdgeCollections.Iterator: Java hands out the live `ArrayList` iterator (EdgeCollection.java:121). A caller can remove labels through it, and a later `add` makes it throw `ConcurrentModificationException`. The model returns a snapshot of the labels and models neither.

## Findings

| source | as written | input that shows it | evidently intended | confidence | as-written member | corrected member |
|---|---|---|---|---|---|---|
| Multigraph.java:310-313 | The inner loop starts at `j = i`, so for each node `checkRep` tests only the entries to nodes at or after it in sorted order. It never tests entries to unregistered children. | Nodes 0 and 1, where node 1 has an entry to node 0 holding an empty collection: `checkRep` passes, although the invariant at lines 33-38 is broken. | Every entry of every node is tested for a non-empty collection, whatever the order of its child. | medium; not executed; every call of `checkRep` is commented out | Multigraphs.CheckRepMissesEarlierChild | Multigraphs.CheckRepAllPairsIsValid |
