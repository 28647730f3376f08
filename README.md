# Priority queues of data points

This project models two array-backed priority queues of `DataPoint` records, a
label paired with an integer priority, and proves properties of that model. A
sorting routine and a top-k selector built on the queues are modelled too.

- `PQSortedArray` (module `SortedArray`) keeps its buffer sorted by
  non-increasing priority from slot 0. The record with the smallest priority
  sits in the last filled slot, where `Peek` and `Dequeue` read it.
  `Enqueue` doubles the buffer when one free slot is left. It then finds the
  first slot whose priority is at most the new one, shifts the tail by one
  slot and inserts.
- `PQHeap` (module `Heap`) keeps a binary min-heap in its buffer. The children
  of slot i are 2i+1 and 2i+2, and the parent is (i-1)/2 with C++ truncating
  division, so slot 0 is its own parent. `Enqueue` sifts up. `Dequeue` returns
  the root, moves the last element to the root and sifts it down.
- `pqSort` (module `Client`) enqueues a whole vector into a sorted-array
  queue and drains it back into the vector. The result is in non-decreasing
  priority order.
- `topK` keeps a working set of at most k records. Once the set is full, a
  new record replaces the current minimum only when its priority is strictly
  larger. At the end the set is written into the result back to front, so the
  result is in descending order.

Both queues extract the minimum priority. The code does this everywhere:
- `dequeue` reads the last slot of the non-increasing buffer;
- the heap's comparisons keep the smallest priority at the root;
- `pqSort`'s tests expect ascending output.

Each queue is a class. Its operations that change state (`Enqueue`,
`Dequeue`, `Clear`, the growth step) are methods. `ValidateInternalState`
is a method too, but it changes nothing and returns an `Outcome`. The queries
`Peek`, `Size`, `IsEmpty` and the child-index helpers are functions that read
the object, and `ParentIndex` is a static function of the index alone.
The class fields are the buffer (`elements`), the fill count (`numFilled`)
and the capacity (`numAllocated`). Each contract relates the filled prefix,
`Contents()`, to specification functions:
- `SortedInsert` for the sorted array;
- a multiset and the predicate `IsHeap` for the heap;
- `InsertAll` and `Reverse` for `pqSort`;
- `WorkingSet` and `Dominates` for `topK`.

Lemmas prove what those functions promise. `WorkingSet(stream, k)` is the
working set after the records of `stream`, built one `Offer` at a time.
`Dominates(s, t)` says that no record of `s` left out of `t` has a larger
priority than any record of `t`.

An error the source raises with `error(...)` is a `Result` or `Outcome` value
here. Peeking or dequeuing an empty queue gives `EmptyQueue`. A failed
consistency check gives `TooManyElements` or `OutOfOrder(i)`. Indexing a
vector past its end gives `IndexOutOfRange`.

The record's label is called `name`, because `label` is a reserved word in
Dafny. The input stream of `topK` is a `seq<DataPoint>`, and the vector that
`pqSort` sorts in place is an `array<DataPoint>`.

The heap's `dequeue` and its consistency check are modelled as evidently
intended. The code as written is modelled beside them, with the inputs on which
it goes wrong; see "## Findings".

## Model

| member | source | states |
|---|---|---|
| DataPoints.Grow | pqsortedarray.cpp:44-52 | the new buffer is fresh, twice as long, and holds the old filled prefix unchanged |
| SortedArray.AdjacentOrderedIffNonIncreasing | pqsortedarray.cpp:155-159 | the neighbour-by-neighbour check of the consistency routine holds exactly when the whole prefix is non-increasing |
| SortedArray.NonIncreasing | pqsortedarray.cpp:155-159 | the ordering invariant of the sorted array: priorities never increase with the index (a definition; `AdjacentOrderedIffNonIncreasing` ties it to the check's neighbour test) |
| SortedArray.InsertPos | pqsortedarray.cpp:54-61 | the insertion slot is within the prefix; every earlier slot has a strictly larger priority, and the slot found, if filled, has priority at most the new one |
| SortedArray.SortedInsert | pqsortedarray.cpp:54-74 | the filled prefix after `enqueue` when no growth is needed: the record placed at `InsertPos` with the tail shifted (a definition; its properties are the lemmas below) |
| SortedArray.SortedInsertAt | pqsortedarray.cpp:62-74 | after insertion, slots before the position are unchanged, the position holds the new record, and later slots hold the old ones shifted by one |
| SortedArray.SortedInsertMultiset | pqsortedarray.cpp:62-74 | insertion adds exactly the new record to the stored multiset |
| SortedArray.SortedInsertSorted | pqsortedarray.cpp:54-74 | inserting at the position found keeps a non-increasing buffer non-increasing |
| SortedArray.SortedInsertSpec | pqsortedarray.cpp:54-74 | insertion grows the length by one, adds exactly the new record, and keeps the order |
| SortedArray.InsertedAt | pqsortedarray.cpp:63-74 | a buffer that agrees slot by slot with the shifted-and-placed layout equals the insertion |
| SortedArray.EqualPrioritiesLeaveFirst | pqsortedarray.cpp:56-61 | the new record goes in front of every stored record of equal priority, so equal priorities leave first in, first out |
| SortedArray.LastIsMinimum | pqsortedarray.cpp:85-95 | the last slot of a non-increasing buffer has the minimum priority |
| SortedArray.PQSortedArray.constructor | pqsortedarray.cpp:21-25 | a new queue is valid and empty, with capacity 10 |
| SortedArray.PQSortedArray.Enqueue | pqsortedarray.cpp:42-75 | the contents become the sorted insertion of the new record; capacity doubles exactly when one free slot was left; the queue stays valid |
| SortedArray.PQSortedArray.PlaceSorted | pqsortedarray.cpp:54-74 | with two free slots, the contents become the sorted insertion and the buffer and capacity stay the same |
| SortedArray.PQSortedArray.Expand | pqsortedarray.cpp:43-53 | the buffer is replaced by a fresh one of twice the capacity with the same contents |
| SortedArray.PQSortedArray.FindInsertPos | pqsortedarray.cpp:54-61 | the search loop finds the first slot whose priority is at most the new one, or the fill count |
| SortedArray.PQSortedArray.InsertAt | pqsortedarray.cpp:62-74 | the tail from the position moves one slot back and the record is placed at the position |
| SortedArray.PQSortedArray.Size | pqsortedarray.cpp:81-83 | the number of stored records |
| SortedArray.PQSortedArray.IsEmpty | pqsortedarray.cpp:115-117 | true exactly when nothing is stored |
| SortedArray.PQSortedArray.Peek | pqsortedarray.cpp:90-95 | fails with EmptyQueue exactly on an empty queue; otherwise returns the last stored record, whose priority is the minimum |
| SortedArray.PQSortedArray.Dequeue | pqsortedarray.cpp:104-109 | fails on an empty queue and changes nothing; otherwise returns the minimum and removes exactly it from the back |
| SortedArray.PQSortedArray.Clear | pqsortedarray.cpp:126-128 | the queue becomes empty with the same buffer and capacity |
| SortedArray.PQSortedArray.ValidateInternalState | pqsortedarray.cpp:144-160 | passes exactly when the fill count is within capacity and the prefix is non-increasing; TooManyElements exactly when the count exceeds the capacity, and otherwise a failure is always OutOfOrder(i) at the first index i whose priority exceeds the one before it |
| Heap.TruncHalf | pqheap.cpp:168-172 | C++ halving, which rounds toward zero for negative values as well |
| Heap.IsHeap | pqheap.cpp:147-151 | the min-heap invariant the check means to test: no filled child has a smaller priority than its parent (a definition) |
| Heap.HeapRootIsMinimum | pqheap.cpp:63-68 | in a heap, the root's priority is at most that of any slot |
| Heap.HeapRootIsMinimumAll | pqheap.cpp:63-68 | in a non-empty heap, the root's priority is at most every stored priority |
| Heap.SiftUpStep | pqheap.cpp:51-56 | swapping a slot with a strictly larger parent moves the single broken edge one level up |
| Heap.SiftDownStep | pqheap.cpp:81-88 | swapping a slot with its smallest, strictly smaller child moves the broken edges one level down |
| Heap.SiftUpDone | pqheap.cpp:51 | the sift-up may stop at the root or below a parent that is no larger, and the buffer is then a heap |
| Heap.SiftDownDone | pqheap.cpp:81-89 | the sift-down may stop when no child is smaller, and the buffer is then a heap |
| Heap.SiftDownExit | pqheap.cpp:81-89 | stopping with no filled child, or with no smaller child, leaves a heap |
| Heap.AppendToHeap | pqheap.cpp:48-50 | appending to a heap breaks at most the edge above the new slot |
| Heap.RootReplaced | pqheap.cpp:79-80 | the filled prefix after the root is overwritten by the last element and the count shrinks (a definition; see the next row) |
| Heap.RootReplacedSpec | pqheap.cpp:76-80 | moving the last element to the root removes exactly the old root and breaks only the edges below the root |
| Heap.SwapInPrefix | pqheap.cpp:53-54 | a two-slot swap inside the filled prefix is that swap on the prefix |
| Heap.RootWriteInPrefix | pqheap.cpp:80 | writing the last slot into the root, then shrinking the count, gives the root-replaced prefix |
| Heap.SwapKeepsMultiset | pqheap.cpp:85-86 | a two-slot swap keeps the stored multiset |
| Heap.AsWrittenGuard | pqheap.cpp:81 | the loop condition as written: `childSpot` has a filled left child (a definition, no contract; used by the lemmas below) |
| Heap.AsWrittenSiftPass | pqheap.cpp:81-89 | one pass of the loop as written: at a slot without two filled children it always reads slot -1 and fails; with both filled it never fails; it stays put, changing nothing, exactly when no child is smaller; otherwise both spots move to the smaller, strictly smaller child, whose record moves up while the left slot gets what `bubbler` holds after the parent write |
| Heap.AsWrittenSiftStalls | pqheap.cpp:81-89 | as written, an element already no larger than both children leaves the state unchanged with the guard still true, so the loop never ends |
| Heap.AsWrittenDequeueNeverEnds | pqheap.cpp:73-89 | for the heap with priorities 1, 2, 2, after the last element overwrites the root, the loop guard holds and a pass returns the same state, so the loop repeats it forever |
| Heap.AsWrittenDequeueReadsOutside | pqheap.cpp:79-83 | for the heap with priorities 1, 2, after the root overwrite, the first pass reads the slot of the missing right child, -1 |
| Heap.AsWrittenValidateReads | pqheap.cpp:147-151 | the slots the check as written reads at index i: always i and the left child's index; -1 at every leaf; with a left child, -1 exactly when the right child is missing and the left child does not already stop the `\|\|` |
| Heap.AsWrittenValidateReadsOutside | pqheap.cpp:147-151 | at the last index of any non-empty heap, a leaf, the check as written reads slot -1 |
| Heap.PQHeap.constructor | pqheap.cpp:18-22 | a new heap is valid and empty, with capacity 10 |
| Heap.PQHeap.ParentIndex | pqheap.cpp:168-172 | slot 0 is its own parent; any other slot's parent is an earlier slot with the slot as its left or right child; negative indices give -1 |
| Heap.PQHeap.LeftChildIndex | pqheap.cpp:177-181 | -1 exactly when 2i+1 is not filled; otherwise a filled odd slot whose parent is i (the body is the helper `FilledOrNone`, shared with the as-written model) |
| Heap.PQHeap.RightChildIndex | pqheap.cpp:186-190 | -1 exactly when 2i+2 is not filled; otherwise a filled even slot whose parent is i (the body is the helper `FilledOrNone`) |
| Heap.PQHeap.SmallerChildIndex | pqheap.cpp:157-163 | a filled child of the slot with the smallest priority among its children; the left one exactly when it is strictly smaller or the right is missing |
| Heap.PQHeap.Enqueue | pqheap.cpp:36-58 | the stored multiset gains exactly the new record, the size grows by one, the heap property holds, and capacity doubles exactly when one free slot was left |
| Heap.PQHeap.SiftUp | pqheap.cpp:48-57 | with a free slot to spare, the record joins the multiset, the heap property holds, and the buffer is kept |
| Heap.PQHeap.PlaceLast | pqheap.cpp:48-50 | the record goes into the first free slot, breaking at most the edge above it |
| Heap.PQHeap.SiftUpFrom | pqheap.cpp:51-56 | the sift-up loop keeps the multiset and leaves a heap |
| Heap.PQHeap.MoveUp | pqheap.cpp:52-55 | one upward swap exchanges the slot and its parent, keeps the multiset, and moves the broken edge to the parent |
| Heap.PQHeap.Expand | pqheap.cpp:37-47 | the buffer is replaced by a fresh one of twice the capacity with the same contents |
| Heap.PQHeap.Peek | pqheap.cpp:63-68 | fails with EmptyQueue exactly on an empty heap; otherwise returns the root, whose priority is the minimum |
| Heap.PQHeap.Dequeue | pqheap.cpp:73-99 | fails on an empty heap; otherwise returns the old root, a minimum, removes exactly it from the multiset, shrinks the size by one, and keeps the heap property |
| Heap.PQHeap.MoveLastToRoot | pqheap.cpp:79-80 | the last element overwrites the root and the fill count drops by one |
| Heap.PQHeap.SiftDown | pqheap.cpp:81-89 | the sift-down loop keeps the multiset and leaves a heap |
| Heap.PQHeap.SwapDown | pqheap.cpp:84-87 | one downward swap exchanges the slot with its smaller child, keeps the multiset, and moves the broken edges to the child |
| Heap.PQHeap.IsEmpty | pqheap.cpp:104-106 | true exactly when nothing is stored |
| Heap.PQHeap.Size | pqheap.cpp:111-113 | the number of stored records |
| Heap.PQHeap.Clear | pqheap.cpp:118-120 | the heap becomes empty with the same buffer and capacity |
| Heap.PQHeap.ValidateInternalState | pqheap.cpp:136-152 | passes exactly when the fill count is within capacity and every filled child is no smaller than its parent; TooManyElements exactly when the count exceeds the capacity, and otherwise a failure is always OutOfOrder(i) for the first slot i that has a filled child of smaller priority |
| Client.InsertAll | pqclient.cpp:18-20 | the buffer after enqueuing every element has the input's length |
| Client.InsertAllSpec | pqclient.cpp:18-20 | enqueuing every element gives a non-increasing buffer holding exactly the input's multiset |
| Client.Reverse | pqclient.cpp:27-29 | reading back to front keeps the length |
| Client.ReverseAt | pqclient.cpp:27-29 | slot j of the reversal is slot n-1-j of the input |
| Client.ReverseMultiset | pqclient.cpp:27-29 | reversal keeps the multiset |
| Client.ReverseSuffix | pqclient.cpp:27-29 | reversing a suffix that starts one slot earlier appends that slot's element |
| Client.ReverseOfNonIncreasing | pqclient.cpp:22-29 | the reversal of a non-increasing sequence is non-decreasing |
| Client.PqSort | pqclient.cpp:14-30 | the vector becomes the enqueued buffer read from the back: a permutation of the input with non-decreasing priorities |
| Client.EnqueueAll | pqclient.cpp:18-20 | a fresh queue's contents are the sorted insertion of all elements, front to back |
| Client.DrainInto | pqclient.cpp:27-29 | draining the queue into the vector from slot 0 writes the contents read from the back |
| Client.Dominates | pqclient.cpp:36-61 | the top-k property: no record left out of the result has a larger priority than a kept one (a definition) |
| Client.Offer | pqclient.cpp:41-52 | one step of the reading loop on the working set: admit while fewer than k are kept, else replace the minimum only by a strictly larger record (a definition; `OfferShape` and `OfferDominates` state its properties) |
| Client.WorkingSet | pqclient.cpp:40-53 | the working set after a stream, one `Offer` per record in order (a definition; `WorkingSetShape` and `WorkingSetDominates` state its properties) |
| Client.TakeOneMore | pqclient.cpp:40-45 | proof helper: a prefix extended by the next element is the next prefix |
| Client.DropLast | pqclient.cpp:40-53 | proof helper: a non-empty sequence is its front part followed by its last element |
| Client.OfferShape | pqclient.cpp:41-52 | one offer keeps the working set non-increasing, within the stream's multiset, with size min(k, records seen) |
| Client.WorkingSetShape | pqclient.cpp:40-53 | the working set has min(k, n) records, is non-increasing, and is drawn from the stream; with n <= k it is every record |
| Client.DominatesReject | pqclient.cpp:48 | a rejected record is no larger than any kept record, so the set still dominates |
| Client.ReplacedAtLeastEvicted | pqclient.cpp:48-51 | after an eviction and insertion, every kept record is at least the evicted minimum |
| Client.SwapOut | pqclient.cpp:49-50 | proof helper on multisets: removing one kept record and adding a new one leaves out only the old omissions and the evicted record |
| Client.LeftOutAtMostEvicted | pqclient.cpp:48-51 | every record left out after a replacement is at most the evicted minimum |
| Client.DominatesReplace | pqclient.cpp:48-51 | a replacement of the minimum by a strictly larger record keeps domination |
| Client.OfferDominates | pqclient.cpp:41-52 | one offer keeps domination over all records seen |
| Client.WorkingSetDominates | pqclient.cpp:40-53 | no record of the stream left out of the working set is larger than a kept record |
| Client.TopK | pqclient.cpp:36-61 | an empty stream gives no records; with 1 <= k <= n, the k largest records in non-increasing order, dominating the rest; the as-written error cases for k < 1 and n < k |
| Client.ReadStream | pqclient.cpp:40-53 | the reading loop leaves the working set in the queue and the first min(k, n) records in the result vector; k < 1 with a record fails on peek |
| Client.OfferOne | pqclient.cpp:41-52 | one loop body admits a record exactly while the queue holds fewer than k; otherwise the queue becomes the offer of the record, or the peek of an empty queue fails |
| Client.ReplaceMinimum | pqclient.cpp:49-50 | dequeuing the minimum and enqueuing the record gives the sorted insertion into the rest |
| Client.FillBackToFront | pqclient.cpp:55-59 | writing from slot `last` down gives the queue's contents in order when `last` is the vector's last slot, and an index error when it is past the end |
| Client.TopKCorrected | pqclient.cpp:36-61 | as intended: nothing for k < 1, otherwise every record if n < k, else the k largest, in non-increasing order and dominating the rest |
| Client.ShortStreamFails | pqclient.cpp:55-57 | as written, one record with bound 5 fails with an index error |
| Client.ShortStreamCorrected | pqclient.cpp:55-59 | corrected, one record with bound 5 gives that record |
| Client.ZeroBoundFails | pqclient.cpp:41-48 | as written, one record with bound 0 fails on the peek of an empty queue |
| Client.ZeroBoundCorrected | pqclient.cpp:41-48 | corrected, bound 0 selects nothing |
| Client.InsertLargest | pqsortedarray.cpp:56-61 | a record at least as large as the front of the buffer is inserted at slot 0 |
| Client.WorkingSetStep | pqclient.cpp:40-53 | the working set after one more record is the offer of that record |
| Client.OfferAdmitsFront | pqclient.cpp:41-45 | with room left, a record no smaller than the front is admitted at the front |
| Client.OfferEvictsToFront | pqclient.cpp:48-51 | on a full set, a record larger than every kept one evicts the last and goes to the front |
| Client.RisingPrefix | pqclient.cpp:148-161 | any bound of at least 2 keeps the first two rising records, larger first |
| Client.RisingTwoPrefix | pqclient.cpp:148-152 | with bound 2, the third rising record evicts the first |
| Client.RisingTwo | pqclient.cpp:148-152 | with bound 2, four rising records leave the last two, largest first |
| Client.RisingThreePrefix | pqclient.cpp:154-161 | a bound of at least 3 keeps the first three rising records, largest first |
| Client.RisingThree | pqclient.cpp:154-156 | with bound 3, four rising records leave the last three, largest first |
| Client.RisingFour | pqclient.cpp:158-160 | with bound 4, four rising records all stay, largest first |
| Client.HandWorkedTopK | pqclient.cpp:148-161 | topK of A1, B2, C3, D4 gives [D4, C3], [D4, C3, B2] and all four descending for k = 2, 3, 4 |

## Left out

- `printDebugInfo` (pqsortedarray.cpp:133-138) and its commented-out heap copy print to the console, which the model does not have.
- The destructors and the `new[]`/`delete[]` calls are not modelled: Dafny storage is garbage collected.
- `PQSortedArray::enqueue` allocates a fresh buffer and copies both halves into it on every insertion (pqsortedarray.cpp:64-73). The model shifts the tail in place. The stored records are the same.
- `topK` reads records with `stream >> cur` from an `istream`; the model takes a `seq<DataPoint>` instead. The `asStream` helpers, the tests and `TIME_OPERATION` timing are left out.
- `int` is 32 bits in the source; priorities, sizes and indices are unbounded integers here. Capacity doubling and index arithmetic cannot overflow in the model.
- Heap.PQHeap.Dequeue: decrements the fill count before the sift-down (pqheap.cpp:90 does so after it). During the source's sift, the stale last slot holds a copy of the moving element, which never compares strictly smaller, so the resulting heap is the same.
- Heap.PQHeap.Dequeue and Heap.PQHeap.SiftDown: the loop advances with the moving element and stops when no existing child is strictly smaller. The as-written loop, which can stall or read slot -1, is modelled as Heap.AsWrittenSiftPass.
- Heap.PQHeap.SmallerChildIndex: when the right child is missing, it picks the left one rather than reading slot -1 (pqheap.cpp:158).
- Heap.PQHeap.ValidateInternalState: it compares only existing children rather than reading slot -1 at leaves (pqheap.cpp:148-149).
- Heap.PQHeap.Dequeue: states the new contents only up to their multiset and the heap property, because the heap's slot order depends on the sift path.
- Heap.PQHeap.Enqueue: states the new contents only up to their multiset and the heap property; the exact slot order the sift-up produces (for two records of equal priority, the first one stays at the root) is not stated.
- Heap.PQHeap.SiftUp: states the new contents only up to their multiset and the heap property, like Heap.PQHeap.Enqueue.
- Heap.PQHeap.SiftUpFrom: states the new contents only up to their multiset and the heap property; each swap it makes is stated exactly by Heap.PQHeap.MoveUp.
- Heap.PQHeap.SiftDown: states the new contents only up to their multiset and the heap property; each swap it makes is stated exactly by Heap.PQHeap.SwapDown.
- `datapoint.h` and the record's stream operators are not part of this model; `DataPoint` equality is equality of both fields.

## Findings

| source | as written | input that shows it | evidently intended | confidence | as-written member | corrected member |
|---|---|---|---|---|---|---|
| pqclient.cpp:55-57 | the fill loop starts at `k - 1` even when fewer than k records were read, and indexes `trueData` past its end | a stream of one record with k = 5 | write from `trueData.size() - 1`, returning every record in descending order | high (not executed) | Client.ShortStreamFails | Client.TopKCorrected |
| pqclient.cpp:41-48 | with k < 1 the queue never admits a record, so the first record peeks an empty queue | a stream of one record with k = 0 | select nothing | medium (not executed) | Client.ZeroBoundFails | Client.ZeroBoundCorrected |
| pqheap.cpp:81-89 | the loop advances only when it swaps, and its guard tests `childSpot`, so an element already in place loops forever | dequeue from a heap holding priorities 1, 2, 2 | stop the sift-down once no child is strictly smaller | high (not executed) | Heap.AsWrittenDequeueNeverEnds | Heap.PQHeap.Dequeue |
| pqheap.cpp:82-83 | a missing right child's index -1 is used to read the buffer | dequeue from a heap holding priorities 1, 2 | compare only with children that exist | high (not executed) | Heap.AsWrittenDequeueReadsOutside | Heap.PQHeap.SiftDown |
| pqheap.cpp:147-151 | the check reads slot -1 at every leaf | any heap holding one record | compare only with children that exist | high (not executed) | Heap.AsWrittenValidateReadsOutside | Heap.PQHeap.ValidateInternalState |
