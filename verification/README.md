# ArrayList and LinkedList of the JDK 1.8 collections, in Dafny

This project models the two list implementations of `java.util` in JDK 1.8: the array-backed
`ArrayList` and the doubly-linked `LinkedList`. The model covers their iterators, the
`ArrayList.SubList` view and its iterator, and both spliterators. It proves what each operation
does to the list's contents, the exception each operation throws and when, and how the fail-fast
`modCount` protocol behaves.

Conventions shared by every module:

- **Elements.** A Java reference is `Ref<T>`, either `Null` or `Obj(value)`. `Matches(o, e)` is the
  two-branch comparison that `indexOf`, `contains` and `remove(Object)` use: `o == null ? e == null
  : o.equals(e)`. Here `equals` is value equality.
- **Results.** An operation that can throw returns a `Result` (`Ok(value)` or `Err(exception)`).
- **State on failure.** A mutating operation returns an `Outcome(state, result)`. Java does not roll
  back a half-done mutation before it throws, so the state is returned on failure too. For example,
  `ArrayList.remove(-1)` has already incremented `modCount` when the array access fails, and
  `ArrayList.add` has already incremented it when the capacity check throws `OutOfMemoryError`.
- **Integers.** Java `int` arithmetic is unbounded here, except where wrap-around decides
  behaviour:
  - the capacity computations of `ArrayList` (`Int32.Wrap`, `Capacity`);
  - the `(lo + hi) >>> 1` midpoint of the spliterator.
- **`ArrayList`.** A record of `elementData` (the backing array as a sequence), `size` and
  `modCount`. A flag `defaultEmpty` stands for "`elementData` is the shared
  `DEFAULTCAPACITY_EMPTY_ELEMENTDATA` array". `Elements(l)` is `elementData[..size]`.
- **`SubList` views.** A view is `Views(root, chain)`. `chain[0]` is a view of the root list, and
  `chain[k]` is a view of `chain[k-1]`. Each level keeps its own `parentOffset`, `offset`, `size`
  and `modCount`, as the Java objects do:
  - a structural change made through level `k` updates the sizes and `modCount`s of levels
    `0..k` (`Forwarded`);
  - `Live(v, k)` says every level up to `k` is still in step with the root;
  - `ViewElements(v, k)` is then the root's elements at `offset .. offset + size`.
- **`LinkedList`.** Nodes live in an arena, a `seq<Node>`, and links are arena indices, with `NIL`
  (-1) standing for `null`:
  - `Order(l)` follows `next` from `first` for `size` steps;
  - `Valid(l)` says that walk is a chain: distinct nodes whose `prev` and `next` agree, ending at
    `last`;
  - `Items(l)` reads the items along it;
  - unlinked nodes stay in the arena with their fields cleared, as the garbage they are in Java.
- **Callbacks.** The `Consumer`, `Predicate`, `UnaryOperator` and the `contains` of the collection
  argument of `removeAll`/`retainAll` are pure functions.
- **Traversals.** The spliterators' `tryAdvance` and `forEachRemaining` and the sub-list
  iterator's `forEachRemaining` hand elements to the consumer before their last check, so they can
  throw after the consumer has accepted elements. They return a `Traversal(state, accepted, thrown)`:
  the elements the consumer accepted, in order, and the exception thrown after them, if any. The
  `forEachRemaining` of `ArrayList.Itr` and `LinkedList.ListItr` check before handing anything
  over, so they return an `Outcome` whose result is the sequence handed over or the exception.

## Model

| member | source | states |
|---|---|---|
| Int32.Wrap | java/util/ArrayList.java:186-203 | the result is the 32-bit two's-complement value congruent to the argument, and equals it when it is already an `int` |
| Int32.UnsignedShiftRight1 | java/util/ArrayList.java:1396-1401 | `>>> 1` halves a non-negative `int` and reads a negative one as its unsigned value before halving |
| Int32.MidpointNoOverflow | java/util/ArrayList.java:1396-1401 | for two non-negative `int`s, `(lo + hi) >>> 1` computed with wrap-around is the true midpoint |
| Capacity.HugeCapacity | java/util/ArrayList.java:211-217 | a negative (overflowed) request throws `OutOfMemoryError`; otherwise the capacity is at least `MAX_ARRAY_SIZE`, at most `Integer.MAX_VALUE`, and covers the request |
| Capacity.IdealCapacity | java/util/ArrayList.java:186-203 | the capacity `grow` aims at covers the request, stays an `int`, and is at least the old capacity unless capped near the maximum |
| Capacity.NewCapacityIsIdeal | java/util/ArrayList.java:186-203 | for a genuine request above the current length, the wrap-around arithmetic of `grow` yields exactly the 1.5x-or-request capacity, capped by `hugeCapacity` |
| Capacity.NegativeRequestFails | java/util/ArrayList.java:186-217 | an overflowed (negative) request that passes the growth test either throws or asks for a negative array length |
| Capacity.OverflowedRequestReachesGrow | java/util/ArrayList.java:161-168 | when `size + numNew` overflows, the wrapped request is negative yet still passes the `minCapacity - length > 0` test, so `grow` runs |
| Seqs.Filter | java/util/ArrayList.java:739-773 | the kept elements all pass the test, and nothing is dropped exactly when every element passes |
| Seqs.FilterAppend | java/util/ArrayList.java:739-773 | filtering distributes over concatenation |
| Seqs.Reverse | java/util/LinkedList.java:1069-1083 | the reversal has the same length and holds at position `k` the element that stood `k` places from the end |
| ArrayListModel.CopyOf | java/util/ArrayList.java:186-203 | `Arrays.copyOf` keeps the prefix that fits and pads with `null` |
| ArrayListModel.ArrayCopy | java/util/ArrayList.java:640-652 | `System.arraycopy` succeeds exactly when both ranges lie inside their arrays (else `ArrayIndexOutOfBoundsException`), and then the destination range holds the source range and nothing else changes |
| ArrayListModel.Create | java/util/ArrayList.java:89-91 | the no-argument constructor gives an empty list sharing the default empty array |
| ArrayListModel.CreateWithCapacity | java/util/ArrayList.java:68-82 | a negative capacity throws `IllegalArgumentException`; otherwise the list is empty with an array of exactly that length |
| ArrayListModel.CreateFrom | java/util/ArrayList.java:102-114 | the list holds exactly the collection's elements in order, in an array of that length |
| ArrayListModel.TrimToSize | java/util/ArrayList.java:122-129 | the contents are unchanged, the array shrinks to `size`, and `modCount` increases |
| ArrayListModel.Grow | java/util/ArrayList.java:186-203 | growth keeps the contents and `modCount`; it reaches the ideal capacity for a non-negative request and throws for an overflowed one |
| ArrayListModel.GrowthCases | java/util/ArrayList.java:186-217 | the capacity `grow` computes is the ideal one for a non-negative request, and an error or a negative length for a negative one |
| ArrayListModel.EnsureExplicitCapacity | java/util/ArrayList.java:161-168 | `modCount` always increases; the contents never change; the array grows only when too short, and then to the ideal capacity |
| ArrayListModel.EnsureCapacityInternal | java/util/ArrayList.java:151-159 | a non-negative request is always satisfied, and a list on the default empty array gets at least `DEFAULT_CAPACITY` slots |
| ArrayListModel.EnsureCapacity | java/util/ArrayList.java:138-149 | the public hint changes `modCount` only when the request exceeds the minimum expansion (10 for the default empty array, 0 otherwise) |
| ArrayListModel.GrowthRequest | java/util/ArrayList.java:569-582 | making room for `numNew` more elements succeeds exactly when `size + numNew` fits in an `int`, and then the array can hold them |
| ArrayListModel.Get | java/util/ArrayList.java:397-401 | succeeds exactly for `0 <= index < size` with that element; `index >= size` throws `IndexOutOfBoundsException`, a negative index `ArrayIndexOutOfBoundsException` |
| ArrayListModel.Set | java/util/ArrayList.java:413-419 | replaces exactly the element at an in-range index and returns the old one, without touching `modCount`; out of range leaves the list as it was |
| ArrayListModel.Add | java/util/ArrayList.java:428-434 | appends the element and returns true, unless the list already has `Integer.MAX_VALUE` elements (`OutOfMemoryError`, contents unchanged); `modCount` increases either way |
| ArrayListModel.IsPositionIndex | java/util/ArrayList.java:670-673 | an insertion position is one of `0..size`, the positions around the list's elements |
| ArrayListModel.AddAt | java/util/ArrayList.java:446-460 | inserts at a position `0..size`, shifting the tail right; an out-of-range position throws before anything changes |
| ArrayListModel.FastRemove | java/util/ArrayList.java:530-537 | removes the element at the index, shifts the tail left and nulls the vacated last slot |
| ArrayListModel.RemoveAt | java/util/ArrayList.java:472-490 | removes and returns the element at an in-range index; `index >= size` changes nothing, while a negative index has already bumped `modCount` when it throws `ArrayIndexOutOfBoundsException` |
| ArrayListModel.AddAll | java/util/ArrayList.java:569-582 | appends the collection in order and reports whether it was non-empty; `modCount` increases even for an empty collection |
| ArrayListModel.AddAllAt | java/util/ArrayList.java:600-623 | inserts the collection at a position `0..size`; an out-of-range position throws before any change |
| ArrayListModel.InsertAllAt | java/util/ArrayList.java:609-621 | with room reserved, the two `arraycopy` calls splice the collection in at the index |
| ArrayListModel.OpenGapAndFill | java/util/ArrayList.java:612-619 | shifting the tail right by the collection's length and copying `c` into the gap leaves prefix, collection, tail in that order |
| ArrayListModel.RemoveRange | java/util/ArrayList.java:640-652 | as written: succeeds exactly when its single `arraycopy` is in bounds, and the new size is `size - (toIndex - fromIndex)` even for reversed bounds; only for `fromIndex <= toIndex` is the range cut out and the tail nulled |
| ArrayListModel.RemoveRangeChecked | java/util/ArrayList.java:624-652 | corrected: succeeds exactly for `0 <= fromIndex <= toIndex <= size`, then cuts the range out and nulls the tail; reversed bounds throw and leave the list as it was |
| ArrayListModel.RemoveRangeReversedGrows | java/util/ArrayList.java:640-652 | on `[1, 2, 3]` with capacity 4, `removeRange(2, 1)` succeeds and leaves `[1, 2, 2, 3]`, where the corrected version throws |
| ArrayListModel.Clear | java/util/ArrayList.java:544-553 | the list becomes empty, the used slots are nulled, capacity and the slots beyond `size` are kept, and `modCount` increases |
| ArrayListModel.IndexOf | java/util/ArrayList.java:261-272 | returns the first position matching `o` (null matching null), or -1 exactly when none matches |
| ArrayListModel.LastIndexOf | java/util/ArrayList.java:282-293 | returns the last matching position, or -1 exactly when none matches |
| ArrayListModel.Contains | java/util/ArrayList.java:249-251 | true exactly when some element matches |
| ArrayListModel.RemoveElement | java/util/ArrayList.java:508-523 | removes the first matching element and reports true; when nothing matches the list is returned unchanged |
| ArrayListBulk.FirstFailure | java/util/ArrayList.java:744-750 | the position of the first element whose `contains` throws, or the size when none does |
| ArrayListBulk.CompactKept | java/util/ArrayList.java:744-750 | the compaction loop keeps, in order, exactly the elements read before the first failure whose `contains` answer equals `complement` |
| ArrayListBulk.BatchRemove | java/util/ArrayList.java:739-773 | the kept elements are followed by the unread tail when `contains` threw (the `finally` block); freed slots are nulled; `modCount` grows by the number removed; the result says whether anything was removed |
| ArrayListBulk.KeepTail | java/util/ArrayList.java:755-761 | after a failure, the unread tail is copied right after the kept prefix |
| ArrayListBulk.RemoveAll | java/util/ArrayList.java:701-706 | without a failing `contains`, exactly the elements not in the collection remain, in order; when `contains` throws at index `f`, the decided prefix is filtered and the rest kept; `modCount` rises by the number removed, the result is whether the list shrank, and the error is the callback failure |
| ArrayListBulk.RetainAll | java/util/ArrayList.java:725-730 | without a failing `contains`, exactly the elements in the collection remain, in order; when `contains` throws at index `f`, the decided prefix is filtered and the rest kept; `modCount` rises by the number removed, the result is whether the list shrank, and the error is the callback failure |
| ArrayListBulk.NextClearBit | java/util/ArrayList.java:1476-1477 | the first unmarked position at or after `from` |
| ArrayListBulk.MarkRemovals | java/util/ArrayList.java:1457-1467 | marks exactly the elements the filter accepts and counts them |
| ArrayListBulk.CompactSurvivors | java/util/ArrayList.java:1474-1483 | the survivors of the filter end up in order at the front of the array |
| ArrayListBulk.KeptCount | java/util/ArrayList.java:1473-1475 | the new size `size - removeCount` is the number of elements the filter rejects |
| ArrayListBulk.RemoveIf | java/util/ArrayList.java:1452-1491 | exactly the rejected elements remain, in order; the result is true exactly when some element matched, and `modCount` increases only then |
| ArrayListBulk.ReplaceAll | java/util/ArrayList.java:1495-1506 | every element is replaced by the operator's image of it, the size is kept, and `modCount` increases |
| ArrayListIter.Iterator | java/util/ArrayList.java:870-885 | a fresh iterator starts at 0 with no last element, in step with the list |
| ArrayListIter.ListIterator | java/util/ArrayList.java:843-860 | a list iterator at `index` exists exactly for `0 <= index <= size` |
| ArrayListIter.HasNext | java/util/ArrayList.java:883-885 | for an in-step iterator, true exactly when an element lies at the cursor; a cursor left past the end by a foreign removal also answers true |
| ArrayListIter.HasPrevious | java/util/ArrayList.java:953-955 | true exactly when `previousIndex` names an element |
| ArrayListIter.NextIndex | java/util/ArrayList.java:957-959 | never negative |
| ArrayListIter.PreviousIndex | java/util/ArrayList.java:961-963 | one less than `nextIndex`, so at least -1 |
| ArrayListIter.QueriesMatchSteps | java/util/ArrayList.java:883-976 | on an in-step iterator, `hasNext`/`hasPrevious` hold exactly when `next`/`previous` succeed, `next` moves `nextIndex` up by one, and `previous` returns element `previousIndex` and moves the cursor onto it |
| ArrayListIter.Next | java/util/ArrayList.java:888-898 | with `modCount` unchanged and elements left, returns the element at the cursor and advances; otherwise `ConcurrentModificationException` or `NoSuchElementException` with the iterator unchanged |
| ArrayListIter.Previous | java/util/ArrayList.java:966-976 | with `modCount` unchanged and `cursor > 0`, steps back and returns the element before the cursor; a cursor beyond the array throws `ConcurrentModificationException` |
| ArrayListIter.Remove | java/util/ArrayList.java:900-913 | removes the last returned element, moves the cursor onto its position and resynchronises; without a last element `IllegalStateException`, after a foreign change `ConcurrentModificationException` |
| ArrayListIter.SetLast | java/util/ArrayList.java:978-988 | overwrites the last returned element without touching `modCount`; same error cases as `remove` |
| ArrayListIter.AddHere | java/util/ArrayList.java:990-1002 | inserts at the cursor, moves past the new element, forgets the last element and resynchronises |
| ArrayListIter.ForEachRemaining | java/util/ArrayList.java:917-935 | hands over the elements from the cursor to the end, leaving the cursor at `size` and the last element at `size - 1`; the result equals calling `next` until `hasNext` is false |
| ArrayListIter.NextLoopYieldsRest | java/util/ArrayList.java:883-898 | repeated `next` on an in-step iterator yields exactly the rest of the list |
| ArrayListIter.ForeignAddInvalidates | java/util/ArrayList.java:937-940 | after an `add` made directly on the list, every iterator operation that checks throws `ConcurrentModificationException` and changes nothing |
| ArrayListSpliter.Spliterator | java/util/ArrayList.java:1325-1327 | a new spliterator starts at index 0 unbound, and its first use binds it to the list's size and `modCount` at that moment |
| ArrayListSpliter.GetFence | java/util/ArrayList.java:1382-1394 | the first use binds the fence to the current size and the expected `modCount` to the current one; later uses keep both |
| ArrayListSpliter.GetFenceCommits | java/util/ArrayList.java:1382-1394 | once bound, later changes to the list do not move the fence |
| ArrayListSpliter.TrySplit | java/util/ArrayList.java:1396-1401 | splits off the lower half `[lo, mid)` when at least two elements remain and keeps `[mid, hi)`; otherwise returns none and only binds |
| ArrayListSpliter.MidpointOfIndexAndFence | java/util/ArrayList.java:1397 | the unsigned-shift midpoint of a non-negative index and fence does not overflow |
| ArrayListSpliter.TryAdvance | java/util/ArrayList.java:1403-1416 | hands over nothing and throws nothing exactly when the range is exhausted; otherwise advances, and either throws `ArrayIndexOutOfBoundsException` before handing anything over or hands over the element at the index and then throws `ConcurrentModificationException` exactly when `modCount` moved |
| ArrayListSpliter.ForEachRemaining | java/util/ArrayList.java:1418-1440 | when the index is non-negative and the fence fits the array, hands over `elementData[index..fence]` and only then throws `ConcurrentModificationException`, exactly when `modCount` moved; otherwise hands over nothing and throws it |
| ArrayListSpliter.EstimateSize | java/util/ArrayList.java:1442-1444 | the estimate is `fence - index` after binding |
| ArrayListSpliter.AdvanceLoopMatchesForEach | java/util/ArrayList.java:1403-1440 | on an unchanged list, repeated `tryAdvance` yields the same elements and final state as `forEachRemaining` |
| ArrayListSpliter.AdvanceLoopStopsAtFirstCheck | java/util/ArrayList.java:1403-1440 | on a modified list, repeated `tryAdvance` hands over one element before it throws, while `forEachRemaining` hands over the whole range first |
| ArrayListSpliter.SplitPartitions | java/util/ArrayList.java:1396-1440 | the two halves of a split together traverse exactly the parent's range, and their estimates add up |
| ArrayListSpliter.WholeListTraversal | java/util/ArrayList.java:1325-1327 | a fresh spliterator traverses exactly the list's elements |
| ArrayListSpliter.LateBindingExample | java/util/ArrayList.java:1382-1394 | an unbound spliterator sees an element added after its creation; one bound before the add hands over its original range and then throws |
| ArrayListSpliter.ViewSpliterator | java/util/ArrayList.java:1290-1294 | a sub-list's spliterator exists exactly when the view is in step, and then traverses exactly the view's elements |
| ArraySubList.LiveInBounds | java/util/ArrayList.java:1065-1072 | a live view lies inside the root's elements, and each nested view is no larger than its ancestors |
| ArraySubList.ViewElements | java/util/ArrayList.java:1082-1091 | a live view's elements have the view's size |
| ArraySubList.SubListOf | java/util/ArrayList.java:1034-1054 | `subList` succeeds exactly for `0 <= fromIndex <= toIndex <= size`; bad ends throw `IndexOutOfBoundsException`, reversed ends `IllegalArgumentException`; the view shows exactly that range |
| ArraySubList.SubListOfView | java/util/ArrayList.java:1266-1269 | a nested `subList` has the same range checks against the view's size, and adds a level with offset `offset + fromIndex` and the root's current `modCount` |
| ArraySubList.SubListOfViewLive | java/util/ArrayList.java:1266-1269 | a nested view of a live view is live and shows exactly the requested slice of its parent |
| ArraySubList.ViewGet | java/util/ArrayList.java:1082-1086 | on a live view, `get` succeeds exactly in range and reads the root at `offset + index`; out of range is checked before staleness |
| ArraySubList.ViewSet | java/util/ArrayList.java:1074-1080 | writes the root slot `offset + index` and returns its old value, leaving every `modCount` as it was |
| ArraySubList.ViewSetLive | java/util/ArrayList.java:1074-1080 | on a live view, `set` succeeds exactly in range, keeps the view live and replaces exactly that element of the view |
| ArraySubList.ViewSize | java/util/ArrayList.java:1088-1091 | `size` throws `ConcurrentModificationException` exactly when the view is out of step, else it is the view's length |
| ArraySubList.ResyncPath | java/util/ArrayList.java:1093-1099 | after a change through level `k`, levels `0..k` have their size adjusted by the change and their `modCount` set to the root's, and deeper levels are untouched |
| ArraySubList.RootIndexIsOffset | java/util/ArrayList.java:1093-1099 | passing an index up through the parents' `parentOffset`s reaches the root at `offset + index` |
| ArraySubList.PathCheck | java/util/ArrayList.java:1093-1108 | the checks a nested call meets on its way up: a range error at the view itself, else a modification error at the first level out of step |
| ArraySubList.PathCheckLive | java/util/ArrayList.java:1093-1108 | on a live view the path raises nothing exactly when the index fits |
| ArraySubList.ViewAddAt | java/util/ArrayList.java:1093-1099 | inserts into the root at `offset + index` and forwards every level up to the view by +1; failures leave root contents and chain alone |
| ArraySubList.ViewRemoveAt | java/util/ArrayList.java:1101-1108 | removes and returns the root element at `offset + index` and forwards the levels by -1 |
| ArraySubList.ViewRemoveRange | java/util/ArrayList.java:1110-1116 | throws exactly when some level is out of step; otherwise removes the root range and forwards the levels by `-(toIndex - fromIndex)` |
| ArraySubList.ViewAddAll | java/util/ArrayList.java:1122-1133 | an empty collection returns false without checking staleness; otherwise splices the collection into the root at `offset + index` and forwards the levels by the collection's length |
| ArraySubList.ViewAppendAll | java/util/ArrayList.java:1118-1120 | `addAll(c)` on a view inserts at the view's end |
| ArraySubList.ViewClear | java/util/ArrayList.java:1110-1116 | `clear` (inherited, it calls `removeRange(0, size)`) removes exactly the view's range from the root and leaves the view empty |
| ArraySubList.ForwardKeepsLive | java/util/ArrayList.java:1093-1116 | a view through which a change was made stays live and keeps its offset |
| ArraySubList.SpliceView | java/util/ArrayList.java:1093-1133 | a splice of the root inside a view's range is the same splice of the view's elements |
| ArraySubList.ViewAddAtLive | java/util/ArrayList.java:1093-1099 | on a live view, `add(index, e)` succeeds exactly for `0 <= index <= size` below the root's maximum, keeps the view live and inserts `e` at `index` of the view |
| ArraySubList.ViewRemoveAtLive | java/util/ArrayList.java:1101-1108 | on a live view, `remove(index)` succeeds exactly in range, returns that element of the view and deletes it from the view |
| ArraySubList.ViewAddAllLive | java/util/ArrayList.java:1122-1133 | on a live view, `addAll(index, c)` succeeds exactly for a valid position, reports whether `c` was non-empty, and splices `c` into the view |
| ArraySubList.ViewClearLive | java/util/ArrayList.java:1110-1116 | on a live view, `clear` succeeds, empties the view, keeps it live, and cuts exactly its range out of the root |
| ArraySubList.ViewClearRemovesAll | java/util/ArrayList.java:1110-1116 | `clear` on a live view is `removeRange(0, size)` |
| ArraySubList.LiveNotStale | java/util/ArrayList.java:1285-1288 | no level of a live view fails its modification check |
| ArraySubList.NestedViewOfStaleParent | java/util/ArrayList.java:1266-1269 | `subList` on a view whose root has changed succeeds (it has no modification check), and the new view reads the root at the old offsets while its parent throws |
| SubListIterator.ViewListIterator | java/util/ArrayList.java:1139-1147 | the view's list iterator exists exactly when the view is in step and the index is a position of the view, and it then starts there with no last element |
| SubListIterator.SubHasNext | java/util/ArrayList.java:1149-1151 | for a tracking iterator, true exactly when an element of the view lies at the cursor |
| SubListIterator.SubHasPrevious | java/util/ArrayList.java:1166-1168 | true exactly when `previousIndex` names an element |
| SubListIterator.SubNextIndex | java/util/ArrayList.java:1203-1205 | never negative |
| SubListIterator.SubPreviousIndex | java/util/ArrayList.java:1207-1209 | one less than `nextIndex`, so at least -1 |
| SubListIterator.SubQueriesMatchSteps | java/util/ArrayList.java:1149-1209 | on a tracking iterator, `hasNext`/`hasPrevious` hold exactly when `next`/`previous` succeed, and these return view elements `nextIndex` and `previousIndex` while moving the cursor |
| SubListIterator.SubNext | java/util/ArrayList.java:1154-1164 | on a tracking iterator, succeeds exactly when elements are left, returns the view's element at the cursor and advances |
| SubListIterator.SubPrevious | java/util/ArrayList.java:1171-1181 | on a tracking iterator, succeeds exactly when the cursor is positive and returns the view's element before it |
| SubListIterator.SubRemove | java/util/ArrayList.java:1211-1224 | removes the last returned element of the view through the view, moves the cursor back onto it and resynchronises |
| SubListIterator.SubSetLast | java/util/ArrayList.java:1226-1236 | writes the root at `offset + lastRet`; on a tracking iterator that is exactly the last returned element of the view |
| SubListIterator.SubAdd | java/util/ArrayList.java:1238-1250 | inserts into the view at the cursor and moves past the new element, failing only when the root is full |
| SubListIterator.Drain | java/util/ArrayList.java:1195-1197 | the consumer loop hands over the array slots from `offset + i` to `offset + size`, or, when the view runs past the buffer, the slots up to the buffer's end followed by `ArrayIndexOutOfBoundsException` |
| SubListIterator.RestOfViewInBuffer | java/util/ArrayList.java:1191-1197 | for an iterator of a live view, the rest of the view lies inside the root buffer the loop reads |
| SubListIterator.DrainLoop | java/util/ArrayList.java:1184-1197 | each exit of the method up to the end of the loop: nothing at the end of the view, `ConcurrentModificationException` when the cursor is past the buffer, no iteration when the view's `modCount` moved, else the view's remaining slots |
| SubListIterator.ForEachRemainingAsWritten | java/util/ArrayList.java:1184-1201 | as written: hands over the rest of the view, leaves `lastRet` equal to `size`, one past the last element, and then throws `ConcurrentModificationException` exactly when the root's `modCount` moved |
| SubListIterator.ForEachRemaining | java/util/ArrayList.java:1184-1201 | corrected: hands over the rest of the view and leaves `lastRet` at `size - 1`, so the iterator stays tracking; then throws `ConcurrentModificationException` exactly when the root's `modCount` moved |
| SubListIterator.NextLoopYieldsRest | java/util/ArrayList.java:1149-1164 | repeated `next` on a tracking iterator yields exactly the rest of the view, ending with the last element as `lastRet` |
| SubListIterator.ForEachRemainingMatchesNext | java/util/ArrayList.java:1184-1201 | the corrected bulk traversal equals calling `next` until the end, state included |
| SubListIterator.AsWrittenSetEscapesView | java/util/ArrayList.java:1184-1201 | as written, `set` after `forEachRemaining` overwrites the root element just past the view and leaves the view's own elements unchanged |
| SubListIterator.AsWrittenRemoveFails | java/util/ArrayList.java:1184-1224 | as written, `remove` after `forEachRemaining` throws `ConcurrentModificationException` |
| SubListIterator.CorrectedLastIsLastElement | java/util/ArrayList.java:1184-1236 | after the corrected traversal, `set` replaces and `remove` deletes the view's last element |
| SubListIterator.ForEachThenSetExample | java/util/ArrayList.java:1184-1236 | on `[1, 2, 3]` viewed as `[1, 2]`, traversing then `set(9)` gives `[1, 2, 9]` as written and `[1, 9, 3]` corrected |
| LinkedChain.Walk | java/util/LinkedList.java:616-630 | following `next` `n` times visits `n` nodes |
| LinkedChain.Order | java/util/LinkedList.java:65-225 | the node order of a list has exactly `size` entries |
| LinkedChain.Items | java/util/LinkedList.java:1130-1136 | the list's items, one per node in order |
| LinkedChain.ChainIsWalk | java/util/LinkedList.java:616-625 | a chain is exactly what following `next` from `first` visits |
| LinkedChain.ChainIsValid | java/util/LinkedList.java:65-225 | any chain from `first` to `last` with `size` nodes is the list's order |
| LinkedChain.BackwardIsReverse | java/util/LinkedList.java:626-629 | following `prev` from `last` visits the nodes in reverse order |
| LinkedChain.EmptyEnds | java/util/LinkedList.java:65-225 | `first` and `last` are null exactly when the list is empty |
| LinkedChain.ForwardAlongChain | java/util/LinkedList.java:619-624 | `k` steps forward from node `i` reach node `i + k` |
| LinkedChain.BackwardAlongChain | java/util/LinkedList.java:626-629 | `k` steps back from node `i` reach node `i - k` |
| LinkedChain.NodeAt | java/util/LinkedList.java:616-630 | `node(index)`, walking from whichever end is nearer, returns the `index`-th node |
| LinkedChain.NodeAtSteps | java/util/LinkedList.java:616-630 | `node(index)` takes at most `size / 2` steps |
| LinkedListModel.NodeFacts | java/util/LinkedList.java:616-630 | the `index`-th node holds the `index`-th item and links to its neighbours in order |
| LinkedListModel.Ends | java/util/LinkedList.java:65-225 | `first` and `last` are the first and last nodes, and null exactly when empty |
| LinkedListModel.ReplaceItem | java/util/LinkedList.java:531-537 | overwriting one node's item keeps the chain and changes exactly that item |
| LinkedListModel.Create | java/util/LinkedList.java:44-45 | the constructor gives an empty list |
| LinkedListModel.LinkFirst | java/util/LinkedList.java:65-81 | a new node becomes the head, the item is prepended, size and `modCount` increase |
| LinkedListModel.LinkLast | java/util/LinkedList.java:87-103 | a new node becomes the tail, the item is appended, size and `modCount` increase |
| LinkedListModel.LinkBefore | java/util/LinkedList.java:109-126 | a new node goes right before `succ`, so the item lands at `succ`'s position |
| LinkedListModel.UnlinkFirst | java/util/LinkedList.java:132-155 | the head node leaves the chain and its item is returned |
| LinkedListModel.UnlinkLast | java/util/LinkedList.java:161-184 | the tail node leaves the chain and its item is returned |
| LinkedListModel.Unlink | java/util/LinkedList.java:190-225 | any node leaves the chain, its neighbours are joined, and its item is returned |
| LinkedListModel.UnlinkFirstIsUnlink | java/util/LinkedList.java:132-155 | `unlinkFirst` does what `unlink` does to the head |
| LinkedListModel.UnlinkLastIsUnlink | java/util/LinkedList.java:161-184 | `unlinkLast` does what `unlink` does to the tail |
| LinkedListOps.CreateFrom | java/util/LinkedList.java:56-59 | the copy constructor holds the collection's elements in order, with `modCount` 1 unless the collection was empty |
| LinkedListOps.ToArray | java/util/LinkedList.java:1130-1136 | the array holds the items in list order |
| LinkedListOps.GetFirst | java/util/LinkedList.java:234-242 | the first item, or `NoSuchElementException` exactly when empty |
| LinkedListOps.GetLast | java/util/LinkedList.java:251-259 | the last item, or `NoSuchElementException` exactly when empty |
| LinkedListOps.RemoveFirst | java/util/LinkedList.java:268-276 | removes and returns the first item; an empty list throws and is unchanged |
| LinkedListOps.RemoveLast | java/util/LinkedList.java:285-293 | removes and returns the last item; an empty list throws and is unchanged |
| LinkedListOps.AddFirst | java/util/LinkedList.java:301-303 | prepends the item |
| LinkedListOps.AddLast | java/util/LinkedList.java:313-315 | appends the item |
| LinkedListOps.Add | java/util/LinkedList.java:352-355 | appends the item and returns true |
| LinkedListOps.Size | java/util/LinkedList.java:339-341 | `size` is the number of items |
| LinkedListOps.IsElementIndex | java/util/LinkedList.java:576-578 | an element index is one of the positions of the items |
| LinkedListOps.IsPositionIndex | java/util/LinkedList.java:584-586 | a position index is an element index or the size itself, and nothing else |
| LinkedListOps.Get | java/util/LinkedList.java:516-519 | returns item `index` exactly when it is an element index, else `IndexOutOfBoundsException` |
| LinkedListOps.Set | java/util/LinkedList.java:531-537 | replaces exactly item `index`, returns the old one and leaves the node order, `first`, `last` and `modCount` alone; out of range changes nothing |
| LinkedListOps.AddAt | java/util/LinkedList.java:549-556 | inserts at a position `0..size` (linking last at `size`, before `node(index)` otherwise) |
| LinkedListOps.RemoveAt | java/util/LinkedList.java:568-571 | removes and returns item `index` exactly for an element index |
| LinkedListOps.AddAtRemoveAt | java/util/LinkedList.java:549-571 | `remove(i)` right after `add(i, e)` returns `e` and restores the items |
| LinkedListOps.SetThenGet | java/util/LinkedList.java:516-537 | `get(i)` after `set(i, e)` returns `e`, and other positions are unaffected |
| LinkedListOps.FindForward | java/util/LinkedList.java:648-664 | the forward walk stops at the first matching node, together with its position |
| LinkedListOps.FindBackward | java/util/LinkedList.java:680-696 | the backward walk stops at the last matching node, together with its position |
| LinkedListOps.IndexOf | java/util/LinkedList.java:648-664 | the first matching position, or -1 exactly when none matches |
| LinkedListOps.LastIndexOf | java/util/LinkedList.java:680-696 | the last matching position, or -1 exactly when none matches |
| LinkedListOps.Contains | java/util/LinkedList.java:328-331 | true exactly when some item matches |
| LinkedListOps.RemoveElement | java/util/LinkedList.java:371-391 | unlinks the first matching item; with no match the list is unchanged |
| LinkedListOps.UnlinkFound | java/util/LinkedList.java:371-391 | unlinking the node found at a position deletes exactly that item |
| LinkedListOps.RemoveFirstOccurrence | java/util/LinkedList.java:884-886 | same as `remove(Object)`: unlinks the first match and bumps `modCount`, or reports false with the list unchanged |
| LinkedListOps.RemoveLastOccurrence | java/util/LinkedList.java:898-915 | unlinks the last matching item; with no match the list is unchanged |
| LinkedListOps.AddAll | java/util/LinkedList.java:407-409 | appends the collection in order, returns whether it was non-empty, and bumps `modCount` once only when it was |
| LinkedListOps.AddAllAt | java/util/LinkedList.java:426-477 | inserts the collection at a position `0..size`, bumping `modCount` once; an empty collection returns false unchanged; a bad position throws |
| LinkedListOps.LinkAllLast | java/util/LinkedList.java:442-466 | with no successor, the nodes are chained after the old tail |
| LinkedListOps.LinkAllBefore | java/util/LinkedList.java:445-470 | with a successor, the nodes are chained between `node(index - 1)` and `node(index)` |
| LinkedListOps.LinkBeforePosition | java/util/LinkedList.java:109-126 | linking before the `j`-th node inserts at `j` and shifts that node to `j + 1` |
| LinkedListOps.Clear | java/util/LinkedList.java:484-503 | the list becomes empty, every node that was in it is cleared, other arena slots are untouched, and `modCount` increases |
| LinkedListOps.PeekFirst | java/util/LinkedList.java:797-800 | the first item, or `null` when empty |
| LinkedListOps.PeekLast | java/util/LinkedList.java:811-814 | the last item, or `null` when empty |
| LinkedListOps.PollFirst | java/util/LinkedList.java:825-828 | removes and returns the first item, or returns `null` and changes nothing when empty |
| LinkedListOps.PollLast | java/util/LinkedList.java:839-842 | removes and returns the last item, or returns `null` and changes nothing when empty |
| LinkedListOps.Peek | java/util/LinkedList.java:707-710 | the head, or `null` when empty |
| LinkedListOps.Element | java/util/LinkedList.java:720-722 | the head, or `NoSuchElementException` when empty |
| LinkedListOps.Poll | java/util/LinkedList.java:731-734 | removes and returns the head, bumping `modCount`, or returns `null` with the list unchanged when empty |
| LinkedListOps.Remove | java/util/LinkedList.java:744-746 | removes and returns the head, bumping `modCount`, or throws `NoSuchElementException` with the list unchanged when empty |
| LinkedListOps.Offer | java/util/LinkedList.java:756-758 | appends, bumps `modCount` and returns true |
| LinkedListOps.OfferFirst | java/util/LinkedList.java:770-773 | prepends, bumps `modCount` and returns true |
| LinkedListOps.OfferLast | java/util/LinkedList.java:783-786 | appends, bumps `modCount` and returns true |
| LinkedListOps.Push | java/util/LinkedList.java:854-856 | prepends the item and bumps `modCount` |
| LinkedListOps.Pop | java/util/LinkedList.java:870-872 | removes and returns the head, bumping `modCount`, or throws `NoSuchElementException` with the list unchanged when empty |
| LinkedListOps.PushPop | java/util/LinkedList.java:854-872 | `pop` after `push(e)` returns `e` and restores the items (stack order) |
| LinkedListOps.OfferPoll | java/util/LinkedList.java:731-758 | `poll` after `offer(e)` returns the old head (or `e` on an empty list) and leaves the rest followed by `e` (queue order) |
| LinkedListIter.LastPos | java/util/LinkedList.java:943-1005 | the position of the last returned node: the cursor after `previous`, one before it after `next` |
| LinkedListIter.ListIterator | java/util/LinkedList.java:938-953 | an iterator at `index` exists exactly for a position index and then points at node `index` (null at the end) |
| LinkedListIter.CursorAtEnd | java/util/LinkedList.java:955-957 | the cursor's `next` is null exactly when `nextIndex == size` |
| LinkedListIter.HasNext | java/util/LinkedList.java:955-957 | true exactly when an item lies at the cursor |
| LinkedListIter.HasPrevious | java/util/LinkedList.java:970-972 | true exactly when `previousIndex` names an item |
| LinkedListIter.NextIndex | java/util/LinkedList.java:984-986 | one more than `previousIndex` |
| LinkedListIter.PreviousIndex | java/util/LinkedList.java:988-990 | one before the cursor |
| LinkedListIter.QueriesMatchSteps | java/util/LinkedList.java:955-990 | on a tracking iterator, `hasNext()`/`hasPrevious()` hold exactly when `next()`/`previous()` succeed, and these return items `nextIndex` and `previousIndex` while moving the cursor |
| LinkedListIter.Next | java/util/LinkedList.java:959-968 | with `modCount` unchanged and an item left, returns item `nextIndex` and advances; otherwise the matching exception, iterator unchanged |
| LinkedListIter.Previous | java/util/LinkedList.java:974-982 | returns item `nextIndex - 1` and steps back, leaving both `next` and `lastReturned` on that node |
| LinkedListIter.Remove | java/util/LinkedList.java:992-1005 | unlinks the last returned node, fixes the cursor whichever direction it came from, and resynchronises |
| LinkedListIter.SetLast | java/util/LinkedList.java:1007-1012 | overwrites the last returned item without touching `modCount`; note that the null check comes before the modification check |
| LinkedListIter.Add | java/util/LinkedList.java:1014-1023 | inserts before the cursor (at the end when `next` is null), moves past it and resynchronises |
| LinkedListIter.ForEachRemaining | java/util/LinkedList.java:1025-1034 | hands over the items from the cursor to the end and leaves the last one as `lastReturned` |
| LinkedListIter.NextLoopYieldsRest | java/util/LinkedList.java:955-968 | repeated `next` yields exactly the rest of the list |
| LinkedListIter.PreviousLoopYieldsReversed | java/util/LinkedList.java:970-982 | repeated `previous` yields the items before the cursor in reverse |
| LinkedListIter.NextThenPrevious | java/util/LinkedList.java:959-990 | `previous` right after `next` returns the same item and restores the index |
| LinkedListIter.AddThenPrevious | java/util/LinkedList.java:974-1023 | `previous` right after `add(e)` returns `e`, and `next` still returns what it would have |
| LinkedListIter.RemoveTwiceFails | java/util/LinkedList.java:992-1005 | a second `remove` without a move throws `IllegalStateException` |
| LinkedListIter.ForeignChangeFailsFast | java/util/LinkedList.java:1036-1039 | after an `addLast` made directly on the list, every checking iterator operation throws `ConcurrentModificationException` |
| LinkedListIter.DescendingIterator | java/util/LinkedList.java:1062-1071 | the descending iterator wraps a list iterator at `size` |
| LinkedListIter.DescendingHasNext | java/util/LinkedList.java:1072-1074 | true exactly when items remain before the wrapped cursor |
| LinkedListIter.DescendingHasNextMatchesNext | java/util/LinkedList.java:1072-1078 | on a tracking iterator, `hasNext()` holds exactly when `next()` returns an item |
| LinkedListIter.DescendingNext | java/util/LinkedList.java:1076-1078 | its `next` is the wrapped iterator's `previous` |
| LinkedListIter.DescendingRemove | java/util/LinkedList.java:1080-1082 | its `remove` unlinks the last returned node |
| LinkedListIter.ListSetKeepsTracking | java/util/LinkedList.java:531-537 | an iterator in step with the list stays in step across a `set` through the list, and its next `next()` sees the new item |
| LinkedListIter.DescendingTraversal | java/util/LinkedList.java:1062-1083 | a full descending traversal yields the items in reverse order |
| LinkedListSpliter.Spliterator | java/util/LinkedList.java:1250-1252 | a new spliterator is unbound with batch size 0, and its first use binds it to the head, the size and the `modCount` at that moment |
| LinkedListSpliter.GetEst | java/util/LinkedList.java:1272-1285 | the first use binds the spliterator to the head, the size and the current `modCount`; later uses keep the bound state |
| LinkedListSpliter.GetEstCommits | java/util/LinkedList.java:1272-1285 | once bound, later changes to the list do not rebind |
| LinkedListSpliter.FreshBindsAtStart | java/util/LinkedList.java:1250-1285 | a fresh spliterator binds to position 0 of the list |
| LinkedListSpliter.TakeRun | java/util/LinkedList.java:1300-1305 | the copy loop of `trySplit` takes at least one and at most `n` items |
| LinkedListSpliter.TakeRunInList | java/util/LinkedList.java:1300-1305 | from position `k`, the copy loop takes items `k .. k + n` and stops at node `k + n` |
| LinkedListSpliter.BatchSize | java/util/LinkedList.java:1295-1299 | the batch grows by `BATCH_UNIT`, capped by the estimate and by `MAX_BATCH` |
| LinkedListSpliter.TrySplit | java/util/LinkedList.java:1291-1311 | splits off a batch exactly when more than one item remains and the current node is not null; the batch fits the batch size and the remaining estimate drops by its length |
| LinkedListSpliter.TrySplitAt | java/util/LinkedList.java:1291-1311 | at position `k`, the split-off batch is items `k .. k + j` and the rest continues at `k + j` |
| LinkedListSpliter.ForEachRemaining | java/util/LinkedList.java:1313-1328 | hands over at most `est` items and exhausts the spliterator, then throws `ConcurrentModificationException` exactly when `modCount` moved since binding |
| LinkedListSpliter.ForEachRemainingAt | java/util/LinkedList.java:1313-1328 | at position `k`, hands over items `k..` whether or not the list was modified, and throws afterwards exactly when it was |
| LinkedListSpliter.TryAdvance | java/util/LinkedList.java:1330-1343 | hands over nothing exactly when exhausted; otherwise hands over the current item, advances one node and then throws exactly when `modCount` moved |
| LinkedListSpliter.TryAdvanceAt | java/util/LinkedList.java:1330-1343 | at position `k`, hands over item `k`, moves to `k + 1`, and throws afterwards exactly when the list was modified |
| LinkedListSpliter.EstimateSize | java/util/LinkedList.java:1287-1289 | binds on first use; the estimate is the list's size then, and the bound `est` afterwards |
| LinkedListSpliter.AdvanceLoopMatchesForEach | java/util/LinkedList.java:1313-1343 | on an unchanged list, repeated `tryAdvance` yields the same items and final state as `forEachRemaining` |
| LinkedListSpliter.AdvanceLoopStopsAtFirstCheck | java/util/LinkedList.java:1313-1343 | on a modified list, repeated `tryAdvance` hands over one item before it throws, while `forEachRemaining` hands over all the rest first |
| LinkedListSpliter.SplitPartitions | java/util/LinkedList.java:1291-1328 | a split-off batch followed by what remains is what the unsplit spliterator would traverse, and the sizes add up |
| LinkedListSpliter.WholeListTraversal | java/util/LinkedList.java:1250-1252 | a fresh spliterator traverses exactly the list's items |
| LinkedListSpliter.BatchesGrow | java/util/LinkedList.java:1291-1307 | successive splits take batches growing by `BATCH_UNIT` while the estimate allows |

## Left out

- Serialization (`writeObject`/`readObject`), `clone`, `sort`, `forEach`, `toArray(T[])`, `equals`, `hashCode` and `toString` are left out. They are not list-structure operations.
- Spliterator `characteristics` and `getComparator` are constants and are not modelled.
- Threads are not modelled. The fail-fast checks are modelled as the `modCount` comparisons they are, not as race detection.
- Callbacks are pure functions, so a consumer or predicate cannot change the list in mid-traversal. The checks that `removeIf`, `replaceAll` and the `forEachRemaining` loops make inside their loops therefore never fire in the model.
- The text of exception messages (`outOfBoundsMsg`) is not modelled; only the exception type is.
- `int` overflow of `size`, of indices and of `modCount` is not modelled. Unbounded integers are used everywhere except in capacity arithmetic and the spliterator midpoint.
- `OutOfMemoryError` is modelled only where the code throws it itself: `hugeCapacity` and array sizes beyond `Integer.MAX_VALUE`. Allocation failure of the JVM is not modelled.
- The `LinkedList` spliterator is only ever created over a list, so its `list == null` case of `getEst` is not modelled.
- `LinkedListOps.AddAllAt`: the intermediate states of the linking loop are not exposed. The result is the loop's final state, and `modCount` is bumped once, as in the source.
- The element searches of `LinkedList` (`indexOf`, `lastIndexOf`, `remove(Object)`, `removeLastOccurrence`) share one forward and one backward walk (`FindForward`, `FindBackward`). The source repeats the same loop in each method.
- `ArrayListModel.RemoveRange`: for reversed bounds the contract states only the outcome, the new size and `modCount`, not the array's contents. `RemoveRangeReversedGrows` shows the contents on one input.
- `ArrayListSpliter.TrySplit`: the contract says nothing for a negative index, which only a corrupted spliterator has.
- `LinkedListIter.ForEachRemaining`: when nothing remains, the contract does not state that `lastReturned` is unchanged.
- `ArraySubList.ViewAppendAll`: states only the successful case; the failure cases are those of `ViewAddAll`, which it calls.
- `ArraySubList.ViewClear`: states the contents only for a view of non-negative size, which every view created by `subList` has.

## Findings

| source | as written | input that shows it | evidently intended | confidence | as-written member | corrected member |
|---|---|---|---|---|---|---|
| java/util/ArrayList.java:640-652 | `removeRange` never checks `toIndex < fromIndex`. With reversed bounds it moves the tail right instead of left and sets `size` to `size - (toIndex - fromIndex)`, which is larger than before. | list `[1, 2, 3]` with capacity 4, `removeRange(2, 1)` leaves `[1, 2, 2, 3]` | throw `IndexOutOfBoundsException` for `toIndex < fromIndex`, as the method's own documentation says, and leave the list unchanged | not executed | ArrayListModel.RemoveRange, ArrayListModel.RemoveRangeReversedGrows | ArrayListModel.RemoveRangeChecked |
| java/util/ArrayList.java:1184-1201 | the sub-list iterator's `forEachRemaining` ends with `lastRet = cursor = i`, so `lastRet` is the view's size, one past its last element. `ArrayList.Itr` sets `lastRet = i - 1` here. | `[1, 2, 3]`, view `subList(0, 2)`, `listIterator()`, `forEachRemaining`, then `set(9)`: the root becomes `[1, 2, 9]`, which writes outside the view; `remove()` instead throws `ConcurrentModificationException` | `lastRet = i - 1`: `set(9)` gives `[1, 9, 3]` and `remove()` deletes the view's last element | not executed | SubListIterator.ForEachRemainingAsWritten, SubListIterator.AsWrittenSetEscapesView, SubListIterator.ForEachThenSetExample | SubListIterator.ForEachRemaining, SubListIterator.ForEachRemainingMatchesNext, SubListIterator.CorrectedLastIsLastElement |

A further behaviour is recorded as modelled, not as a finding. `subList` on a sub-list does not check the parent's `modCount`, so a nested view can be taken from a stale view. It then reads the root at the old offsets; `ArraySubList.NestedViewOfStaleParent` shows one such input.
