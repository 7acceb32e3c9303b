/** LinkedList's list iterator and descending iterator. The iterator keeps the
    node it will hand out next, the node it handed out last, the index of
    the next node and the modCount it expects; the list is passed to each
    operation in its current state. */
module LinkedListIter {
  import opened JavaLang
  import opened LinkedChain
  import opened LinkedListModel
  import opened LinkedListOps
  import Seqs

  /** `lastReturned` and `next` are node identities, `NIL` for `null`. */
  datatype ListItr = ListItr(lastReturned: int, next: int, nextIndex: int, expectedModCount: int)

  predicate InStep<T>(l: LinkedList<T>, it: ListItr) {
    l.modCount == it.expectedModCount
  }

  /** The iterator sits between positions `nextIndex - 1` and `nextIndex` of
      the list: `next` is the node at `nextIndex` (`NIL` at the end), and
      `lastReturned` is `NIL`, the node just before the cursor (after
      `next()`), or `next` itself (after `previous()`). */
  predicate Tracking<T>(l: LinkedList<T>, it: ListItr) {
    && Valid(l) && InStep(l, it)
    && 0 <= it.nextIndex <= l.size
    && it.next == (if it.nextIndex < l.size then Order(l)[it.nextIndex] else NIL)
    && (|| it.lastReturned == NIL
        || it.lastReturned == it.next
        || (0 < it.nextIndex && it.lastReturned == Order(l)[it.nextIndex - 1]))
  }

  /** The fail-fast contract: as long as no one else has modified the list
      (its modCount is the one the iterator expects), the iterator is in
      step with it. */
  predicate Coherent<T>(l: LinkedList<T>, it: ListItr) {
    Valid(l) && (InStep(l, it) ==> Tracking(l, it))
  }

  /** The position of `lastReturned`: the cursor itself after `previous()`,
      the one before it after `next()`. */
  function LastPos<T>(l: LinkedList<T>, it: ListItr): (r: int)
    requires Tracking(l, it) && it.lastReturned != NIL
    ensures 0 <= r < l.size && Order(l)[r] == it.lastReturned
    ensures r == if it.lastReturned == it.next then it.nextIndex else it.nextIndex - 1
  {
    if it.lastReturned == it.next then it.nextIndex else it.nextIndex - 1
  }

  /** `listIterator(index)`: `checkPositionIndex`, then an iterator whose
      next node is `node(index)`, or `null` at the end. */
  function ListIterator<T>(l: LinkedList<T>, index: int): (r: Result<ListItr>)
    requires Valid(l)
    ensures r.Err? <==> !(0 <= index <= |Items(l)|)
    ensures r.Err? ==> r.error == IndexOutOfBounds
    ensures r.Ok? ==> Tracking(l, r.value) && r.value.nextIndex == index && r.value.lastReturned == NIL
  {
    if !IsPositionIndex(l, index) then Err(IndexOutOfBounds)
    else Ok(ListItr(NIL, if index == l.size then NIL else NodeAt(l, index), index, l.modCount))
  }

  /** `hasNext()`: an item lies at or after the cursor. */
  function HasNext<T>(l: LinkedList<T>, it: ListItr): (r: bool)
    ensures Valid(l) ==> (r <==> it.nextIndex < |Items(l)|)
  {
    it.nextIndex < l.size
  }

  /** `hasPrevious()`: an item lies before the cursor. */
  function HasPrevious(it: ListItr): (r: bool)
    ensures r <==> 0 <= PreviousIndex(it)
  {
    it.nextIndex > 0
  }

  /** `nextIndex()`: the index `next()` would return. */
  function NextIndex(it: ListItr): (r: int)
    ensures r == PreviousIndex(it) + 1
  {
    it.nextIndex
  }

  /** `previousIndex()`: one before `nextIndex()`. */
  function PreviousIndex(it: ListItr): (r: int)
    ensures r + 1 == it.nextIndex
  {
    it.nextIndex - 1
  }

  /** `next()`: the modification check, `hasNext`, then one step forward. */
  function Next<T>(l: LinkedList<T>, it: ListItr): (r: Outcome<ListItr, Ref<T>>)
    requires Coherent(l, it)
    ensures !InStep(l, it) ==> r == Outcome(it, Err(ConcurrentModification))
    ensures InStep(l, it) && l.size <= it.nextIndex ==> r == Outcome(it, Err(NoSuchElement))
    ensures InStep(l, it) && it.nextIndex < l.size ==>
              && r.result == Ok(Items(l)[it.nextIndex])
              && Tracking(l, r.state)
              && r.state.nextIndex == it.nextIndex + 1
              && r.state.lastReturned == Order(l)[it.nextIndex]
  {
    if l.modCount != it.expectedModCount then Outcome(it, Err(ConcurrentModification))
    else if !HasNext(l, it) then Outcome(it, Err(NoSuchElement))
    else
      NodeFacts(l, it.nextIndex);
      var returned := it.next;
      Outcome(it.(lastReturned := returned, next := l.nodes[returned].next, nextIndex := it.nextIndex + 1),
              Ok(l.nodes[returned].item))
  }

  /** `previous()`: the modification check, `hasPrevious`, then one step
      back; the node stepped over becomes both `next` and `lastReturned`. */
  function Previous<T>(l: LinkedList<T>, it: ListItr): (r: Outcome<ListItr, Ref<T>>)
    requires Coherent(l, it)
    ensures !InStep(l, it) ==> r == Outcome(it, Err(ConcurrentModification))
    ensures InStep(l, it) && it.nextIndex <= 0 ==> r == Outcome(it, Err(NoSuchElement))
    ensures InStep(l, it) && 0 < it.nextIndex ==>
              && r.result == Ok(Items(l)[it.nextIndex - 1])
              && Tracking(l, r.state)
              && r.state.nextIndex == it.nextIndex - 1
              && r.state.lastReturned == r.state.next == Order(l)[it.nextIndex - 1]
  {
    if l.modCount != it.expectedModCount then Outcome(it, Err(ConcurrentModification))
    else if !HasPrevious(it) then Outcome(it, Err(NoSuchElement))
    else
      Ends(l);
      NodeFacts(l, it.nextIndex - 1);
      var stepped := if it.next == NIL then l.last else StepBack(l, it);
      Outcome(it.(lastReturned := stepped, next := stepped, nextIndex := it.nextIndex - 1),
              Ok(l.nodes[stepped].item))
  }

  /** The queries agree with the steps: on a tracking iterator `hasNext()`
      and `hasPrevious()` hold exactly when `next()` and `previous()` would
      succeed, and the indices move with the cursor. */
  lemma QueriesMatchSteps<T>(l: LinkedList<T>, it: ListItr)
    requires Tracking(l, it)
    ensures HasNext(l, it) <==> Next(l, it).result.Ok?
    ensures HasPrevious(it) <==> Previous(l, it).result.Ok?
    ensures Next(l, it).result.Ok? ==>
              NextIndex(Next(l, it).state) == NextIndex(it) + 1
              && Next(l, it).result.value == Items(l)[NextIndex(it)]
    ensures Previous(l, it).result.Ok? ==>
              NextIndex(Previous(l, it).state) == PreviousIndex(it)
              && Previous(l, it).result.value == Items(l)[PreviousIndex(it)]
  {
  }

  /** `next == null` exactly when the cursor is at the end. */
  lemma CursorAtEnd<T>(l: LinkedList<T>, it: ListItr)
    requires Tracking(l, it)
    ensures it.next == NIL <==> it.nextIndex == l.size
  {
    if it.nextIndex < l.size {
      NodeFacts(l, it.nextIndex);
    }
  }

  /** `next.prev` for a cursor strictly inside the list. */
  function StepBack<T>(l: LinkedList<T>, it: ListItr): (r: int)
    requires Tracking(l, it) && 0 < it.nextIndex < l.size
    ensures r == Order(l)[it.nextIndex - 1]
  {
    NodeFacts(l, it.nextIndex);
    l.nodes[it.next].prev
  }

  /** `remove()`: the modification check, then `IllegalStateException` with
      nothing to remove; otherwise `lastReturned` is unlinked and the cursor
      lands where it was, whether it came from `next()` or `previous()`. */
  function Remove<T>(l: LinkedList<T>, it: ListItr): (r: Outcome<(LinkedList<T>, ListItr), ()>)
    requires Coherent(l, it)
    ensures !InStep(l, it) ==> r == Outcome((l, it), Err(ConcurrentModification))
    ensures InStep(l, it) && it.lastReturned == NIL ==> r == Outcome((l, it), Err(IllegalState))
    ensures InStep(l, it) && it.lastReturned != NIL ==>
              var p := LastPos(l, it);
              && r.result.Ok?
              && Valid(r.state.0) && Items(r.state.0) == Items(l)[..p] + Items(l)[p + 1..]
              && r.state.0.modCount == l.modCount + 1
              && Tracking(r.state.0, r.state.1)
              && r.state.1.nextIndex == p && r.state.1.lastReturned == NIL
  {
    if l.modCount != it.expectedModCount then Outcome((l, it), Err(ConcurrentModification))
    else if it.lastReturned == NIL then Outcome((l, it), Err(IllegalState))
    else
      RemoveTracks(l, it);
      Outcome(RemoveRaw(l, it), Ok(()))
  }

  /** The effect of a successful `remove()`. */
  function RemoveRaw<T>(l: LinkedList<T>, it: ListItr): (LinkedList<T>, ListItr)
    requires Tracking(l, it) && it.lastReturned != NIL
  {
    PositionOfAt(Order(l), LastPos(l, it));
    (Unlink(l, it.lastReturned).0, RemoveCursor(l, it))
  }

  /** The cursor after `remove()`: after `previous()` it moves on to the
      removed node's successor, after `next()` its index drops by one. */
  function RemoveCursor<T>(l: LinkedList<T>, it: ListItr): (r: ListItr)
    requires Tracking(l, it) && it.lastReturned != NIL
    ensures r.next == if LastPos(l, it) + 1 < l.size then Order(l)[LastPos(l, it) + 1] else NIL
  {
    NodeFacts(l, LastPos(l, it));
    var lastNext := l.nodes[it.lastReturned].next;
    var it' := if it.next == it.lastReturned then it.(next := lastNext) else it.(nextIndex := it.nextIndex - 1);
    it'.(lastReturned := NIL, expectedModCount := it.expectedModCount + 1)
  }

  lemma RemoveTracks<T>(l: LinkedList<T>, it: ListItr)
    requires Tracking(l, it) && it.lastReturned != NIL
    ensures var p := LastPos(l, it);
            var l' := RemoveRaw(l, it).0;
            Valid(l') && Items(l') == Items(l)[..p] + Items(l)[p + 1..] && l'.modCount == l.modCount + 1
    ensures var p := LastPos(l, it);
            var (l', it') := RemoveRaw(l, it);
            Tracking(l', it') && it'.nextIndex == p && it'.lastReturned == NIL
  {
    var p := LastPos(l, it);
    var o := Order(l);
    PositionOfAt(o, p);
    NodeFacts(l, p);
    var (l', it') := RemoveRaw(l, it);
    var o' := Order(l');
    assert o' == o[..p] + o[p + 1..];
    if p + 1 < l.size {
      assert o'[p] == o[p + 1];
    }
  }

  /** `set(e)`: `IllegalStateException` with nothing returned yet (checked
      BEFORE the modification check), then the modification check, then the
      item of `lastReturned` is overwritten; the iterator is unchanged. */
  function SetLast<T>(l: LinkedList<T>, it: ListItr, e: Ref<T>): (r: Outcome<LinkedList<T>, ()>)
    requires Coherent(l, it)
    ensures it.lastReturned == NIL ==> r == Outcome(l, Err(IllegalState))
    ensures it.lastReturned != NIL && !InStep(l, it) ==> r == Outcome(l, Err(ConcurrentModification))
    ensures it.lastReturned != NIL && InStep(l, it) ==>
              && r.result.Ok?
              && Valid(r.state) && Items(r.state) == Items(l)[LastPos(l, it) := e]
              && r.state.modCount == l.modCount
              && Tracking(r.state, it)
  {
    if it.lastReturned == NIL then Outcome(l, Err(IllegalState))
    else if l.modCount != it.expectedModCount then Outcome(l, Err(ConcurrentModification))
    else
      var p := LastPos(l, it);
      ReplaceItem(l, p, e);
      var x := it.lastReturned;
      Outcome(l.(nodes := l.nodes[x := l.nodes[x].(item := e)]), Ok(()))
  }

  /** `add(e)`: the modification check, then `e` is linked just before
      `next` (or as the new last node) and the cursor moves past it. */
  function Add<T>(l: LinkedList<T>, it: ListItr, e: Ref<T>): (r: Outcome<(LinkedList<T>, ListItr), ()>)
    requires Coherent(l, it)
    ensures !InStep(l, it) ==> r == Outcome((l, it), Err(ConcurrentModification))
    ensures InStep(l, it) ==>
              var i := it.nextIndex;
              && r.result.Ok?
              && Valid(r.state.0) && Items(r.state.0) == Items(l)[..i] + [e] + Items(l)[i..]
              && r.state.0.modCount == l.modCount + 1
              && Tracking(r.state.0, r.state.1)
              && r.state.1.nextIndex == i + 1 && r.state.1.lastReturned == NIL
  {
    if l.modCount != it.expectedModCount then Outcome((l, it), Err(ConcurrentModification))
    else
      AddTracks(l, it, e);
      Outcome(AddRaw(l, it, e), Ok(()))
  }

  /** The effect of a successful `add(e)`. */
  function AddRaw<T>(l: LinkedList<T>, it: ListItr, e: Ref<T>): (LinkedList<T>, ListItr)
    requires Tracking(l, it)
  {
    CursorAtEnd(l, it);
    if it.next == NIL then (LinkLast(l, e), AddCursor(it))
    else
      PositionOfAt(Order(l), it.nextIndex);
      (LinkBefore(l, e, it.next), AddCursor(it))
  }

  /** The cursor after `add(e)`: past the new node, with nothing to remove. */
  function AddCursor(it: ListItr): (r: ListItr)
    ensures r.nextIndex == it.nextIndex + 1 && r.lastReturned == NIL && r.next == it.next
  {
    it.(lastReturned := NIL, nextIndex := it.nextIndex + 1, expectedModCount := it.expectedModCount + 1)
  }

  lemma AddTracks<T>(l: LinkedList<T>, it: ListItr, e: Ref<T>)
    requires Tracking(l, it)
    ensures var i := it.nextIndex;
            var (l', it') := AddRaw(l, it, e);
            && Valid(l') && Items(l') == Items(l)[..i] + [e] + Items(l)[i..]
            && l'.modCount == l.modCount + 1
            && Tracking(l', it') && it'.nextIndex == i + 1 && it'.lastReturned == NIL
  {
    CursorAtEnd(l, it);
    if it.next == NIL {
      AddAtEndTracks(l, it, e);
    } else {
      AddBeforeTracks(l, it, e);
    }
  }

  lemma AddAtEndTracks<T>(l: LinkedList<T>, it: ListItr, e: Ref<T>)
    requires Tracking(l, it) && it.nextIndex == l.size
    ensures var i := it.nextIndex;
            var l' := LinkLast(l, e);
            && Valid(l') && Items(l') == Items(l)[..i] + [e] + Items(l)[i..]
            && Tracking(l', AddCursor(it))
  {
    var i := it.nextIndex;
    assert Items(l)[i..] == [] && Items(l)[..i] == Items(l);
  }

  lemma AddBeforeTracks<T>(l: LinkedList<T>, it: ListItr, e: Ref<T>)
    requires Tracking(l, it) && it.nextIndex < l.size
    ensures it.next in Order(l)
    ensures var i := it.nextIndex;
            var l' := LinkBefore(l, e, it.next);
            && Valid(l') && Items(l') == Items(l)[..i] + [e] + Items(l)[i..]
            && Tracking(l', AddCursor(it))
  {
    var o := Order(l);
    var i := it.nextIndex;
    PositionOfAt(o, i);
    InsertShift(o, i, |l.nodes|);
  }

  /** `forEachRemaining(action)`: hands the remaining items to `action` while
      the modCount still matches, then checks it once more. `action` is
      taken to leave the list alone. */
  method ForEachRemaining<T>(l: LinkedList<T>, it: ListItr) returns (r: Outcome<ListItr, seq<Ref<T>>>)
    requires Coherent(l, it)
    ensures !InStep(l, it) ==> r == Outcome(it, Err(ConcurrentModification))
    ensures InStep(l, it) ==>
              && r.result == Ok(Items(l)[it.nextIndex..])
              && Tracking(l, r.state) && r.state.nextIndex == l.size
              && (it.nextIndex < l.size ==> r.state.lastReturned == Order(l)[l.size - 1])
  {
    if l.modCount != it.expectedModCount {
      // the loop guard fails at once and the final check throws
      return Outcome(it, Err(ConcurrentModification));
    }
    var cur := it;
    var accepted: seq<Ref<T>> := [];
    while l.modCount == cur.expectedModCount && cur.nextIndex < l.size
      invariant Tracking(l, cur) && it.nextIndex <= cur.nextIndex
      invariant accepted == Items(l)[it.nextIndex..cur.nextIndex]
      invariant it.nextIndex < cur.nextIndex ==> cur.lastReturned == Order(l)[cur.nextIndex - 1]
      decreases l.size - cur.nextIndex
    {
      StepForward(l, cur, it.nextIndex, accepted);
      accepted := accepted + [l.nodes[cur.next].item];
      cur := cur.(lastReturned := cur.next, next := l.nodes[cur.next].next, nextIndex := cur.nextIndex + 1);
    }
    assert Items(l)[it.nextIndex..cur.nextIndex] == Items(l)[it.nextIndex..];
    return Outcome(cur, Ok(accepted));
  }

  /** One round of `forEachRemaining`'s loop keeps the iterator tracking
      and the handed-out items a slice of the list. */
  lemma StepForward<T>(l: LinkedList<T>, cur: ListItr, from: int, accepted: seq<Ref<T>>)
    requires Tracking(l, cur) && 0 <= from <= cur.nextIndex < l.size
    requires accepted == Items(l)[from..cur.nextIndex]
    ensures 0 <= cur.next < |l.nodes| && cur.next == Order(l)[cur.nextIndex]
    ensures accepted + [l.nodes[cur.next].item] == Items(l)[from..cur.nextIndex + 1]
    ensures Tracking(l, cur.(lastReturned := cur.next, next := l.nodes[cur.next].next, nextIndex := cur.nextIndex + 1))
  {
    NodeFacts(l, cur.nextIndex);
    assert Items(l)[from..cur.nextIndex + 1] == Items(l)[from..cur.nextIndex] + [Items(l)[cur.nextIndex]];
  }

  /** `next()` called until `hasNext()` fails: the reference the bulk
      traversal agrees with. */
  function NextLoop<T>(l: LinkedList<T>, it: ListItr): (r: Outcome<ListItr, seq<Ref<T>>>)
    requires Coherent(l, it)
    decreases if it.nextIndex <= l.size then l.size - it.nextIndex else 0
  {
    if !HasNext(l, it) then Outcome(it, Ok([]))
    else
      var step := Next(l, it);
      if step.result.Err? then Outcome(step.state, Err(step.result.error))
      else
        var rest := NextLoop(l, step.state);
        Outcome(rest.state, if rest.result.Err? then Err(rest.result.error) else Ok([step.result.value] + rest.result.value))
  }

  /** One round of the loop of `next()` calls on a tracking iterator that
      has not reached the end: it hands out the item at the cursor and goes
      on from the iterator one step further. */
  lemma NextLoopUnfolds<T>(l: LinkedList<T>, it: ListItr) returns (next: ListItr)
    requires Tracking(l, it) && it.nextIndex < l.size
    ensures Tracking(l, next) && next.nextIndex == it.nextIndex + 1
    ensures next.lastReturned == Order(l)[it.nextIndex]
    ensures var rest := NextLoop(l, next);
            NextLoop(l, it) == Outcome(rest.state, if rest.result.Err? then Err(rest.result.error)
                                                   else Ok([Items(l)[it.nextIndex]] + rest.result.value))
  {
    next := Next(l, it).state;
  }

  /** On a tracking iterator the loop of `next()` calls hands out the rest of
      the list, as `forEachRemaining` does. */
  lemma {:induction false} NextLoopYieldsRest<T>(l: LinkedList<T>, it: ListItr)
    requires Tracking(l, it)
    ensures var r := NextLoop(l, it);
            && r.result == Ok(Items(l)[it.nextIndex..])
            && Tracking(l, r.state) && r.state.nextIndex == l.size
            && (it.nextIndex < l.size ==> r.state.lastReturned == Order(l)[l.size - 1])
    decreases l.size - it.nextIndex
  {
    var s := Items(l);
    if it.nextIndex < l.size {
      var next := NextLoopUnfolds(l, it);
      NextLoopYieldsRest(l, next);
      var rest := NextLoop(l, next);
      if next.nextIndex == l.size {
        assert rest == Outcome(next, Ok([]));
      }
      assert rest.state.lastReturned == Order(l)[l.size - 1];
      assert s[it.nextIndex..] == [s[it.nextIndex]] + s[it.nextIndex + 1..];
      assert NextLoop(l, it) == Outcome(rest.state, Ok(s[it.nextIndex..]));
    } else {
      assert NextLoop(l, it) == Outcome(it, Ok([]));
      assert s[it.nextIndex..] == [];
    }
  }

  /** `previous()` called until `hasPrevious()` fails. */
  function PreviousLoop<T>(l: LinkedList<T>, it: ListItr): (r: Outcome<ListItr, seq<Ref<T>>>)
    requires Coherent(l, it)
    decreases if 0 <= it.nextIndex then it.nextIndex else 0
  {
    if !HasPrevious(it) then Outcome(it, Ok([]))
    else
      var step := Previous(l, it);
      if step.result.Err? then Outcome(step.state, Err(step.result.error))
      else
        var rest := PreviousLoop(l, step.state);
        Outcome(rest.state, if rest.result.Err? then Err(rest.result.error) else Ok([step.result.value] + rest.result.value))
  }

  /** Walking back from the cursor hands out the elements before it in
      reverse order. */
  lemma {:induction false} PreviousLoopYieldsReversed<T>(l: LinkedList<T>, it: ListItr)
    requires Tracking(l, it)
    ensures var r := PreviousLoop(l, it);
            && r.result == Ok(Seqs.Reverse(Items(l)[..it.nextIndex]))
            && Tracking(l, r.state) && r.state.nextIndex == 0
    decreases it.nextIndex
  {
    var s := Items(l);
    if 0 < it.nextIndex {
      var step := Previous(l, it);
      PreviousLoopYieldsReversed(l, step.state);
      assert s[..it.nextIndex][..it.nextIndex - 1] == s[..it.nextIndex - 1];
    }
  }

  /** `next()` followed by `previous()` hands out the same element twice and
      puts the cursor back; `previousIndex()` after `next()` is the index of
      the element returned. */
  lemma NextThenPrevious<T>(l: LinkedList<T>, it: ListItr)
    requires Tracking(l, it) && it.nextIndex < l.size
    ensures var n := Next(l, it);
            var p := Previous(l, n.state);
            && PreviousIndex(n.state) == it.nextIndex
            && n.result.Ok? && p.result == n.result
            && NextIndex(p.state) == it.nextIndex
  {
  }

  /** After `add(e)`, `previous()` returns `e`; `next()` is unaffected. */
  lemma AddThenPrevious<T>(l: LinkedList<T>, it: ListItr, e: Ref<T>)
    requires Tracking(l, it)
    ensures var a := Add(l, it, e);
            && Previous(a.state.0, a.state.1).result == Ok(e)
            && (it.nextIndex < l.size ==>
                  Next(a.state.0, a.state.1).result == Next(l, it).result)
  {
    var i := it.nextIndex;
    AddTracks(l, it, e);
    var (l', it') := AddRaw(l, it, e);
    InsertedAt(Items(l), i, e, Items(l'));
  }

  lemma InsertedAt<T>(s: seq<T>, i: int, e: T, t: seq<T>)
    requires 0 <= i <= |s| && t == s[..i] + [e] + s[i..]
    ensures t[i] == e
    ensures i < |s| ==> t[i + 1] == s[i]
  {
  }

  /** A second `remove()` without a `next()` or `previous()` in between
      throws, leaving the list alone. */
  lemma RemoveTwiceFails<T>(l: LinkedList<T>, it: ListItr)
    requires Tracking(l, it) && it.lastReturned != NIL
    ensures var r := Remove(l, it);
            Remove(r.state.0, r.state.1) == Outcome(r.state, Err(IllegalState))
  {
  }

  /** A modification through the list, not the iterator, makes every
      checked iterator operation throw. */
  lemma ForeignChangeFailsFast<T>(l: LinkedList<T>, it: ListItr, e: Ref<T>)
    requires Tracking(l, it)
    ensures var l' := AddLast(l, e);
            && Coherent(l', it)
            && Next(l', it).result == Err(ConcurrentModification)
            && Previous(l', it).result == Err(ConcurrentModification)
            && Add(l', it, e).result == Err(ConcurrentModification)
            && (it.lastReturned != NIL ==> SetLast(l', it, e).result == Err(ConcurrentModification))
  {
  }

  /** `set` through the list changes neither the chain nor the modCount, so
      an iterator in step stays in step, and its next `next()` returns the
      new item when `set` wrote at the cursor. */
  lemma ListSetKeepsTracking<T>(l: LinkedList<T>, it: ListItr, i: int, e: Ref<T>)
    requires Tracking(l, it) && 0 <= i < l.size
    ensures var l' := LinkedListOps.Set(l, i, e).state;
            && Tracking(l', it)
            && (it.nextIndex < l.size ==> Next(l', it).result == Ok(Items(l')[it.nextIndex]))
            && (i == it.nextIndex ==> Next(l', it).result == Ok(e))
  {
  }

  // ------------------------------------------------------------ descending iterator

  /** `descendingIterator()`: a list iterator started at the end, run backwards. */
  datatype DescendingItr = DescendingItr(itr: ListItr)

  function DescendingIterator<T>(l: LinkedList<T>): (r: DescendingItr)
    requires Valid(l)
    ensures Tracking(l, r.itr) && r.itr.nextIndex == l.size && r.itr.lastReturned == NIL
  {
    DescendingItr(ListIterator(l, l.size).value)
  }

  /** `hasNext()`: `itr.hasPrevious()`. */
  function DescendingHasNext(d: DescendingItr): (r: bool)
    ensures r <==> 0 < NextIndex(d.itr)
  {
    HasPrevious(d.itr)
  }

  /** `next()`: `itr.previous()`. */
  function DescendingNext<T>(l: LinkedList<T>, d: DescendingItr): (r: Outcome<DescendingItr, Ref<T>>)
    requires Coherent(l, d.itr)
    ensures Tracking(l, d.itr) && 0 < d.itr.nextIndex ==>
              && r.result == Ok(Items(l)[d.itr.nextIndex - 1])
              && Tracking(l, r.state.itr) && r.state.itr.nextIndex == d.itr.nextIndex - 1
    ensures Tracking(l, d.itr) && d.itr.nextIndex == 0 ==> r.result == Err(NoSuchElement)
    ensures !InStep(l, d.itr) ==> r.result == Err(ConcurrentModification)
  {
    var p := Previous(l, d.itr);
    Outcome(DescendingItr(p.state), p.result)
  }

  /** Run backwards, the descending iterator has a next item exactly when
      its `next()` would return one. */
  lemma DescendingHasNextMatchesNext<T>(l: LinkedList<T>, d: DescendingItr)
    requires Tracking(l, d.itr)
    ensures DescendingHasNext(d) <==> DescendingNext(l, d).result.Ok?
  {
  }

  /** `remove()`: `itr.remove()`. */
  function DescendingRemove<T>(l: LinkedList<T>, d: DescendingItr): (r: Outcome<(LinkedList<T>, DescendingItr), ()>)
    requires Coherent(l, d.itr)
    ensures Tracking(l, d.itr) && d.itr.lastReturned != NIL ==>
              var p := LastPos(l, d.itr);
              && r.result.Ok?
              && Valid(r.state.0) && Items(r.state.0) == Items(l)[..p] + Items(l)[p + 1..]
              && Tracking(r.state.0, r.state.1.itr) && r.state.1.itr.nextIndex == p
    ensures Tracking(l, d.itr) && d.itr.lastReturned == NIL ==> r.result == Err(IllegalState)
    ensures !InStep(l, d.itr) ==> r.result == Err(ConcurrentModification)
  {
    var x := Remove(l, d.itr);
    Outcome((x.state.0, DescendingItr(x.state.1)), x.result)
  }

  /** A fresh descending iterator hands out the list's elements last to
      first. */
  lemma DescendingTraversal<T>(l: LinkedList<T>)
    requires Valid(l)
    ensures PreviousLoop(l, DescendingIterator(l).itr).result == Ok(Seqs.Reverse(Items(l)))
  {
    var d := DescendingIterator(l);
    PreviousLoopYieldsReversed(l, d.itr);
    assert Items(l)[..l.size] == Items(l);
  }
}
