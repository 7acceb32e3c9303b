/** ArrayList's fail-fast iterators: `Itr` (the plain iterator) and `ListItr`
    (the bidirectional list iterator that extends it). An iterator is a value
    beside the list it walks; each operation takes both and returns what
    changed. */
module ArrayListIter {
  import opened JavaLang
  import opened ArrayListModel
  import Int32

  /** `cursor` is the index of the next element to return; `lastRet` the index
      of the last one returned, or -1; `expectedModCount` the list's modCount
      the iterator last agreed with. */
  datatype Itr = Itr(cursor: int, lastRet: int, expectedModCount: int)

  /** An iterator together with the list it walks. */
  datatype Walker<T> = Walker(list: ArrayList<T>, it: Itr)

  /** Field ranges every iterator keeps, whatever happens to its list. */
  predicate Wf(it: Itr) {
    0 <= it.cursor && -1 <= it.lastRet
  }

  /** The iterator has seen every structural modification of the list. */
  predicate Synced<T>(l: ArrayList<T>, it: Itr) {
    it.expectedModCount == l.modCount
  }

  /** While synced, the cursor and the last returned index lie in the list. */
  predicate Coherent<T>(l: ArrayList<T>, it: Itr) {
    Valid(l) && Wf(it) && (Synced(l, it) ==> it.cursor <= l.size && it.lastRet < l.size)
  }

  /** `iterator()`. */
  function Iterator<T>(l: ArrayList<T>): (r: Itr)
    requires Valid(l)
    ensures Coherent(l, r) && Synced(l, r) && r.cursor == 0 && r.lastRet == -1
  {
    Itr(0, -1, l.modCount)
  }

  /** `listIterator(index)`: the cursor starts at `index`, which must be a
      position in [0, size]. */
  function ListIterator<T>(l: ArrayList<T>, index: int): (r: Result<Itr>)
    requires Valid(l)
    ensures r.Ok? <==> 0 <= index <= l.size
    ensures r.Err? ==> r.error == IndexOutOfBounds
    ensures r.Ok? ==> Coherent(l, r.value) && Synced(l, r.value)
                      && r.value.cursor == index && r.value.lastRet == -1
  {
    if index < 0 || index > l.size then Err(IndexOutOfBounds) else Ok(Itr(index, -1, l.modCount))
  }

  /** `hasNext`: the cursor has not reached the end. It compares with `!=`,
      so a cursor left past the end by a foreign removal reports more. */
  function HasNext<T>(l: ArrayList<T>, it: Itr): (r: bool)
    ensures Coherent(l, it) && Synced(l, it) ==> (r <==> it.cursor < |Elements(l)|)
    ensures l.size < it.cursor ==> r
  {
    it.cursor != l.size
  }

  /** `hasPrevious` (ListItr): some element lies before the cursor. */
  function HasPrevious(it: Itr): (r: bool)
    ensures Wf(it) ==> (r <==> 0 <= PreviousIndex(it))
  {
    it.cursor != 0
  }

  /** `nextIndex` (ListItr): the index `next` would return. */
  function NextIndex(it: Itr): (r: int)
    ensures Wf(it) ==> 0 <= r
  {
    it.cursor
  }

  /** `previousIndex` (ListItr): one before `nextIndex`, so -1 at the start. */
  function PreviousIndex(it: Itr): (r: int)
    ensures r == NextIndex(it) - 1
    ensures Wf(it) ==> -1 <= r
  {
    it.cursor - 1
  }

  /** The queries agree with the steps: `hasNext` and `hasPrevious` hold
      exactly when `next` and `previous` would succeed, and the indices
      they report move with the cursor. */
  lemma QueriesMatchSteps<T>(l: ArrayList<T>, it: Itr)
    requires Coherent(l, it) && Synced(l, it)
    ensures HasNext(l, it) <==> Next(l, it).result.Ok?
    ensures HasPrevious(it) <==> Previous(l, it).result.Ok?
    ensures Next(l, it).result.Ok? ==>
              NextIndex(Next(l, it).state) == NextIndex(it) + 1 && PreviousIndex(Next(l, it).state) == NextIndex(it)
    ensures Previous(l, it).result.Ok? ==>
              NextIndex(Previous(l, it).state) == PreviousIndex(it)
              && Previous(l, it).result.value == Elements(l)[PreviousIndex(it)]
  {
  }

  /** `next`: fails fast on a foreign modification, then returns the element
      under the cursor and advances. */
  function Next<T>(l: ArrayList<T>, it: Itr): (r: Outcome<Itr, Ref<T>>)
    requires Valid(l) && Wf(it)
    ensures Wf(r.state) && r.state.expectedModCount == it.expectedModCount
    ensures Coherent(l, it) ==> Coherent(l, r.state)
    ensures r.result.Ok? <==> Synced(l, it) && it.cursor < l.size
    ensures r.result.Ok? ==> r.result.value == Elements(l)[it.cursor]
                             && r.state == it.(cursor := it.cursor + 1, lastRet := it.cursor)
    ensures !Synced(l, it) ==> r == Outcome(it, Err(ConcurrentModification))
    ensures Synced(l, it) && l.size <= it.cursor ==> r == Outcome(it, Err(NoSuchElement))
  {
    if l.modCount != it.expectedModCount then Outcome(it, Err(ConcurrentModification))
    else
      var i := it.cursor;
      if i >= l.size then Outcome(it, Err(NoSuchElement))
      else Outcome(it.(cursor := i + 1, lastRet := i), Ok(l.elementData[i]))
  }

  /** `previous` (ListItr): steps back and returns the element stepped over.
      A cursor past the buffer, which only a foreign modification can leave,
      is reported as a concurrent modification. */
  function Previous<T>(l: ArrayList<T>, it: Itr): (r: Outcome<Itr, Ref<T>>)
    requires Valid(l) && Wf(it)
    ensures Wf(r.state) && r.state.expectedModCount == it.expectedModCount
    ensures Coherent(l, it) ==> Coherent(l, r.state)
    ensures r.result.Ok? <==> Synced(l, it) && 0 < it.cursor <= |l.elementData|
    ensures r.result.Ok? && it.cursor <= l.size ==> r.result.value == Elements(l)[it.cursor - 1]
    ensures r.result.Ok? ==> r.state == it.(cursor := it.cursor - 1, lastRet := it.cursor - 1)
    ensures !Synced(l, it) ==> r == Outcome(it, Err(ConcurrentModification))
    ensures Synced(l, it) && it.cursor == 0 ==> r == Outcome(it, Err(NoSuchElement))
    ensures r.result.Err? ==> r.state == it
  {
    if l.modCount != it.expectedModCount then Outcome(it, Err(ConcurrentModification))
    else
      var i := it.cursor - 1;
      if i < 0 then Outcome(it, Err(NoSuchElement))
      else if i >= |l.elementData| then Outcome(it, Err(ConcurrentModification))
      else Outcome(it.(cursor := i, lastRet := i), Ok(l.elementData[i]))
  }

  /** `remove`: deletes the last returned element through the list, moves the
      cursor back onto its slot and re-synchronises. A list `remove` that
      rejects the index is reported as a concurrent modification. */
  function Remove<T>(l: ArrayList<T>, it: Itr): (r: Outcome<Walker<T>, ()>)
    requires Valid(l) && Wf(it)
    ensures Valid(r.state.list) && Wf(r.state.it)
    ensures Coherent(l, it) ==> Coherent(r.state.list, r.state.it)
    ensures r.result.Ok? <==> 0 <= it.lastRet < l.size && Synced(l, it)
    ensures r.result.Ok? ==>
              && Elements(r.state.list) == Elements(l)[..it.lastRet] + Elements(l)[it.lastRet + 1..]
              && r.state.list.modCount == l.modCount + 1
              && r.state.it == Itr(it.lastRet, -1, r.state.list.modCount)
    ensures it.lastRet < 0 ==> r == Outcome(Walker(l, it), Err(IllegalState))
    ensures 0 <= it.lastRet && !Synced(l, it) ==> r == Outcome(Walker(l, it), Err(ConcurrentModification))
    ensures r.result.Err? ==> r.state.list == l && r.state.it == it
  {
    if it.lastRet < 0 then Outcome(Walker(l, it), Err(IllegalState))
    else if l.modCount != it.expectedModCount then Outcome(Walker(l, it), Err(ConcurrentModification))
    else
      var o := RemoveAt(l, it.lastRet);
      if o.result.Err? then Outcome(Walker(o.state, it), Err(ConcurrentModification))
      else Outcome(Walker(o.state, Itr(it.lastRet, -1, o.state.modCount)), Ok(()))
  }

  /** `set` (ListItr): replaces the last returned element; not structural, so
      the iterator stays synced. */
  function SetLast<T>(l: ArrayList<T>, it: Itr, e: Ref<T>): (r: Outcome<ArrayList<T>, ()>)
    requires Valid(l) && Wf(it)
    ensures Valid(r.state) && r.state.modCount == l.modCount
    ensures r.result.Ok? <==> 0 <= it.lastRet < l.size && Synced(l, it)
    ensures r.result.Ok? ==> Elements(r.state) == Elements(l)[it.lastRet := e]
    ensures it.lastRet < 0 ==> r == Outcome(l, Err(IllegalState))
    ensures 0 <= it.lastRet && !Synced(l, it) ==> r == Outcome(l, Err(ConcurrentModification))
    ensures r.result.Err? ==> r.state == l
  {
    if it.lastRet < 0 then Outcome(l, Err(IllegalState))
    else if l.modCount != it.expectedModCount then Outcome(l, Err(ConcurrentModification))
    else
      var o := Set(l, it.lastRet, e);
      if o.result.Err? then Outcome(l, Err(ConcurrentModification))
      else Outcome(o.state, Ok(()))
  }

  /** `add` (ListItr): inserts at the cursor through the list and steps over
      the new element, so a following `next` is unaffected. Running out of
      capacity is an Error the iterator does not catch; the list has by then
      counted the modification. */
  function AddHere<T>(l: ArrayList<T>, it: Itr, e: Ref<T>): (r: Outcome<Walker<T>, ()>)
    requires Valid(l) && Wf(it)
    ensures Valid(r.state.list) && Wf(r.state.it)
    ensures Coherent(l, it) ==> Coherent(r.state.list, r.state.it)
    ensures r.result.Ok? <==> Synced(l, it) && it.cursor <= l.size && l.size < Int32.MAX
    ensures r.result.Ok? ==>
              && Elements(r.state.list) == Elements(l)[..it.cursor] + [e] + Elements(l)[it.cursor..]
              && r.state.it == Itr(it.cursor + 1, -1, l.modCount + 1)
              && Synced(r.state.list, r.state.it)
    ensures !Synced(l, it) ==> r == Outcome(Walker(l, it), Err(ConcurrentModification))
    ensures Synced(l, it) && l.size < it.cursor ==> r == Outcome(Walker(l, it), Err(ConcurrentModification))
    ensures r.result.Err? ==> Elements(r.state.list) == Elements(l) && r.state.it == it
  {
    if l.modCount != it.expectedModCount then Outcome(Walker(l, it), Err(ConcurrentModification))
    else
      var i := it.cursor;
      var o := AddAt(l, i, e);
      if o.result.Err? then
        Outcome(Walker(o.state, it), if o.result.error == IndexOutOfBounds then Err(ConcurrentModification) else o.result)
      else Outcome(Walker(o.state, Itr(i + 1, -1, o.state.modCount)), Ok(()))
  }

  /** `forEachRemaining(consumer)`: hands every element from the cursor on
      to the consumer, writes the cursor back once at the end (leaving
      `lastRet` on the last element handed over), then fails if the list was
      modified. The result is the sequence of elements the consumer received.
      A cursor already at or past the end returns at once, without a check. */
  method ForEachRemaining<T>(l: ArrayList<T>, it: Itr) returns (r: Outcome<Itr, seq<Ref<T>>>)
    requires Valid(l) && Wf(it)
    ensures Wf(r.state)
    ensures l.size <= it.cursor ==> r == Outcome(it, Ok([]))
    ensures it.cursor < l.size && Synced(l, it) ==>
              r == Outcome(it.(cursor := l.size, lastRet := l.size - 1), Ok(Elements(l)[it.cursor..]))
    ensures it.cursor < l.size && !Synced(l, it) ==>
              r == Outcome(it.(lastRet := it.cursor - 1), Err(ConcurrentModification))
    ensures it.cursor <= l.size && Synced(l, it) ==> r == NextLoop(l, it)
  {
    var size := l.size;
    var i := it.cursor;
    if i >= size {
      return Outcome(it, Ok([]));
    }
    var accepted: seq<Ref<T>> := [];
    while i != size && l.modCount == it.expectedModCount
      invariant it.cursor <= i <= size
      invariant accepted == l.elementData[it.cursor..i]
      invariant l.modCount != it.expectedModCount ==> i == it.cursor
    {
      accepted := accepted + [l.elementData[i]];
      i := i + 1;
    }
    var it' := it.(cursor := i, lastRet := i - 1);
    if l.modCount != it.expectedModCount {
      return Outcome(it', Err(ConcurrentModification));
    }
    assert accepted == Elements(l)[it.cursor..];
    NextLoopYieldsRest(l, it);
    r := Outcome(it', Ok(accepted));
  }

  /** The elements a loop of `next` calls returns while `hasNext` holds. */
  function NextLoop<T>(l: ArrayList<T>, it: Itr): (r: Outcome<Itr, seq<Ref<T>>>)
    requires Valid(l) && Wf(it) && it.cursor <= l.size
    decreases l.size - it.cursor
  {
    if !HasNext(l, it) then Outcome(it, Ok([]))
    else
      var step := Next(l, it);
      if step.result.Err? then Outcome(step.state, Err(step.result.error))
      else
        var rest := NextLoop(l, step.state);
        Outcome(rest.state, if rest.result.Err? then rest.result else Ok([step.result.value] + rest.result.value))
  }

  /** A synced iterator returns exactly the list from its cursor on, and ends
      with the cursor at the end and `lastRet` on the last element. */
  lemma {:induction false} NextLoopYieldsRest<T>(l: ArrayList<T>, it: Itr)
    requires Valid(l) && Wf(it) && it.cursor <= l.size && Synced(l, it)
    ensures NextLoop(l, it).result == Ok(Elements(l)[it.cursor..])
    ensures it.cursor < l.size ==> NextLoop(l, it).state == it.(cursor := l.size, lastRet := l.size - 1)
    ensures it.cursor == l.size ==> NextLoop(l, it).state == it
    decreases l.size - it.cursor
  {
    if it.cursor < l.size {
      var step := Next(l, it);
      NextLoopYieldsRest(l, step.state);
      var rest := NextLoop(l, step.state);
      assert rest.result == Ok(Elements(l)[it.cursor + 1..]);
      assert Elements(l)[it.cursor..] == [Elements(l)[it.cursor]] + Elements(l)[it.cursor + 1..];
    } else {
      assert Elements(l)[it.cursor..] == [];
    }
  }

  /** Fail-fast: once the list is structurally modified behind the
      iterator's back (here by a list `add`), every iterator operation that
      checks throws ConcurrentModificationException and changes nothing. */
  lemma ForeignAddInvalidates<T>(l: ArrayList<T>, it: Itr, e: Ref<T>, x: Ref<T>)
    requires Coherent(l, it) && Synced(l, it)
    ensures var l' := Add(l, e).state;
            && Next(l', it) == Outcome(it, Err(ConcurrentModification))
            && Previous(l', it) == Outcome(it, Err(ConcurrentModification))
            && AddHere(l', it, x) == Outcome(Walker(l', it), Err(ConcurrentModification))
            && (it.lastRet >= 0 ==> Remove(l', it) == Outcome(Walker(l', it), Err(ConcurrentModification)))
            && (it.lastRet >= 0 ==> SetLast(l', it, x) == Outcome(l', Err(ConcurrentModification)))
  {
  }
}
