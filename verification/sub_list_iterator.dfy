/** The list iterator of an ArrayList `subList` view. It keeps the view's
    absolute offset, reads the root's buffer directly, and checks the ROOT's
    modCount; structural changes go through the view. */
module SubListIterator {
  import opened JavaLang
  import opened ArrayListModel
  import opened ArraySubList
  import Int32

  /** `offset` is the view's absolute offset, captured when the iterator was
      created. */
  datatype SubItr = SubItr(cursor: int, lastRet: int, expectedModCount: int, offset: int)

  predicate SubWf(it: SubItr) {
    0 <= it.cursor && -1 <= it.lastRet && 0 <= it.offset
  }

  /** The iterator has seen every structural modification of the root. */
  predicate InStep<T>(v: Views<T>, it: SubItr) {
    it.expectedModCount == v.root.modCount
  }

  /** The iterator belongs to live view `k` and is in step with the root:
      the state in which its answers are the view's elements. */
  predicate Tracking<T>(v: Views<T>, k: int, it: SubItr) {
    && WfViews(v) && Live(v, k) && SubWf(it) && InStep(v, it)
    && it.offset == v.chain[k].offset && it.cursor <= v.chain[k].size && it.lastRet < v.chain[k].size
  }

  /** `listIterator(index)` on view `k`: the view's modification check comes
      before the range check. */
  function ViewListIterator<T>(v: Views<T>, k: int, index: int): (r: Result<SubItr>)
    requires WfViews(v) && 0 <= k < |v.chain|
    ensures v.root.modCount != v.chain[k].modCount ==> r == Err(ConcurrentModification)
    ensures v.root.modCount == v.chain[k].modCount && !(0 <= index <= v.chain[k].size) ==> r == Err(IndexOutOfBounds)
    ensures r.Ok? <==> v.root.modCount == v.chain[k].modCount && 0 <= index <= v.chain[k].size
    ensures r.Ok? ==> SubWf(r.value) && InStep(v, r.value) && r.value.cursor == index && r.value.lastRet == -1
    ensures r.Ok? && Live(v, k) ==> Tracking(v, k, r.value)
  {
    LiveInBoundsIf(v, k);
    if v.root.modCount != v.chain[k].modCount then Err(ConcurrentModification)
    else if index < 0 || index > v.chain[k].size then Err(IndexOutOfBounds)
    else Ok(SubItr(index, -1, v.root.modCount, v.chain[k].offset))
  }

  /** `hasNext`: compares with the view's current size. */
  function SubHasNext<T>(v: Views<T>, k: int, it: SubItr): (r: bool)
    requires 0 <= k < |v.chain|
    ensures Tracking(v, k, it) ==> (r <==> it.cursor < |ViewElements(v, k)|)
  {
    it.cursor != v.chain[k].size
  }

  /** `hasPrevious`: some element of the view lies before the cursor. */
  function SubHasPrevious(it: SubItr): (r: bool)
    ensures SubWf(it) ==> (r <==> 0 <= SubPreviousIndex(it))
  {
    it.cursor != 0
  }

  /** `nextIndex`: the view index `next` would return. */
  function SubNextIndex(it: SubItr): (r: int)
    ensures SubWf(it) ==> 0 <= r
  {
    it.cursor
  }

  /** `previousIndex`: one before `nextIndex`. */
  function SubPreviousIndex(it: SubItr): (r: int)
    ensures r == SubNextIndex(it) - 1
    ensures SubWf(it) ==> -1 <= r
  {
    it.cursor - 1
  }

  /** `next`: the modification check, the view's size check, then a read of
      the root's buffer at `offset + cursor`. */
  function SubNext<T>(v: Views<T>, k: int, it: SubItr): (r: Outcome<SubItr, Ref<T>>)
    requires WfViews(v) && 0 <= k < |v.chain| && SubWf(it)
    ensures SubWf(r.state) && r.state.expectedModCount == it.expectedModCount && r.state.offset == it.offset
    ensures !InStep(v, it) ==> r == Outcome(it, Err(ConcurrentModification))
    ensures InStep(v, it) && v.chain[k].size <= it.cursor ==> r == Outcome(it, Err(NoSuchElement))
    ensures r.result.Ok? ==> r.state == it.(cursor := it.cursor + 1, lastRet := it.cursor)
    ensures r.result.Err? ==> r.state == it
    ensures Tracking(v, k, it) ==> Tracking(v, k, r.state)
    ensures Tracking(v, k, it) ==> (r.result.Ok? <==> it.cursor < v.chain[k].size)
    ensures Tracking(v, k, it) && r.result.Ok? ==> r.result.value == ViewElements(v, k)[it.cursor]
  {
    LiveInBoundsIf(v, k);
    if v.root.modCount != it.expectedModCount then Outcome(it, Err(ConcurrentModification))
    else
      var i := it.cursor;
      if i >= v.chain[k].size then Outcome(it, Err(NoSuchElement))
      else if it.offset + i >= |v.root.elementData| then Outcome(it, Err(ConcurrentModification))
      else Outcome(it.(cursor := i + 1, lastRet := i), Ok(v.root.elementData[it.offset + i]))
  }

  /** `previous`: steps back and returns the element stepped over. */
  function SubPrevious<T>(v: Views<T>, k: int, it: SubItr): (r: Outcome<SubItr, Ref<T>>)
    requires WfViews(v) && 0 <= k < |v.chain| && SubWf(it)
    ensures SubWf(r.state) && r.state.expectedModCount == it.expectedModCount && r.state.offset == it.offset
    ensures !InStep(v, it) ==> r == Outcome(it, Err(ConcurrentModification))
    ensures InStep(v, it) && it.cursor == 0 ==> r == Outcome(it, Err(NoSuchElement))
    ensures r.result.Ok? ==> r.state == it.(cursor := it.cursor - 1, lastRet := it.cursor - 1)
    ensures r.result.Err? ==> r.state == it
    ensures Tracking(v, k, it) ==> Tracking(v, k, r.state)
    ensures Tracking(v, k, it) ==> (r.result.Ok? <==> 0 < it.cursor)
    ensures Tracking(v, k, it) && r.result.Ok? ==> r.result.value == ViewElements(v, k)[it.cursor - 1]
  {
    LiveInBoundsIf(v, k);
    if v.root.modCount != it.expectedModCount then Outcome(it, Err(ConcurrentModification))
    else
      var i := it.cursor - 1;
      if i < 0 then Outcome(it, Err(NoSuchElement))
      else if it.offset + i >= |v.root.elementData| then Outcome(it, Err(ConcurrentModification))
      else Outcome(it.(cursor := i, lastRet := i), Ok(v.root.elementData[it.offset + i]))
  }

  /** The queries agree with the steps: `hasNext` and `hasPrevious` hold
      exactly when `next` and `previous` would succeed, and the indices move
      with the cursor. */
  lemma SubQueriesMatchSteps<T>(v: Views<T>, k: int, it: SubItr)
    requires Tracking(v, k, it)
    ensures SubHasNext(v, k, it) <==> SubNext(v, k, it).result.Ok?
    ensures SubHasPrevious(it) <==> SubPrevious(v, k, it).result.Ok?
    ensures SubNext(v, k, it).result.Ok? ==>
              SubNextIndex(SubNext(v, k, it).state) == SubNextIndex(it) + 1
              && SubNext(v, k, it).result.value == ViewElements(v, k)[SubNextIndex(it)]
    ensures SubPrevious(v, k, it).result.Ok? ==>
              SubNextIndex(SubPrevious(v, k, it).state) == SubPreviousIndex(it)
              && SubPrevious(v, k, it).result.value == ViewElements(v, k)[SubPreviousIndex(it)]
  {
  }

  /** A step that removes through the view keeps `k` the same view. */
  datatype SubWalker<T> = SubWalker(views: Views<T>, it: SubItr)

  /** `remove`: removes the last returned element through the VIEW (so the
      view's range check applies), then re-synchronises; an index the view
      rejects is reported as a concurrent modification. */
  function SubRemove<T>(v: Views<T>, k: int, it: SubItr): (r: Outcome<SubWalker<T>, ()>)
    requires WfViews(v) && 0 <= k < |v.chain| && SubWf(it)
    ensures WfViews(r.state.views) && SubWf(r.state.it) && |r.state.views.chain| == |v.chain|
    ensures it.lastRet < 0 ==> r == Outcome(SubWalker(v, it), Err(IllegalState))
    ensures 0 <= it.lastRet && !InStep(v, it) ==> r == Outcome(SubWalker(v, it), Err(ConcurrentModification))
    ensures 0 <= it.lastRet && InStep(v, it) && v.chain[k].size <= it.lastRet ==>
              r == Outcome(SubWalker(v, it), Err(ConcurrentModification))
    ensures r.result.Ok? ==> r.state.it == it.(cursor := it.lastRet, lastRet := -1,
                                                expectedModCount := r.state.views.root.modCount)
    ensures Tracking(v, k, it) && 0 <= it.lastRet ==>
              && r.result.Ok?
              && Tracking(r.state.views, k, r.state.it)
              && ViewElements(r.state.views, k)
                 == ViewElements(v, k)[..it.lastRet] + ViewElements(v, k)[it.lastRet + 1..]
  {
    if it.lastRet < 0 then Outcome(SubWalker(v, it), Err(IllegalState))
    else if v.root.modCount != it.expectedModCount then Outcome(SubWalker(v, it), Err(ConcurrentModification))
    else
      RemoveTracked(v, k, it);
      var o := ViewRemoveAt(v, k, it.lastRet);
      if o.result.Err? then
        Outcome(SubWalker(o.state, it), Err(if IsIndexOutOfBounds(o.result.error) then ConcurrentModification else o.result.error))
      else
        var it' := it.(cursor := it.lastRet, lastRet := -1, expectedModCount := o.state.root.modCount);
        Outcome(SubWalker(o.state, it'), Ok(()))
  }

  /** `set`: writes through the ROOT list at `offset + lastRet`, so only the
      root's range check applies, not the view's. */
  function SubSetLast<T>(v: Views<T>, k: int, it: SubItr, e: Ref<T>): (r: Outcome<Views<T>, ()>)
    requires WfViews(v) && 0 <= k < |v.chain| && SubWf(it)
    ensures WfViews(r.state) && r.state.chain == v.chain && r.state.root.modCount == v.root.modCount
    ensures it.lastRet < 0 ==> r == Outcome(v, Err(IllegalState))
    ensures 0 <= it.lastRet && !InStep(v, it) ==> r == Outcome(v, Err(ConcurrentModification))
    ensures r.result.Ok? <==> 0 <= it.lastRet && InStep(v, it) && it.offset + it.lastRet < v.root.size
    ensures r.result.Ok? ==> Elements(r.state.root) == Elements(v.root)[it.offset + it.lastRet := e]
    ensures r.result.Err? ==> r.state == v
    ensures Tracking(v, k, it) && 0 <= it.lastRet ==>
              && r.result.Ok? && Live(r.state, k)
              && ViewElements(r.state, k) == ViewElements(v, k)[it.lastRet := e]
  {
    LiveInBoundsIf(v, k);
    if it.lastRet < 0 then Outcome(v, Err(IllegalState))
    else if v.root.modCount != it.expectedModCount then Outcome(v, Err(ConcurrentModification))
    else
      var o := Set(v.root, it.offset + it.lastRet, e);
      if o.result.Err? then Outcome(v, Err(ConcurrentModification))
      else
        var r := v.(root := o.state);
        if Tracking(v, k, it) then
          SetKeepsLive(v, k, it.lastRet, e, r);
          Outcome(r, Ok(()))
        else Outcome(r, Ok(()))
  }

  /** A write of one root element keeps a live view live and replaces the
      element at the view's index. */
  lemma SetKeepsLive<T>(v: Views<T>, k: int, index: int, e: Ref<T>, r: Views<T>)
    requires WfViews(v) && Live(v, k) && 0 <= index < v.chain[k].size
    requires WfViews(r) && r.chain == v.chain && r.root.modCount == v.root.modCount && r.root.size == v.root.size
    requires 0 <= v.chain[k].offset + index < v.root.size
    requires Elements(r.root) == Elements(v.root)[v.chain[k].offset + index := e]
    ensures Live(r, k) && ViewElements(r, k) == ViewElements(v, k)[index := e]
  {
    LiveInBounds(v, k);
    forall j | 0 <= j <= k
      ensures LiveLevel(r, j)
    {
      assert LiveLevel(v, j);
    }
    LiveInBounds(r, k);
    SpliceView(v, r, k, v.chain[k].offset + index, 1, [e]);
  }

  /** `add(e)`: inserts at the cursor through the view and steps over it. */
  function SubAdd<T>(v: Views<T>, k: int, it: SubItr, e: Ref<T>): (r: Outcome<SubWalker<T>, ()>)
    requires WfViews(v) && 0 <= k < |v.chain| && SubWf(it)
    ensures WfViews(r.state.views) && SubWf(r.state.it) && |r.state.views.chain| == |v.chain|
    ensures !InStep(v, it) ==> r == Outcome(SubWalker(v, it), Err(ConcurrentModification))
    ensures r.result.Ok? ==> r.state.it == it.(cursor := it.cursor + 1, lastRet := -1,
                                                expectedModCount := r.state.views.root.modCount)
    ensures Tracking(v, k, it) ==> (r.result.Ok? <==> v.root.size < Int32.MAX)
    ensures Tracking(v, k, it) && r.result.Ok? ==>
              && Tracking(r.state.views, k, r.state.it)
              && ViewElements(r.state.views, k)
                 == ViewElements(v, k)[..it.cursor] + [e] + ViewElements(v, k)[it.cursor..]
  {
    if v.root.modCount != it.expectedModCount then Outcome(SubWalker(v, it), Err(ConcurrentModification))
    else
      AddTracked(v, k, it, e);
      var o := ViewAddAt(v, k, it.cursor, e);
      if o.result.Err? then
        Outcome(SubWalker(o.state, it), Err(if IsIndexOutOfBounds(o.result.error) then ConcurrentModification else o.result.error))
      else
        var it' := it.(cursor := it.cursor + 1, lastRet := -1, expectedModCount := o.state.root.modCount);
        Outcome(SubWalker(o.state, it'), Ok(()))
  }

  lemma RemoveTracked<T>(v: Views<T>, k: int, it: SubItr)
    requires WfViews(v) && 0 <= k < |v.chain|
    ensures Tracking(v, k, it) && 0 <= it.lastRet ==>
              var r := ViewRemoveAt(v, k, it.lastRet);
              && r.result.Ok? && Live(r.state, k)
              && ViewElements(r.state, k) == ViewElements(v, k)[..it.lastRet] + ViewElements(v, k)[it.lastRet + 1..]
  {
    if Tracking(v, k, it) && 0 <= it.lastRet {
      ViewRemoveAtLive(v, k, it.lastRet);
    }
  }

  lemma AddTracked<T>(v: Views<T>, k: int, it: SubItr, e: Ref<T>)
    requires WfViews(v) && 0 <= k < |v.chain|
    ensures Tracking(v, k, it) ==>
              var r := ViewAddAt(v, k, it.cursor, e);
              && (r.result.Ok? <==> v.root.size < Int32.MAX)
              && (r.result.Ok? ==>
                    Live(r.state, k)
                    && ViewElements(r.state, k) == ViewElements(v, k)[..it.cursor] + [e] + ViewElements(v, k)[it.cursor..])
  {
    if Tracking(v, k, it) {
      ViewAddAtLive(v, k, it.cursor, e);
    }
  }


  /** The loop of `forEachRemaining`: hands the consumer the root buffer's
      slots from `offset + i` up to `offset + size`, and stops with
      ArrayIndexOutOfBounds at the first slot past the buffer, keeping what
      was handed out before. The state is the index the loop reached. The
      consumer is pure, so the loop's own modification test keeps its first
      value throughout. */
  function Drain<T>(root: ArrayList<T>, offset: int, i: int, size: int): (r: Traversal<int, Ref<T>>)
    requires 0 <= offset && 0 <= i
    ensures r.thrown.Some? ==> r.thrown == Some(ArrayIndexOutOfBounds)
    ensures i <= size && offset + size <= |root.elementData| ==>
              r == Traversal(size, root.elementData[offset + i..offset + size], None)
    ensures i < size && offset + i <= |root.elementData| < offset + size ==>
              r.accepted == root.elementData[offset + i..] && r.thrown.Some?
    decreases size - i
  {
    if i >= size then Traversal(i, [], None)
    else if offset + i >= |root.elementData| then Traversal(i, [], Some(ArrayIndexOutOfBounds))
    else
      var rest := Drain(root, offset, i + 1, size);
      Traversal(rest.state, [root.elementData[offset + i]] + rest.accepted, rest.thrown)
  }

  /** For a tracking iterator, the rest of the view is a slice of the root's
      buffer. */
  lemma RestOfViewInBuffer<T>(v: Views<T>, k: int, it: SubItr)
    requires Tracking(v, k, it)
    ensures it.offset + v.chain[k].size <= |v.root.elementData|
    ensures ViewElements(v, k)[it.cursor..] == v.root.elementData[it.offset + it.cursor..it.offset + v.chain[k].size]
  {
    LiveInBounds(v, k);
    var o, n, c := it.offset, v.chain[k].size, it.cursor;
    var a := v.root.elementData;
    assert Elements(v.root) == a[..v.root.size];
    assert ViewElements(v, k) == a[o..o + n];
    assert a[o..o + n][c..] == a[o + c..o + n];
  }

  /** The shared part of both versions of `forEachRemaining`, up to the end
      of the loop. The state is `None` when the iterator is left as it was
      (an early return, or an exception before or inside the loop), and
      otherwise the index the loop stopped at. */
  function DrainLoop<T>(v: Views<T>, k: int, it: SubItr): (r: Traversal<Option<int>, Ref<T>>)
    requires WfViews(v) && 0 <= k < |v.chain| && SubWf(it)
    ensures r.state.Some? ==> r.thrown.None? && it.cursor <= r.state.value
    ensures var a, size := v.root.elementData, v.chain[k].size;
            && (size <= it.cursor ==> r == Traversal(None, [], None))
            && (it.cursor < size && |a| <= it.offset + it.cursor ==>
                  r == Traversal(None, [], Some(ConcurrentModification)))
            && (it.cursor < size && it.offset + it.cursor < |a| && v.chain[k].modCount != it.expectedModCount ==>
                  r == Traversal(Some(it.cursor), [], None))
            && (it.cursor < size && it.offset + size <= |a| && v.chain[k].modCount == it.expectedModCount ==>
                  r == Traversal(Some(size), a[it.offset + it.cursor..it.offset + size], None))
            && (it.cursor < size && it.offset + it.cursor < |a| < it.offset + size
                && v.chain[k].modCount == it.expectedModCount ==>
                  r.state == None && r.accepted == a[it.offset + it.cursor..]
                  && r.thrown == Some(ArrayIndexOutOfBounds))
    ensures Tracking(v, k, it) && it.cursor < v.chain[k].size ==>
              r == Traversal(Some(v.chain[k].size), ViewElements(v, k)[it.cursor..], None)
  {
    LiveInBoundsIf(v, k);
    var size := v.chain[k].size;
    var i := it.cursor;
    if i >= size then Traversal(None, [], None)
    else if it.offset + i >= |v.root.elementData| then Traversal(None, [], Some(ConcurrentModification))
    else if v.chain[k].modCount != it.expectedModCount then Traversal(Some(i), [], None)
    else
      var d := Drain(v.root, it.offset, i, size);
      assert Tracking(v, k, it) ==> d.accepted == ViewElements(v, k)[it.cursor..] by {
        if Tracking(v, k, it) {
          RestOfViewInBuffer(v, k, it);
        }
      }
      Traversal(if d.thrown.Some? then None else Some(d.state), d.accepted, d.thrown)
  }

  /** `forEachRemaining` as written: after the loop, `lastRet` is set to the
      stop index itself, one past the last element handed out; the root's
      modification check comes after that. */
  function ForEachRemainingAsWritten<T>(v: Views<T>, k: int, it: SubItr): (r: Traversal<SubItr, Ref<T>>)
    requires WfViews(v) && 0 <= k < |v.chain| && SubWf(it)
    ensures SubWf(r.state) && r.state.offset == it.offset && r.state.expectedModCount == it.expectedModCount
    ensures r.accepted == DrainLoop(v, k, it).accepted
    ensures var s := v.chain[k].size;
            it.cursor < s && it.offset + s <= |v.root.elementData| && v.chain[k].modCount == it.expectedModCount ==>
              && r.accepted == v.root.elementData[it.offset + it.cursor..it.offset + s]
              && r.state == it.(cursor := s, lastRet := s)
              && (r.thrown.None? <==> v.root.modCount == it.expectedModCount)
              && (r.thrown.Some? ==> r.thrown == Some(ConcurrentModification))
    ensures Tracking(v, k, it) ==> r.thrown.None? && r.accepted == ViewElements(v, k)[it.cursor..]
    ensures Tracking(v, k, it) && it.cursor < v.chain[k].size ==>
              r.state == it.(cursor := v.chain[k].size, lastRet := v.chain[k].size)
  {
    var d := DrainLoop(v, k, it);
    match d.state
    case None =>
      assert Tracking(v, k, it) && it.cursor == v.chain[k].size ==> ViewElements(v, k)[it.cursor..] == [];
      Traversal(it, d.accepted, d.thrown)
    case Some(i) =>
      Traversal(it.(cursor := i, lastRet := i), d.accepted,
                if v.root.modCount != it.expectedModCount then Some(ConcurrentModification) else None)
  }

  /** `forEachRemaining` with `lastRet` set to the last element handed out,
      as the list's own iterator does. */
  function ForEachRemaining<T>(v: Views<T>, k: int, it: SubItr): (r: Traversal<SubItr, Ref<T>>)
    requires WfViews(v) && 0 <= k < |v.chain| && SubWf(it)
    ensures SubWf(r.state) && r.state.offset == it.offset && r.state.expectedModCount == it.expectedModCount
    ensures r.accepted == DrainLoop(v, k, it).accepted
    ensures var s := v.chain[k].size;
            it.cursor < s && it.offset + s <= |v.root.elementData| && v.chain[k].modCount == it.expectedModCount ==>
              && r.accepted == v.root.elementData[it.offset + it.cursor..it.offset + s]
              && r.state == it.(cursor := s, lastRet := s - 1)
              && (r.thrown.None? <==> v.root.modCount == it.expectedModCount)
              && (r.thrown.Some? ==> r.thrown == Some(ConcurrentModification))
    ensures Tracking(v, k, it) ==> Tracking(v, k, r.state)
    ensures Tracking(v, k, it) ==> r.thrown.None? && r.accepted == ViewElements(v, k)[it.cursor..]
    ensures Tracking(v, k, it) && it.cursor < v.chain[k].size ==>
              r.state == it.(cursor := v.chain[k].size, lastRet := v.chain[k].size - 1)
  {
    var d := DrainLoop(v, k, it);
    match d.state
    case None =>
      assert Tracking(v, k, it) && it.cursor == v.chain[k].size ==> ViewElements(v, k)[it.cursor..] == [];
      Traversal(it, d.accepted, d.thrown)
    case Some(i) =>
      Traversal(it.(cursor := i, lastRet := i - 1), d.accepted,
                if v.root.modCount != it.expectedModCount then Some(ConcurrentModification) else None)
  }

  /** `next` called until `hasNext` is false or it throws: the reference the
      bulk traversal is meant to agree with. */
  function NextLoop<T>(v: Views<T>, k: int, it: SubItr): (r: Traversal<SubItr, Ref<T>>)
    requires WfViews(v) && 0 <= k < |v.chain| && SubWf(it)
    decreases if it.cursor <= v.chain[k].size then v.chain[k].size - it.cursor else 0
  {
    if !SubHasNext(v, k, it) then Traversal(it, [], None)
    else
      var step := SubNext(v, k, it);
      if step.result.Err? then Traversal(step.state, [], Some(step.result.error))
      else if it.cursor >= v.chain[k].size then Traversal(step.state, [], Some(NoSuchElement))
      else
        var rest := NextLoop(v, k, step.state);
        Traversal(rest.state, [step.result.value] + rest.accepted, rest.thrown)
  }

  /** On a tracking iterator, the loop of `next` calls hands out the rest of
      the view and leaves the cursor at the end and `lastRet` on the last
      element. */
  lemma {:induction false} NextLoopYieldsRest<T>(v: Views<T>, k: int, it: SubItr)
    requires Tracking(v, k, it)
    ensures var r := NextLoop(v, k, it);
            && r.accepted == ViewElements(v, k)[it.cursor..] && r.thrown == None
            && (it.cursor < v.chain[k].size ==>
                  r.state == it.(cursor := v.chain[k].size, lastRet := v.chain[k].size - 1))
            && (it.cursor == v.chain[k].size ==> r.state == it)
    decreases v.chain[k].size - it.cursor
  {
    if it.cursor < v.chain[k].size {
      var step := SubNext(v, k, it);
      NextLoopYieldsRest(v, k, step.state);
      var e := ViewElements(v, k);
      assert e[it.cursor..] == [e[it.cursor]] + e[it.cursor + 1..];
    } else {
      assert ViewElements(v, k)[it.cursor..] == [];
    }
  }

  /** The corrected bulk traversal agrees with `next` called in a loop, state
      included. */
  lemma ForEachRemainingMatchesNext<T>(v: Views<T>, k: int, it: SubItr)
    requires Tracking(v, k, it)
    ensures ForEachRemaining(v, k, it) == NextLoop(v, k, it)
  {
    NextLoopYieldsRest(v, k, it);
  }

  /** As written, after a traversal that handed out anything, `set` writes
      the root element just PAST the view (when there is one), and the
      view itself is left unchanged. */
  lemma AsWrittenSetEscapesView<T>(v: Views<T>, k: int, it: SubItr, e: Ref<T>)
    requires Tracking(v, k, it) && it.cursor < v.chain[k].size
    requires v.chain[k].offset + v.chain[k].size < v.root.size
    ensures var after := ForEachRemainingAsWritten(v, k, it).state;
            var r := SubSetLast(v, k, after, e);
            && r.result.Ok?
            && Elements(r.state.root) == Elements(v.root)[v.chain[k].offset + v.chain[k].size := e]
            && Live(r.state, k) && ViewElements(r.state, k) == ViewElements(v, k)
  {
    var after := ForEachRemainingAsWritten(v, k, it).state;
    var r := SubSetLast(v, k, after, e);
    var o, s := v.chain[k].offset, v.chain[k].size;
    LiveInBounds(v, k);
    forall j | 0 <= j <= k
      ensures LiveLevel(r.state, j)
    {
      assert LiveLevel(v, j);
    }
    assert ViewElements(r.state, k) == Elements(r.state.root)[o..o + s];
  }

  /** As written, `remove` after a traversal that handed out anything finds
      `lastRet` outside the view and reports a concurrent modification. */
  lemma AsWrittenRemoveFails<T>(v: Views<T>, k: int, it: SubItr)
    requires Tracking(v, k, it) && it.cursor < v.chain[k].size
    ensures var after := ForEachRemainingAsWritten(v, k, it).state;
            SubRemove(v, k, after).result == Err(ConcurrentModification)
  {
  }

  /** With the correction, `set` after a traversal replaces the last element
      of the view, and `remove` removes it. */
  lemma CorrectedLastIsLastElement<T>(v: Views<T>, k: int, it: SubItr, e: Ref<T>)
    requires Tracking(v, k, it) && it.cursor < v.chain[k].size
    ensures var after := ForEachRemaining(v, k, it).state;
            var s := v.chain[k].size;
            && SubSetLast(v, k, after, e).result.Ok?
            && ViewElements(SubSetLast(v, k, after, e).state, k) == ViewElements(v, k)[s - 1 := e]
            && SubRemove(v, k, after).result.Ok?
            && ViewElements(SubRemove(v, k, after).state.views, k) == ViewElements(v, k)[..s - 1]
  {
    var s := v.chain[k].size;
    assert ViewElements(v, k)[..s - 1] + ViewElements(v, k)[s..] == ViewElements(v, k)[..s - 1];
  }

  /** The concrete case: in `[1, 2, 3]` with the view `subList(0, 2)`, a full
      traversal followed by `set(9)` changes the 3, outside the view; with the
      correction it changes the 2. */
  lemma ForEachThenSetExample()
    ensures var root := ArrayList([Obj(1), Obj(2), Obj(3)], 3, 0, false);
            var v := SubListOf(root, 0, 2).value;
            var it := ViewListIterator(v, 0, 0).value;
            && Elements(SubSetLast(v, 0, ForEachRemainingAsWritten(v, 0, it).state, Obj(9)).state.root)
               == [Obj(1), Obj(2), Obj(9)]
            && Elements(SubSetLast(v, 0, ForEachRemaining(v, 0, it).state, Obj(9)).state.root)
               == [Obj(1), Obj(9), Obj(3)]
  {
    var root := ArrayList([Obj(1), Obj(2), Obj(3)], 3, 0, false);
    var v := SubListOf(root, 0, 2).value;
    var it := ViewListIterator(v, 0, 0).value;
    assert Tracking(v, 0, it);
    AsWrittenSetEscapesView(v, 0, it, Obj(9));
    CorrectedLastIsLastElement(v, 0, it, Obj(9));
  }
}
