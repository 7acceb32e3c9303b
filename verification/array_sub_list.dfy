/** ArrayList's `subList` views. A view stores its offset from its parent,
    its absolute offset into the root's buffer, its size and the root's
    modCount it last agreed with; every structural change through a view is
    forwarded to its parent and, level by level, to the root ArrayList.

    Nested views form a chain: `chain[0]` was taken from the root and
    `chain[k]` from `chain[k - 1]`. An operation on `chain[k]` updates
    `chain[0..k]` on the way back and leaves the deeper views stale. */
module ArraySubList {
  import opened JavaLang
  import opened ArrayListModel
  import Int32

  datatype SubList = SubList(parentOffset: int, offset: int, size: int, modCount: int)

  /** A root list and a chain of views, each nested in the previous one. */
  datatype Views<T> = Views(root: ArrayList<T>, chain: seq<SubList>)

  /** Absolute offset of the parent of `chain[k]`. */
  function BaseOffset(chain: seq<SubList>, k: int): int
    requires 0 <= k < |chain|
  {
    if k == 0 then 0 else chain[k - 1].offset
  }

  /** The shape each view keeps from construction on: its offset is its
      parent's plus its parentOffset, and neither is negative. */
  predicate WfLevel(chain: seq<SubList>, k: int)
    requires 0 <= k < |chain|
  {
    && 0 <= chain[k].parentOffset <= chain[k].offset
    && chain[k].offset == BaseOffset(chain, k) + chain[k].parentOffset
  }

  predicate WfChain(chain: seq<SubList>) {
    forall k :: 0 <= k < |chain| ==> WfLevel(chain, k)
  }

  predicate WfViews<T>(v: Views<T>) {
    Valid(v.root) && WfChain(v.chain)
  }

  /** The size of the parent of `chain[k]`. */
  function ParentSize<T>(v: Views<T>, k: int): int
    requires 0 <= k < |v.chain|
  {
    if k == 0 then v.root.size else v.chain[k - 1].size
  }

  /** `parent.modCount` for `chain[k]`. */
  function ParentModCount<T>(v: Views<T>, k: int): int
    requires 0 <= k < |v.chain|
  {
    if k == 0 then v.root.modCount else v.chain[k - 1].modCount
  }

  /** View `j` is in step with the root, has a size, and lies inside its
      parent. */
  predicate LiveLevel<T>(v: Views<T>, j: int)
    requires 0 <= j < |v.chain|
  {
    && v.chain[j].modCount == v.root.modCount
    && 0 <= v.chain[j].size
    && v.chain[j].parentOffset + v.chain[j].size <= ParentSize(v, j)
  }

  /** `chain[k]` and all its ancestors are live: the state in which a view is
      what it claims to be. */
  predicate Live<T>(v: Views<T>, k: int) {
    0 <= k < |v.chain| && forall j :: 0 <= j <= k ==> LiveLevel(v, j)
  }

  lemma WfAt(chain: seq<SubList>, k: int)
    requires WfChain(chain) && 0 <= k < |chain|
    ensures WfLevel(chain, k) && 0 <= chain[k].offset
  {
  }

  /** A live view lies inside the root list, and is no larger than any of its
      ancestors. */
  lemma {:induction false} LiveInBounds<T>(v: Views<T>, k: int)
    requires WfViews(v) && Live(v, k)
    ensures LiveLevel(v, k) && 0 <= v.chain[k].offset
    ensures v.chain[k].offset + v.chain[k].size <= v.root.size
    ensures forall j :: 0 <= j <= k ==> v.chain[k].size <= v.chain[j].size
    decreases k
  {
    WfAt(v.chain, k);
    assert LiveLevel(v, k);
    if k > 0 {
      assert Live(v, k - 1);
      LiveInBounds(v, k - 1);
    }
  }

  lemma LiveInBoundsIf<T>(v: Views<T>, k: int)
    requires WfViews(v) && 0 <= k < |v.chain|
    ensures 0 <= v.chain[k].offset
    ensures Live(v, k) ==> LiveLevel(v, k) && 0 <= v.chain[k].size
                           && v.chain[k].offset + v.chain[k].size <= v.root.size
  {
    WfAt(v.chain, k);
    if Live(v, k) {
      LiveInBounds(v, k);
    }
  }

  /** Offsets and parent offsets alone decide the shape. */
  lemma SameShape(a: seq<SubList>, b: seq<SubList>)
    requires WfChain(a) && |a| == |b|
    requires forall j :: 0 <= j < |a| ==> b[j].parentOffset == a[j].parentOffset && b[j].offset == a[j].offset
    ensures WfChain(b)
  {
    forall j | 0 <= j < |b|
      ensures WfLevel(b, j)
    {
      assert WfLevel(a, j);
    }
  }

  /** The elements view `k` stands for. */
  function ViewElements<T>(v: Views<T>, k: int): (r: seq<Ref<T>>)
    requires WfViews(v) && Live(v, k)
    ensures |r| == v.chain[k].size
  {
    LiveInBounds(v, k);
    Elements(v.root)[v.chain[k].offset..v.chain[k].offset + v.chain[k].size]
  }

  /** `subList(fromIndex, toIndex)` on the root, after `subListRangeCheck`.
      There is no modification check. */
  function SubListOf<T>(l: ArrayList<T>, fromIndex: int, toIndex: int): (r: Result<Views<T>>)
    requires Valid(l)
    ensures r.Ok? <==> 0 <= fromIndex <= toIndex <= l.size
    ensures fromIndex < 0 || toIndex > l.size ==> r == Err(IndexOutOfBounds)
    ensures 0 <= fromIndex && toIndex <= l.size && fromIndex > toIndex ==> r == Err(IllegalArgument)
    ensures r.Ok? ==> WfViews(r.value) && r.value.root == l && |r.value.chain| == 1 && Live(r.value, 0)
                      && ViewElements(r.value, 0) == Elements(l)[fromIndex..toIndex]
  {
    if fromIndex < 0 then Err(IndexOutOfBounds)
    else if toIndex > l.size then Err(IndexOutOfBounds)
    else if fromIndex > toIndex then Err(IllegalArgument)
    else Ok(Views(l, [SubList(fromIndex, fromIndex, toIndex - fromIndex, l.modCount)]))
  }

  /** `subList(fromIndex, toIndex)` on view `k`: range-checked against the
      view's recorded size, with no modification check; the new view takes
      the ROOT's current modCount, whether or not view `k` is stale. The
      result is the chain down to `k` with the new view appended. */
  function SubListOfView<T>(v: Views<T>, k: int, fromIndex: int, toIndex: int): (r: Result<Views<T>>)
    requires WfViews(v) && 0 <= k < |v.chain|
    ensures r.Ok? <==> 0 <= fromIndex <= toIndex <= v.chain[k].size
    ensures fromIndex < 0 || toIndex > v.chain[k].size ==> r == Err(IndexOutOfBounds)
    ensures 0 <= fromIndex && toIndex <= v.chain[k].size && fromIndex > toIndex ==> r == Err(IllegalArgument)
    ensures r.Ok? ==> WfViews(r.value) && r.value.root == v.root && |r.value.chain| == k + 2
                      && r.value.chain[..k + 1] == v.chain[..k + 1]
    ensures r.Ok? ==> r.value.chain[k + 1] == SubList(fromIndex, v.chain[k].offset + fromIndex,
                                                      toIndex - fromIndex, v.root.modCount)
  {
    var parent := v.chain[k];
    if fromIndex < 0 then Err(IndexOutOfBounds)
    else if toIndex > parent.size then Err(IndexOutOfBounds)
    else if fromIndex > toIndex then Err(IllegalArgument)
    else
      var child := SubList(fromIndex, parent.offset + fromIndex, toIndex - fromIndex, v.root.modCount);
      var r := Views(v.root, v.chain[..k + 1] + [child]);
      NestKeepsShape(v.chain, k, child);
      Ok(r)
  }

  lemma NestKeepsShape(chain: seq<SubList>, k: int, child: SubList)
    requires WfChain(chain) && 0 <= k < |chain|
    requires 0 <= child.parentOffset && child.offset == chain[k].offset + child.parentOffset
    ensures WfChain(chain[..k + 1] + [child])
  {
    var c := chain[..k + 1] + [child];
    forall j | 0 <= j < |c|
      ensures WfLevel(c, j)
    {
      if j <= k {
        assert WfLevel(chain, j);
        assert c[j] == chain[j];
      } else {
        WfAt(chain, k);
      }
    }
  }

  /** A view taken from a live view is live, and holds the requested part of
      its parent. */
  lemma SubListOfViewLive<T>(v: Views<T>, k: int, fromIndex: int, toIndex: int)
    requires WfViews(v) && Live(v, k) && 0 <= fromIndex <= toIndex <= v.chain[k].size
    ensures var r := SubListOfView(v, k, fromIndex, toIndex).value;
            Live(r, k + 1) && ViewElements(r, k + 1) == ViewElements(v, k)[fromIndex..toIndex]
  {
    var r := SubListOfView(v, k, fromIndex, toIndex).value;
    assert forall j :: 0 <= j <= k ==> r.chain[j] == v.chain[j];
    forall j | 0 <= j <= k + 1
      ensures LiveLevel(r, j)
    {
      if j <= k {
        assert LiveLevel(v, j);
      }
    }
    assert Live(r, k + 1);
    LiveInBounds(v, k);
    LiveInBounds(r, k + 1);
    var o := v.chain[k].offset;
    assert r.chain[k + 1].offset == o + fromIndex && r.chain[k + 1].size == toIndex - fromIndex;
    assert Elements(v.root)[o..o + v.chain[k].size][fromIndex..toIndex]
        == Elements(v.root)[o + fromIndex..o + toIndex];
  }

  /** `get(index)` on view `k`: range check against the view, modification
      check, then a read of the root's buffer at `offset + index`. */
  function ViewGet<T>(v: Views<T>, k: int, index: int): (r: Result<Ref<T>>)
    requires WfViews(v) && 0 <= k < |v.chain|
    ensures !(0 <= index < v.chain[k].size) ==> r == Err(IndexOutOfBounds)
    ensures 0 <= index < v.chain[k].size && v.root.modCount != v.chain[k].modCount ==> r == Err(ConcurrentModification)
    ensures Live(v, k) ==> (r.Ok? <==> 0 <= index < v.chain[k].size)
    ensures Live(v, k) && r.Ok? ==> r.value == ViewElements(v, k)[index]
                                    && Get(v.root, v.chain[k].offset + index) == r
  {
    LiveInBoundsIf(v, k);
    var s := v.chain[k];
    if index < 0 || index >= s.size then Err(IndexOutOfBounds)
    else if v.root.modCount != s.modCount then Err(ConcurrentModification)
    else if s.offset + index >= |v.root.elementData| then Err(ArrayIndexOutOfBounds)
    else Ok(v.root.elementData[s.offset + index])
  }

  /** `set(index, e)` on view `k`: writes the root's buffer directly; not
      structural, so no view goes stale. */
  function ViewSet<T>(v: Views<T>, k: int, index: int, e: Ref<T>): (r: Outcome<Views<T>, Ref<T>>)
    requires WfViews(v) && 0 <= k < |v.chain|
    ensures WfViews(r.state) && r.state.chain == v.chain && r.state.root.modCount == v.root.modCount
    ensures r.state.root.size == v.root.size
    ensures !(0 <= index < v.chain[k].size) ==> r == Outcome(v, Err(IndexOutOfBounds))
    ensures 0 <= index < v.chain[k].size && v.root.modCount != v.chain[k].modCount ==>
              r == Outcome(v, Err(ConcurrentModification))
    ensures r.result.Ok? ==>
              && 0 <= v.chain[k].offset + index < |v.root.elementData|
              && r.state.root == v.root.(elementData := v.root.elementData[v.chain[k].offset + index := e])
              && r.result.value == v.root.elementData[v.chain[k].offset + index]
  {
    LiveInBoundsIf(v, k);
    var s := v.chain[k];
    if index < 0 || index >= s.size then Outcome(v, Err(IndexOutOfBounds))
    else if v.root.modCount != s.modCount then Outcome(v, Err(ConcurrentModification))
    else if s.offset + index >= |v.root.elementData| then Outcome(v, Err(ArrayIndexOutOfBounds))
    else
      var previous := v.root.elementData[s.offset + index];
      Outcome(v.(root := v.root.(elementData := v.root.elementData[s.offset + index := e])), Ok(previous))
  }

  /** Through a live view, `set` replaces exactly the view's element, which is
      the root's element at the absolute index; the view stays live. */
  lemma ViewSetLive<T>(v: Views<T>, k: int, index: int, e: Ref<T>)
    requires WfViews(v) && Live(v, k)
    ensures var r := ViewSet(v, k, index, e);
            && (r.result.Ok? <==> 0 <= index < v.chain[k].size)
            && (r.result.Ok? ==>
                  && r.result.value == ViewElements(v, k)[index]
                  && Live(r.state, k)
                  && v.chain[k].offset + index < v.root.size
                  && Elements(r.state.root) == Elements(v.root)[v.chain[k].offset + index := e]
                  && ViewElements(r.state, k) == ViewElements(v, k)[index := e])
  {
    LiveInBounds(v, k);
    var r := ViewSet(v, k, index, e);
    if r.result.Ok? {
      forall j | 0 <= j <= k
        ensures LiveLevel(r.state, j)
      {
        assert LiveLevel(v, j);
      }
      assert Elements(r.state.root) == Elements(v.root)[v.chain[k].offset + index := e];
    }
  }

  /** `size()` on view `k`: the recorded size, after the modification check. */
  function ViewSize<T>(v: Views<T>, k: int): (r: Result<int>)
    requires WfViews(v) && 0 <= k < |v.chain|
    ensures r.Ok? <==> v.root.modCount == v.chain[k].modCount
    ensures r.Err? ==> r.error == ConcurrentModification
    ensures Live(v, k) ==> r == Ok(|ViewElements(v, k)|)
  {
    LiveInBoundsIf(v, k);
    if v.root.modCount != v.chain[k].modCount then Err(ConcurrentModification) else Ok(v.chain[k].size)
  }

  /** What an operation forwarded through view `k` leaves in the chain:
      views `0..k` resized by `delta` and re-synchronised with the root; the
      deeper ones untouched. */
  predicate Forwarded(before: seq<SubList>, after: seq<SubList>, k: int, delta: int, modCount: int)
    requires 0 <= k < |before|
  {
    && |after| == |before|
    && (forall j :: 0 <= j <= k ==> after[j] == before[j].(size := before[j].size + delta, modCount := modCount))
    && (forall j :: k < j < |before| ==> after[j] == before[j])
  }

  /** On the way back from the parent, each view on the path takes its
      parent's (by then the root's) modCount and adjusts its size. */
  function ResyncPath(chain: seq<SubList>, k: int, delta: int, modCount: int): (r: seq<SubList>)
    requires 0 <= k < |chain|
    ensures Forwarded(chain, r, k, delta, modCount)
    ensures forall j :: 0 <= j < |chain| ==> r[j].parentOffset == chain[j].parentOffset && r[j].offset == chain[j].offset
  {
    seq(|chain|, j requires 0 <= j < |chain| =>
      if j <= k then chain[j].(size := chain[j].size + delta, modCount := modCount) else chain[j])
  }

  /** The views once an operation forwarded through view `k` has succeeded
      at the root. */
  function Forward<T>(v: Views<T>, root: ArrayList<T>, k: int, delta: int): (r: Views<T>)
    requires WfViews(v) && Valid(root) && 0 <= k < |v.chain|
    ensures WfViews(r) && r.root == root && Forwarded(v.chain, r.chain, k, delta, root.modCount)
  {
    var chain := ResyncPath(v.chain, k, delta, root.modCount);
    SameShape(v.chain, chain);
    Views(root, chain)
  }

  /** The index with which an operation on view `k` reaches the root: each
      level forwards `parentOffset + index` to its parent. */
  function RootIndex(chain: seq<SubList>, k: int, index: int): int
    requires 0 <= k < |chain|
    decreases k
  {
    if k == 0 then chain[0].parentOffset + index
    else RootIndex(chain, k - 1, chain[k].parentOffset + index)
  }

  /** Forwarding level by level lands at the view's absolute offset. */
  lemma {:induction false} RootIndexIsOffset(chain: seq<SubList>, k: int, index: int)
    requires WfChain(chain) && 0 <= k < |chain|
    ensures RootIndex(chain, k, index) == chain[k].offset + index
    decreases k
  {
    assert WfLevel(chain, k);
    if k > 0 {
      RootIndexIsOffset(chain, k - 1, chain[k].parentOffset + index);
    }
  }

  /** `rangeCheck` (`insertion` false) or `rangeCheckForAdd` (true). */
  predicate IndexFits(s: SubList, index: int, insertion: bool) {
    0 <= index && (index < s.size || (insertion && index == s.size))
  }

  /** The checks an index-based operation on view `k` meets on its way to the
      root: at each level the range check, then the modification check, the
      index shifting by the level's parentOffset. The first failure is what
      the caller sees. */
  function PathCheck<T>(v: Views<T>, k: int, index: int, insertion: bool): (r: Option<Exception>)
    requires 0 <= k < |v.chain|
    ensures !IndexFits(v.chain[k], index, insertion) ==> r == Some(IndexOutOfBounds)
    ensures IndexFits(v.chain[k], index, insertion) && v.root.modCount != v.chain[k].modCount ==>
              r == Some(ConcurrentModification)
    ensures r.Some? ==> r.value == IndexOutOfBounds || r.value == ConcurrentModification
    ensures r.None? ==> IndexFits(v.chain[k], index, insertion)
                        && forall j :: 0 <= j <= k ==> v.chain[j].modCount == v.root.modCount
    decreases k
  {
    var s := v.chain[k];
    if !IndexFits(s, index, insertion) then Some(IndexOutOfBounds)
    else if v.root.modCount != s.modCount then Some(ConcurrentModification)
    else if k == 0 then None
    else PathCheck(v, k - 1, s.parentOffset + index, insertion)
  }

  /** Through a live view, the checks of the ancestors always pass: only the
      view's own range check can fail. */
  lemma {:induction false} PathCheckLive<T>(v: Views<T>, k: int, index: int, insertion: bool)
    requires WfViews(v) && Live(v, k)
    ensures PathCheck(v, k, index, insertion).None? <==> IndexFits(v.chain[k], index, insertion)
    decreases k
  {
    assert LiveLevel(v, k);
    WfAt(v.chain, k);
    if k > 0 && IndexFits(v.chain[k], index, insertion) {
      assert v.chain[k].parentOffset + v.chain[k].size <= v.chain[k - 1].size;
      assert IndexFits(v.chain[k - 1], v.chain[k].parentOffset + index, insertion);
      assert Live(v, k - 1);
      PathCheckLive(v, k - 1, v.chain[k].parentOffset + index, insertion);
    }
  }

  /** Some view on the path from `k` to the root has missed a modification. */
  predicate PathStale<T>(v: Views<T>, k: int)
    requires 0 <= k < |v.chain|
  {
    exists j :: 0 <= j <= k && v.chain[j].modCount != v.root.modCount
  }

  /** `add(index, e)` on view `k`: the checks on the path, then the root's
      `add` at the forwarded index; each view on the path then grows by one. */
  function ViewAddAt<T>(v: Views<T>, k: int, index: int, e: Ref<T>): (r: Outcome<Views<T>, ()>)
    requires WfViews(v) && 0 <= k < |v.chain|
    ensures WfViews(r.state)
    ensures !(0 <= index <= v.chain[k].size) ==> r == Outcome(v, Err(IndexOutOfBounds))
    ensures 0 <= index <= v.chain[k].size && v.root.modCount != v.chain[k].modCount ==>
              r == Outcome(v, Err(ConcurrentModification))
    ensures r.result.Ok? ==>
              && 0 <= v.chain[k].offset + index <= v.root.size
              && Elements(r.state.root) == Elements(v.root)[..v.chain[k].offset + index] + [e]
                                           + Elements(v.root)[v.chain[k].offset + index..]
              && r.state.root.modCount == v.root.modCount + 1
              && Forwarded(v.chain, r.state.chain, k, 1, r.state.root.modCount)
    ensures r.result.Err? ==> Elements(r.state.root) == Elements(v.root) && r.state.chain == v.chain
  {
    match PathCheck(v, k, index, true)
    case Some(x) => Outcome(v, Err(x))
    case None =>
      RootIndexIsOffset(v.chain, k, index);
      var o := AddAt(v.root, RootIndex(v.chain, k, index), e);
      if o.result.Err? then Outcome(v.(root := o.state), o.result)
      else Outcome(Forward(v, o.state, k, 1), Ok(()))
  }

  /** `remove(index)` on view `k`: the checks on the path, then the root's
      `remove` at the forwarded index; each view on the path shrinks by one. */
  function ViewRemoveAt<T>(v: Views<T>, k: int, index: int): (r: Outcome<Views<T>, Ref<T>>)
    requires WfViews(v) && 0 <= k < |v.chain|
    ensures WfViews(r.state)
    ensures !(0 <= index < v.chain[k].size) ==> r == Outcome(v, Err(IndexOutOfBounds))
    ensures 0 <= index < v.chain[k].size && v.root.modCount != v.chain[k].modCount ==>
              r == Outcome(v, Err(ConcurrentModification))
    ensures r.result.Ok? ==>
              && 0 <= v.chain[k].offset + index < v.root.size
              && r.result.value == Elements(v.root)[v.chain[k].offset + index]
              && Elements(r.state.root) == Elements(v.root)[..v.chain[k].offset + index]
                                           + Elements(v.root)[v.chain[k].offset + index + 1..]
              && r.state.root.modCount == v.root.modCount + 1
              && Forwarded(v.chain, r.state.chain, k, -1, r.state.root.modCount)
    ensures r.result.Err? ==> Elements(r.state.root) == Elements(v.root) && r.state.chain == v.chain
  {
    match PathCheck(v, k, index, false)
    case Some(x) => Outcome(v, Err(x))
    case None =>
      RootIndexIsOffset(v.chain, k, index);
      var o := RemoveAt(v.root, RootIndex(v.chain, k, index));
      if o.result.Err? then Outcome(v.(root := o.state), o.result)
      else Outcome(Forward(v, o.state, k, -1), o.result)
  }

  /** `removeRange(fromIndex, toIndex)` on view `k` (reached through
      `clear()`): a modification check at each level and no range check, then
      the root's removeRange at the forwarded range. */
  function ViewRemoveRange<T>(v: Views<T>, k: int, fromIndex: int, toIndex: int): (r: Outcome<Views<T>, ()>)
    requires WfViews(v) && 0 <= k < |v.chain|
    ensures WfViews(r.state) && |r.state.chain| == |v.chain|
    ensures PathStale(v, k) <==> r == Outcome(v, Err(ConcurrentModification))
    ensures r.result.Ok? ==>
              && r.state.root.size == v.root.size - (toIndex - fromIndex)
              && r.state.root.modCount == v.root.modCount + 1
              && Forwarded(v.chain, r.state.chain, k, -(toIndex - fromIndex), r.state.root.modCount)
    ensures r.result.Ok? && fromIndex <= toIndex ==>
              && 0 <= v.chain[k].offset + fromIndex && v.chain[k].offset + toIndex <= v.root.size
              && Elements(r.state.root) == Elements(v.root)[..v.chain[k].offset + fromIndex]
                                           + Elements(v.root)[v.chain[k].offset + toIndex..]
    ensures r.result.Err? ==> r.state.chain == v.chain
    ensures r.result.Err? && fromIndex <= toIndex ==> Elements(r.state.root) == Elements(v.root)
  {
    if PathStale(v, k) then Outcome(v, Err(ConcurrentModification))
    else
      RootIndexIsOffset(v.chain, k, fromIndex);
      RootIndexIsOffset(v.chain, k, toIndex);
      var o := RemoveRange(v.root, RootIndex(v.chain, k, fromIndex), RootIndex(v.chain, k, toIndex));
      if o.result.Err? then Outcome(v.(root := o.state), o.result)
      else Outcome(Forward(v, o.state, k, -(toIndex - fromIndex)), Ok(()))
  }

  /** `addAll(index, c)` on view `k`: range check; an empty `c` returns
      false at once, without a modification check; otherwise the checks on
      the path and the root's addAll at the forwarded index. */
  function ViewAddAll<T>(v: Views<T>, k: int, index: int, c: seq<Ref<T>>): (r: Outcome<Views<T>, bool>)
    requires WfViews(v) && 0 <= k < |v.chain| && |c| <= Int32.MAX
    ensures WfViews(r.state)
    ensures !(0 <= index <= v.chain[k].size) ==> r == Outcome(v, Err(IndexOutOfBounds))
    ensures 0 <= index <= v.chain[k].size && |c| == 0 ==> r == Outcome(v, Ok(false))
    ensures 0 <= index <= v.chain[k].size && |c| != 0 && v.root.modCount != v.chain[k].modCount ==>
              r == Outcome(v, Err(ConcurrentModification))
    ensures r.result.Ok? && |c| != 0 ==>
              && r.result.value
              && 0 <= v.chain[k].offset + index <= v.root.size
              && Elements(r.state.root) == Elements(v.root)[..v.chain[k].offset + index] + c
                                           + Elements(v.root)[v.chain[k].offset + index..]
              && r.state.root.modCount == v.root.modCount + 1
              && Forwarded(v.chain, r.state.chain, k, |c|, r.state.root.modCount)
    ensures r.result.Err? ==> Elements(r.state.root) == Elements(v.root) && r.state.chain == v.chain
  {
    if index < 0 || index > v.chain[k].size then Outcome(v, Err(IndexOutOfBounds))
    else if |c| == 0 then Outcome(v, Ok(false))
    else
      match PathCheck(v, k, index, true)
      case Some(x) => Outcome(v, Err(x))
      case None =>
        RootIndexIsOffset(v.chain, k, index);
        var o := AddAllAt(v.root, RootIndex(v.chain, k, index), c);
        if o.result.Err? then Outcome(v.(root := o.state), Err(o.result.error))
        else Outcome(Forward(v, o.state, k, |c|), Ok(true))
  }

  /** `addAll(c)` on view `k`: `addAll(size, c)`, appending at the view's end. */
  function ViewAppendAll<T>(v: Views<T>, k: int, c: seq<Ref<T>>): (r: Outcome<Views<T>, bool>)
    requires WfViews(v) && 0 <= k < |v.chain| && |c| <= Int32.MAX
    ensures WfViews(r.state)
    ensures r.result.Ok? && |c| != 0 ==>
              && 0 <= v.chain[k].offset + v.chain[k].size <= v.root.size
              && Elements(r.state.root) == Elements(v.root)[..v.chain[k].offset + v.chain[k].size] + c
                                           + Elements(v.root)[v.chain[k].offset + v.chain[k].size..]
  {
    ViewAddAll(v, k, v.chain[k].size, c)
  }

  /** `clear()` on view `k` (inherited from AbstractList):
      `removeRange(0, size())`, so the modification check of `size()` comes
      first. */
  function ViewClear<T>(v: Views<T>, k: int): (r: Outcome<Views<T>, ()>)
    requires WfViews(v) && 0 <= k < |v.chain|
    ensures WfViews(r.state) && |r.state.chain| == |v.chain|
    ensures v.root.modCount != v.chain[k].modCount ==> r == Outcome(v, Err(ConcurrentModification))
    ensures r.result.Ok? && 0 <= v.chain[k].size ==>
              && 0 <= v.chain[k].offset && v.chain[k].offset + v.chain[k].size <= v.root.size
              && Elements(r.state.root) == Elements(v.root)[..v.chain[k].offset]
                                           + Elements(v.root)[v.chain[k].offset + v.chain[k].size..]
              && r.state.chain[k].size == 0
  {
    match ViewSize(v, k)
    case Err(e) => Outcome(v, Err(e))
    case Ok(size) => ViewRemoveRange(v, k, 0, size)
  }

  // ---------------------------------------------------------------- live views

  /** An operation forwarded through a live view leaves it live when the root
      changed size by the same amount as each view on the path. */
  lemma ForwardKeepsLive<T>(v: Views<T>, w: Views<T>, k: int, delta: int)
    requires WfViews(v) && Live(v, k) && WfViews(w)
    requires Forwarded(v.chain, w.chain, k, delta, w.root.modCount)
    requires w.root.size == v.root.size + delta && 0 <= v.chain[k].size + delta
    ensures Live(w, k) && w.chain[k].offset == v.chain[k].offset
  {
    LiveInBounds(v, k);
    forall j | 0 <= j <= k
      ensures LiveLevel(w, j)
    {
      assert LiveLevel(v, j);
    }
  }

  /** Replacing `removed` root elements at absolute index `at` by `inserted`
      does the same to a live view containing that range, at the view's own
      index. */
  lemma SpliceView<T>(v: Views<T>, w: Views<T>, k: int, at: int, removed: nat, inserted: seq<Ref<T>>)
    requires WfViews(v) && Live(v, k) && WfViews(w) && Live(w, k)
    requires w.chain[k].offset == v.chain[k].offset
    requires w.chain[k].size == v.chain[k].size - removed + |inserted|
    requires 0 <= v.chain[k].offset <= at && at + removed <= v.chain[k].offset + v.chain[k].size
    requires at + removed <= v.root.size
    requires Elements(w.root) == Elements(v.root)[..at] + inserted + Elements(v.root)[at + removed..]
    ensures var i := at - v.chain[k].offset;
            ViewElements(w, k) == ViewElements(v, k)[..i] + inserted + ViewElements(v, k)[i + removed..]
  {
    LiveInBounds(v, k);
    LiveInBounds(w, k);
    var o := v.chain[k].offset;
    var i := at - o;
    var a := ViewElements(v, k);
    var b := ViewElements(w, k);
    var before := Elements(v.root);
    var after := Elements(w.root);
    forall m | 0 <= m < |b|
      ensures b[m] == (a[..i] + inserted + a[i + removed..])[m]
    {
      assert b[m] == after[o + m];
      if m < i {
        assert after[o + m] == before[o + m];
      } else if m < i + |inserted| {
        assert after[o + m] == inserted[m - i];
      } else {
        assert after[o + m] == before[o + m - |inserted| + removed];
      }
    }
  }

  /** An operation forwarded through live view `k` that replaced `removed`
      elements at the view's `index` by `inserted` at the root leaves the view
      live, holding the same replacement. */
  lemma SpliceForwarded<T>(v: Views<T>, w: Views<T>, k: int, index: int, removed: nat, inserted: seq<Ref<T>>, delta: int)
    requires WfViews(v) && Live(v, k) && WfViews(w) && delta == |inserted| - removed
    requires 0 <= index && index + removed <= v.chain[k].size
    requires 0 <= v.chain[k].offset + index && v.chain[k].offset + index + removed <= v.root.size
    requires Elements(w.root) == Elements(v.root)[..v.chain[k].offset + index] + inserted
                                 + Elements(v.root)[v.chain[k].offset + index + removed..]
    requires Forwarded(v.chain, w.chain, k, delta, w.root.modCount)
    ensures Live(w, k)
    ensures ViewElements(w, k) == ViewElements(v, k)[..index] + inserted + ViewElements(v, k)[index + removed..]
  {
    LiveInBounds(v, k);
    assert w.root.size == v.root.size + delta by {
      assert |Elements(w.root)| == w.root.size;
    }
    ForwardKeepsLive(v, w, k, delta);
    SpliceView(v, w, k, v.chain[k].offset + index, removed, inserted);
  }

  /** `add(index, e)` through a live view: only the view's own range check
      or the root's capacity can refuse it, and the view then holds `e` at
      `index`. */
  lemma ViewAddAtLive<T>(v: Views<T>, k: int, index: int, e: Ref<T>)
    requires WfViews(v) && Live(v, k)
    ensures var r := ViewAddAt(v, k, index, e);
            && (r.result.Ok? <==> 0 <= index <= v.chain[k].size && v.root.size < Int32.MAX)
            && (r.result.Ok? ==>
                  Live(r.state, k)
                  && ViewElements(r.state, k) == ViewElements(v, k)[..index] + [e] + ViewElements(v, k)[index..])
  {
    ViewAddAtPasses(v, k, index, e);
    if ViewAddAt(v, k, index, e).result.Ok? {
      ViewAddAtSplices(v, k, index, e);
    }
  }

  lemma ViewAddAtPasses<T>(v: Views<T>, k: int, index: int, e: Ref<T>)
    requires WfViews(v) && Live(v, k)
    ensures ViewAddAt(v, k, index, e).result.Ok? <==> 0 <= index <= v.chain[k].size && v.root.size < Int32.MAX
  {
    LiveInBounds(v, k);
    PathCheckLive(v, k, index, true);
    RootIndexIsOffset(v.chain, k, index);
  }

  lemma ViewAddAtSplices<T>(v: Views<T>, k: int, index: int, e: Ref<T>)
    requires WfViews(v) && Live(v, k) && ViewAddAt(v, k, index, e).result.Ok?
    ensures var w := ViewAddAt(v, k, index, e).state;
            Live(w, k) && ViewElements(w, k) == ViewElements(v, k)[..index] + [e] + ViewElements(v, k)[index..]
  {
    var w := ViewAddAt(v, k, index, e).state;
    var at := v.chain[k].offset + index;
    assert Elements(w.root) == Elements(v.root)[..at] + [e] + Elements(v.root)[at + 0..];
    SpliceForwarded(v, w, k, index, 0, [e], 1);
  }

  /** `remove(index)` through a live view removes and returns the view's
      element at `index`. */
  lemma ViewRemoveAtLive<T>(v: Views<T>, k: int, index: int)
    requires WfViews(v) && Live(v, k)
    ensures var r := ViewRemoveAt(v, k, index);
            && (r.result.Ok? <==> 0 <= index < v.chain[k].size)
            && (r.result.Ok? ==>
                  && r.result.value == ViewElements(v, k)[index]
                  && Live(r.state, k)
                  && ViewElements(r.state, k) == ViewElements(v, k)[..index] + ViewElements(v, k)[index + 1..])
  {
    ViewRemoveAtPasses(v, k, index);
    if ViewRemoveAt(v, k, index).result.Ok? {
      ViewRemoveAtSplices(v, k, index);
    }
  }

  lemma ViewRemoveAtPasses<T>(v: Views<T>, k: int, index: int)
    requires WfViews(v) && Live(v, k)
    ensures ViewRemoveAt(v, k, index).result.Ok? <==> 0 <= index < v.chain[k].size
    ensures ViewRemoveAt(v, k, index).result.Ok? ==> ViewRemoveAt(v, k, index).result.value == ViewElements(v, k)[index]
  {
    LiveInBounds(v, k);
    PathCheckLive(v, k, index, false);
    RootIndexIsOffset(v.chain, k, index);
  }

  lemma ViewRemoveAtSplices<T>(v: Views<T>, k: int, index: int)
    requires WfViews(v) && Live(v, k) && ViewRemoveAt(v, k, index).result.Ok?
    ensures var w := ViewRemoveAt(v, k, index).state;
            Live(w, k) && ViewElements(w, k) == ViewElements(v, k)[..index] + ViewElements(v, k)[index + 1..]
  {
    var w := ViewRemoveAt(v, k, index).state;
    var at := v.chain[k].offset + index;
    assert Elements(w.root) == Elements(v.root)[..at] + [] + Elements(v.root)[at + 1..] by {
      assert Elements(v.root)[..at] + [] == Elements(v.root)[..at];
    }
    SpliceForwarded(v, w, k, index, 1, [], -1);
    assert ViewElements(v, k)[..index] + [] == ViewElements(v, k)[..index];
  }

  /** `addAll(index, c)` through a live view inserts `c` at `index`. */
  lemma ViewAddAllLive<T>(v: Views<T>, k: int, index: int, c: seq<Ref<T>>)
    requires WfViews(v) && Live(v, k) && |c| <= Int32.MAX
    ensures var r := ViewAddAll(v, k, index, c);
            && (r.result.Ok? <==> 0 <= index <= v.chain[k].size && (|c| == 0 || v.root.size + |c| <= Int32.MAX))
            && (r.result.Ok? ==> r.result.value == (|c| != 0))
            && (r.result.Ok? && |c| != 0 ==>
                  Live(r.state, k)
                  && ViewElements(r.state, k) == ViewElements(v, k)[..index] + c + ViewElements(v, k)[index..])
  {
    ViewAddAllPasses(v, k, index, c);
    if ViewAddAll(v, k, index, c).result.Ok? && |c| != 0 {
      ViewAddAllSplices(v, k, index, c);
    }
  }

  lemma ViewAddAllPasses<T>(v: Views<T>, k: int, index: int, c: seq<Ref<T>>)
    requires WfViews(v) && Live(v, k) && |c| <= Int32.MAX
    ensures var r := ViewAddAll(v, k, index, c);
            && (r.result.Ok? <==> 0 <= index <= v.chain[k].size && (|c| == 0 || v.root.size + |c| <= Int32.MAX))
            && (r.result.Ok? ==> r.result.value == (|c| != 0))
  {
    LiveInBounds(v, k);
    PathCheckLive(v, k, index, true);
    RootIndexIsOffset(v.chain, k, index);
  }

  lemma ViewAddAllSplices<T>(v: Views<T>, k: int, index: int, c: seq<Ref<T>>)
    requires WfViews(v) && Live(v, k) && |c| <= Int32.MAX
    requires ViewAddAll(v, k, index, c).result.Ok? && |c| != 0
    ensures var w := ViewAddAll(v, k, index, c).state;
            Live(w, k) && ViewElements(w, k) == ViewElements(v, k)[..index] + c + ViewElements(v, k)[index..]
  {
    SpliceForwarded(v, ViewAddAll(v, k, index, c).state, k, index, 0, c, |c|);
  }

  /** `clear()` through a live view empties the view and removes exactly its
      elements from the root. */
  lemma ViewClearLive<T>(v: Views<T>, k: int)
    requires WfViews(v) && Live(v, k)
    ensures var r := ViewClear(v, k);
            && r.result.Ok?
            && Live(r.state, k) && ViewElements(r.state, k) == []
            && Elements(r.state.root) == Elements(v.root)[..v.chain[k].offset]
                                         + Elements(v.root)[v.chain[k].offset + v.chain[k].size..]
  {
    var n := v.chain[k].size;
    var r := ViewClear(v, k);
    ViewClearRemovesAll(v, k);
    assert Live(r.state, k) by {
      ForwardKeepsLive(v, r.state, k, -n);
    }
  }

  lemma ViewClearRemovesAll<T>(v: Views<T>, k: int)
    requires WfViews(v) && Live(v, k)
    ensures ViewClear(v, k) == ViewRemoveRange(v, k, 0, v.chain[k].size)
    ensures ViewClear(v, k).result.Ok?
  {
    LiveInBounds(v, k);
    LiveNotStale(v, k);
    RootIndexIsOffset(v.chain, k, 0);
    RootIndexIsOffset(v.chain, k, v.chain[k].size);
  }

  /** Every view on the path of a live view passes its modification check. */
  lemma LiveNotStale<T>(v: Views<T>, k: int)
    requires WfViews(v) && Live(v, k)
    ensures !PathStale(v, k)
  {
    forall j | 0 <= j <= k
      ensures v.chain[j].modCount == v.root.modCount
    {
      assert LiveLevel(v, j);
    }
  }

  /** A view taken from a STALE view passes its own modification check, so
      it reads through its parent's out-of-date offset: after the root's
      first element is removed, the nested view's first element is the
      root's third original element, where its parent throws. */
  lemma NestedViewOfStaleParent()
    ensures var root := ArrayList([Obj(1), Obj(2), Obj(3), Obj(4)], 4, 0, false);
            var view := SubListOf(root, 1, 3).value;
            var shrunk := RemoveAt(root, 0).state;
            var stale := Views(shrunk, view.chain);
            && ViewElements(view, 0) == [Obj(2), Obj(3)]
            && ViewGet(stale, 0, 0) == Err(ConcurrentModification)
            && SubListOfView(stale, 0, 0, 2).Ok?
            && ViewGet(SubListOfView(stale, 0, 0, 2).value, 1, 0) == Ok(Obj(3))
  {
    var root := ArrayList([Obj(1), Obj(2), Obj(3), Obj(4)], 4, 0, false);
    var shrunk := RemoveAt(root, 0).state;
    assert Elements(shrunk) == [Obj(2), Obj(3), Obj(4)];
    assert shrunk.elementData[1] == Obj(3);
  }
}
