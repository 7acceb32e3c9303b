/** ArrayList's index-based, split-by-two spliterator. Its fence and expected
    modCount are bound lazily, on first use, to the list's size and modCount
    at that moment. The list is passed to each operation in its current state. */
module ArrayListSpliter {
  import opened JavaLang
  import opened ArrayListModel
  import opened ArraySubList
  import Int32

  /** `fence < 0` means "not yet bound". */
  datatype Spliter = Spliter(index: int, fence: int, expectedModCount: int)

  /** Both positions are Java `int`s. */
  predicate SpWf(s: Spliter) {
    Int32.InRange(s.index) && Int32.InRange(s.fence)
  }

  predicate Bound(s: Spliter) {
    0 <= s.fence
  }

  /** `spliterator()`: covers the whole list, late-binding. */
  function Spliterator<T>(l: ArrayList<T>): (r: Spliter)
    ensures SpWf(r) && !Bound(r) && r.index == 0
    ensures Valid(l) ==> GetFence(l, r) == (Spliter(0, l.size, l.modCount), l.size)
  {
    Spliter(0, -1, 0)
  }

  /** `getFence()`: binds an unbound spliterator to the list's current size
      and modCount, and returns the fence. */
  function GetFence<T>(l: ArrayList<T>, s: Spliter): (r: (Spliter, int))
    requires Valid(l) && SpWf(s)
    ensures SpWf(r.0) && Bound(r.0) && r.1 == r.0.fence && r.0.index == s.index
    ensures Bound(s) ==> r.0 == s
    ensures !Bound(s) ==> r.0.fence == l.size && r.0.expectedModCount == l.modCount
  {
    if s.fence < 0 then
      var b := s.(fence := l.size, expectedModCount := l.modCount);
      (b, b.fence)
    else (s, s.fence)
  }

  /** Binding happens once: a bound spliterator ignores later list states. */
  lemma GetFenceCommits<T>(l: ArrayList<T>, later: ArrayList<T>, s: Spliter)
    requires Valid(l) && Valid(later) && SpWf(s)
    ensures GetFence(later, GetFence(l, s).0) == GetFence(l, s)
  {
  }

  /** `trySplit()`: hands the lower half `[lo, mid)` to a new spliterator
      and keeps `[mid, hi)`; `null` when the range is too small to split. The
      midpoint is computed as `(lo + hi) >>> 1` on `int`s. */
  function TrySplit<T>(l: ArrayList<T>, s: Spliter): (r: (Spliter, Option<Spliter>))
    requires Valid(l) && SpWf(s)
    ensures SpWf(r.0) && Bound(r.0)
    ensures var b := GetFence(l, s).0;
            0 <= s.index ==>
              && (r.1.Some? <==> b.index + 2 <= b.fence)
              && (r.1.None? ==> r.0 == b)
              && (r.1.Some? ==>
                    var mid := (b.index + b.fence) / 2;
                    && b.index < mid < b.fence
                    && r.0 == b.(index := mid)
                    && r.1.value == Spliter(b.index, mid, b.expectedModCount)
                    && SpWf(r.1.value) && Bound(r.1.value))
  {
    var (b, hi) := GetFence(l, s);
    var lo := b.index;
    var mid := Int32.UnsignedShiftRight1(Int32.Wrap(lo + hi));
    MidpointOfIndexAndFence(lo, hi);
    if lo >= mid then (b, None)
    else (b.(index := mid), Some(Spliter(lo, mid, b.expectedModCount)))
  }

  lemma MidpointOfIndexAndFence(lo: int, hi: int)
    requires Int32.InRange(lo) && 0 <= hi <= Int32.MAX
    ensures 0 <= lo ==> Int32.UnsignedShiftRight1(Int32.Wrap(lo + hi)) == (lo + hi) / 2
  {
    if 0 <= lo {
      Int32.MidpointNoOverflow(lo, hi);
    }
  }

  /** `tryAdvance(action)`: hands out the element at `index`, if any, and
      moves past it; a read outside the buffer throws before the action runs,
      and the modification check comes after it. Java's `true` is one
      accepted element and no exception, its `false` none of either. */
  function TryAdvance<T>(l: ArrayList<T>, s: Spliter): (r: Traversal<Spliter, Ref<T>>)
    requires Valid(l) && SpWf(s)
    ensures SpWf(r.state) && Bound(r.state) && r.state.fence == GetFence(l, s).1
    ensures r.state.expectedModCount == GetFence(l, s).0.expectedModCount
    ensures |r.accepted| <= 1
    ensures r.accepted == [] && r.thrown.None? <==> GetFence(l, s).1 <= s.index
    ensures r.accepted == [] && r.thrown.None? ==> r.state == GetFence(l, s).0
    ensures s.index < GetFence(l, s).1 ==> r.state.index == s.index + 1
    ensures r.accepted == [] && r.thrown.Some? ==> r.thrown == Some(ArrayIndexOutOfBounds)
    ensures r.accepted != [] ==>
              && 0 <= s.index < |l.elementData|
              && r.accepted == [l.elementData[s.index]]
              && (r.thrown.None? <==> l.modCount == r.state.expectedModCount)
              && (r.thrown.Some? ==> r.thrown == Some(ConcurrentModification))
    ensures var b := GetFence(l, s).0;
            0 <= b.index < b.fence <= |l.elementData| ==> r.accepted == [l.elementData[b.index]]
  {
    var (b, hi) := GetFence(l, s);
    var i := b.index;
    if i < hi then
      var next := b.(index := i + 1);
      if i < 0 || i >= |l.elementData| then Traversal(next, [], Some(ArrayIndexOutOfBounds))
      else
        var thrown := if l.modCount != b.expectedModCount then Some(ConcurrentModification) else None;
        Traversal(next, [l.elementData[i]], thrown)
    else Traversal(b, [], None)
  }

  /** `forEachRemaining(action)`: reads the fence and modCount WITHOUT binding
      them, moves `index` to the fence, hands out the buffer's elements in
      between, and checks the modCount once at the end, so a modification
      is reported only after every element has been handed out. */
  function ForEachRemaining<T>(l: ArrayList<T>, s: Spliter): (r: Traversal<Spliter, Ref<T>>)
    requires Valid(l) && SpWf(s)
    ensures r.state.fence == s.fence && r.state.expectedModCount == s.expectedModCount
    ensures r.thrown.Some? ==> r.thrown == Some(ConcurrentModification)
    ensures s.index < 0 ==> r == Traversal(s, [], Some(ConcurrentModification))
    ensures 0 <= s.index ==> r.state.index == GetFence(l, s).1
    ensures r.thrown.None? <==>
              var b := GetFence(l, s).0;
              0 <= s.index && b.fence <= |l.elementData| && l.modCount == b.expectedModCount
    ensures var hi := GetFence(l, s).1;
            0 <= s.index && hi <= |l.elementData| ==>
              r.accepted == if s.index < hi then l.elementData[s.index..hi] else []
    ensures |l.elementData| < GetFence(l, s).1 ==> r.accepted == []
  {
    var (hi, mc) := if s.fence < 0 then (l.size, l.modCount) else (s.fence, s.expectedModCount);
    var i := s.index;
    if i >= 0 then
      var done := s.(index := hi);
      if hi <= |l.elementData| then
        var accepted := if i < hi then l.elementData[i..hi] else [];
        Traversal(done, accepted, if l.modCount == mc then None else Some(ConcurrentModification))
      else Traversal(done, [], Some(ConcurrentModification))
    else Traversal(s, [], Some(ConcurrentModification))
  }

  /** `estimateSize()`: binds, then the `int` difference of fence and index. */
  function EstimateSize<T>(l: ArrayList<T>, s: Spliter): (r: (Spliter, int))
    requires Valid(l) && SpWf(s)
    ensures r.0 == GetFence(l, s).0
    ensures 0 <= s.index <= r.0.fence ==> r.1 == r.0.fence - s.index
  {
    var (b, hi) := GetFence(l, s);
    (b, Int32.Wrap(hi - b.index))
  }

  /** `tryAdvance` called until it returns `false` or throws: the reference
      the bulk traversal is meant to agree with. */
  function AdvanceLoop<T>(l: ArrayList<T>, s: Spliter): (r: Traversal<Spliter, Ref<T>>)
    requires Valid(l) && SpWf(s) && Bound(s)
    decreases s.fence - s.index
  {
    var step := TryAdvance(l, s);
    if step.accepted == [] || step.thrown.Some? then step
    else
      var rest := AdvanceLoop(l, step.state);
      Traversal(rest.state, step.accepted + rest.accepted, rest.thrown)
  }

  /** On an unchanged list, advancing one by one hands out the same elements
      as the bulk traversal and leaves the index at the fence. */
  lemma {:induction false} AdvanceLoopMatchesForEach<T>(l: ArrayList<T>, s: Spliter)
    requires Valid(l) && SpWf(s) && Bound(s)
    requires 0 <= s.index <= s.fence <= |l.elementData| && l.modCount == s.expectedModCount
    ensures AdvanceLoop(l, s) == ForEachRemaining(l, s)
    ensures AdvanceLoop(l, s) == Traversal(s.(index := s.fence), l.elementData[s.index..s.fence], None)
    decreases s.fence - s.index
  {
    var a := l.elementData;
    if s.index < s.fence {
      var step := TryAdvance(l, s);
      assert step == Traversal(s.(index := s.index + 1), [a[s.index]], None);
      AdvanceLoopMatchesForEach(l, step.state);
      var rest := AdvanceLoop(l, step.state);
      assert rest == Traversal(s.(index := s.fence), a[s.index + 1..s.fence], None);
      assert AdvanceLoop(l, s) == Traversal(rest.state, [a[s.index]] + rest.accepted, rest.thrown);
      assert a[s.index..s.fence] == [a[s.index]] + a[s.index + 1..s.fence];
      assert ForEachRemaining(l, s) == Traversal(s.(index := s.fence), a[s.index..s.fence], None);
    } else {
      assert TryAdvance(l, s) == Traversal(s, [], None);
      assert ForEachRemaining(l, s) == Traversal(s, [], None);
    }
  }

  /** On a modified list the two traversals part ways: the advancing loop
      stops with the first element it hands out, the bulk traversal hands
      out the whole range before it throws. */
  lemma AdvanceLoopStopsAtFirstCheck<T>(l: ArrayList<T>, s: Spliter)
    requires Valid(l) && SpWf(s) && Bound(s)
    requires 0 <= s.index < s.fence <= |l.elementData| && l.modCount != s.expectedModCount
    ensures AdvanceLoop(l, s) == Traversal(s.(index := s.index + 1), [l.elementData[s.index]], Some(ConcurrentModification))
    ensures ForEachRemaining(l, s) == Traversal(s.(index := s.fence), l.elementData[s.index..s.fence], Some(ConcurrentModification))
  {
  }

  /** Splitting partitions the range: the two halves, traversed in order,
      hand out exactly what the unsplit spliterator would, and their size
      estimates add up. */
  lemma SplitPartitions<T>(l: ArrayList<T>, s: Spliter)
    requires Valid(l) && SpWf(s) && 0 <= s.index
    requires var b := GetFence(l, s).0;
             b.fence <= |l.elementData| && l.modCount == b.expectedModCount
    ensures var b := GetFence(l, s).0;
            var (suffix, prefix) := TrySplit(l, s);
            prefix.Some? ==>
              && ForEachRemaining(l, prefix.value).thrown.None?
              && ForEachRemaining(l, suffix).thrown.None?
              && ForEachRemaining(l, prefix.value).accepted + ForEachRemaining(l, suffix).accepted
                 == ForEachRemaining(l, b).accepted
              && EstimateSize(l, prefix.value).1 + EstimateSize(l, suffix).1 == EstimateSize(l, b).1
  {
    var b := GetFence(l, s).0;
    var (suffix, prefix) := TrySplit(l, s);
    if prefix.Some? {
      var a := l.elementData;
      var mid := (b.index + b.fence) / 2;
      assert a[b.index..mid] + a[mid..b.fence] == a[b.index..b.fence];
    }
  }

  /** A fresh spliterator traverses the whole list. */
  lemma WholeListTraversal<T>(l: ArrayList<T>)
    requires Valid(l)
    ensures ForEachRemaining(l, Spliterator(l)).accepted == Elements(l)
    ensures ForEachRemaining(l, Spliterator(l)).thrown == None
  {
  }

  /** Late binding: a spliterator created before an `add` but first used
      after it sees the added element; one bound before the `add` hands out
      the elements of its range and then throws. */
  lemma LateBindingExample()
    ensures var l := ArrayList([Obj(1), Obj(2), Null], 2, 0, false);
            var l' := Add(l, Obj(3)).state;
            && ForEachRemaining(l', Spliterator(l)).accepted == [Obj(1), Obj(2), Obj(3)]
            && ForEachRemaining(l', Spliterator(l)).thrown == None
            && ForEachRemaining(l', GetFence(l, Spliterator(l)).0).accepted == [Obj(1), Obj(2)]
            && ForEachRemaining(l', GetFence(l, Spliterator(l)).0).thrown == Some(ConcurrentModification)
  {
    var l := ArrayList([Obj(1), Obj(2), Null], 2, 0, false);
    var l' := Add(l, Obj(3)).state;
    assert Elements(l') == [Obj(1), Obj(2), Obj(3)];
  }

  /** `spliterator()` on view `k`: the view's modification check, then a
      spliterator bound at once to the view's range and modCount. */
  function ViewSpliterator<T>(v: Views<T>, k: int): (r: Result<Spliter>)
    requires WfViews(v) && 0 <= k < |v.chain|
    ensures r.Ok? <==> v.root.modCount == v.chain[k].modCount
    ensures r.Err? ==> r.error == ConcurrentModification
    ensures Live(v, k) ==>
              && r.Ok? && SpWf(r.value) && Bound(r.value)
              && ForEachRemaining(v.root, r.value).accepted == ViewElements(v, k)
              && ForEachRemaining(v.root, r.value).thrown == None
  {
    LiveInBoundsIf(v, k);
    if v.root.modCount != v.chain[k].modCount then Err(ConcurrentModification)
    else
      var s := Spliter(v.chain[k].offset, v.chain[k].offset + v.chain[k].size, v.chain[k].modCount);
      assert Live(v, k) ==> ViewElements(v, k) == v.root.elementData[s.index..s.fence];
      Ok(s)
  }
}
