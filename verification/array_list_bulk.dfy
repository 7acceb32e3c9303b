/** ArrayList's bulk removals (`batchRemove` behind `removeAll`/`retainAll`,
    and `removeIf`) and `replaceAll`. Callbacks are pure functions; the one
    failure modelled is a `contains` oracle that throws part-way. */
module ArrayListBulk {
  import opened JavaLang
  import opened Seqs
  import opened ArrayListModel

  /** Index of the first element on which `contains` throws, or `|s|`. */
  function FirstFailure<T>(s: seq<Ref<T>>, contains: Ref<T> -> Result<bool>): (r: nat)
    ensures r <= |s|
    ensures forall k :: 0 <= k < r ==> contains(s[k]).Ok?
    ensures r < |s| ==> contains(s[r]).Err?
  {
    if |s| == 0 then 0
    else if contains(s[0]).Err? then 0
    else 1 + FirstFailure(s[1..], contains)
  }

  /** The pass of `batchRemove`'s `try` block: `contains` is asked about element `read`, which is,
      when kept, copied down to slot `w`. It stops at the end of the list or
      at the first element on which `contains` throws. */
  method CompactKept<T>(l: ArrayList<T>, contains: Ref<T> -> Result<bool>, complement: bool)
    returns (a: seq<Ref<T>>, read: int, w: int)
    requires Valid(l)
    ensures 0 <= w <= read <= l.size && |a| == |l.elementData|
    ensures read == FirstFailure(Elements(l), contains)
    ensures a[..w] == Filter(Elements(l)[..read], contains, Ok(complement))
    ensures a[read..] == l.elementData[read..]
  {
    a := l.elementData;
    read, w := 0, 0;
    var failed := false;
    while read < l.size && !failed
      invariant 0 <= w <= read <= l.size && |a| == |l.elementData|
      invariant a[..w] == Filter(l.elementData[..read], contains, Ok(complement))
      invariant a[read..] == l.elementData[read..]
      invariant forall k :: 0 <= k < read ==> contains(l.elementData[k]).Ok?
      invariant failed ==> read < l.size && contains(l.elementData[read]).Err?
      decreases l.size - read, if failed then 0 else 1
    {
      var answer := contains(a[read]);
      if answer.Err? {
        failed := true;
      } else {
        CompactStep(l.elementData, a, contains, complement, read, w);
        if answer.value == complement {
          a := a[w := a[read]];
          w := w + 1;
        }
        read := read + 1;
      }
    }
    FailureIndex(l, contains, read);
  }

  /** One step of the compaction: a kept element moves down to slot `w`, and
      the unread tail stays in place. */
  lemma CompactStep<T>(es: seq<Ref<T>>, a: seq<Ref<T>>, contains: Ref<T> -> Result<bool>, complement: bool,
                       read: nat, w: nat)
    requires |a| == |es| && w <= read < |es|
    requires a[..w] == Filter(es[..read], contains, Ok(complement))
    requires a[read..] == es[read..]
    ensures a[read] == es[read]
    ensures contains(es[read]) == Ok(complement) ==>
              a[w := a[read]][..w + 1] == Filter(es[..read + 1], contains, Ok(complement))
              && a[w := a[read]][read + 1..] == es[read + 1..]
    ensures contains(es[read]) != Ok(complement) ==>
              a[..w] == Filter(es[..read + 1], contains, Ok(complement)) && a[read + 1..] == es[read + 1..]
  {
    assert a[read] == a[read..][0] == es[read..][0] == es[read];
    FilterPrefixStep(es, read, contains, Ok(complement));
    assert a[read + 1..] == a[read..][1..];
    assert es[read + 1..] == es[read..][1..];
    var a' := a[w := a[read]];
    assert a'[..w + 1] == a[..w] + [es[read]];
    assert a'[read + 1..] == a[read + 1..];
  }

  lemma FailureIndex<T>(l: ArrayList<T>, contains: Ref<T> -> Result<bool>, read: int)
    requires Valid(l) && 0 <= read <= l.size
    requires forall k :: 0 <= k < read ==> contains(l.elementData[k]).Ok?
    requires read < l.size ==> contains(l.elementData[read]).Err?
    ensures FirstFailure(Elements(l), contains) == read
    ensures Elements(l)[..read] == l.elementData[..read]
  {
    assert forall k :: 0 <= k < l.size ==> Elements(l)[k] == l.elementData[k];
  }

  /** `batchRemove(c, complement)`: a compaction with a read and a write index, keeping the
      elements `x` with `c.contains(x) == complement`. If `contains` throws at
      index `f`, the `finally` block keeps the undecided tail `[f, size)`
      after the already kept prefix, and the exception is re-raised. */
  method BatchRemove<T>(l: ArrayList<T>, contains: Ref<T> -> Result<bool>, complement: bool)
    returns (r: Outcome<ArrayList<T>, bool>)
    requires Valid(l)
    ensures Valid(r.state) && |r.state.elementData| == |l.elementData|
    ensures var f := FirstFailure(Elements(l), contains);
            Elements(r.state) == Filter(Elements(l)[..f], contains, Ok(complement)) + Elements(l)[f..]
    ensures r.state.modCount == l.modCount + (l.size - r.state.size)
    ensures forall k :: r.state.size <= k < l.size ==> r.state.elementData[k] == Null
    ensures r.result.Ok? <==> FirstFailure(Elements(l), contains) == l.size
    ensures r.result.Ok? ==> r.result.value == (r.state.size < l.size)
    ensures r.result.Err? ==> r.result.error == CallbackFailure
  {
    var a, read, w := CompactKept(l, contains, complement);
    a, w := KeepTail(l, a, read, w);
    var size := l.size;
    var modCount := l.modCount;
    var modified := false;
    if w != size {
      a := ClearSlots(a, w, size);
      modCount := modCount + (size - w);
      size := w;
      modified := true;
    }
    var state := l.(elementData := a, size := size, modCount := modCount);
    r := Outcome(state, if read != l.size then Err(CallbackFailure) else Ok(modified));
  }

  /** The `finally` block of `batchRemove`: when the pass stopped early at
      `read`, the undecided tail is moved down behind the kept prefix. */
  method KeepTail<T>(l: ArrayList<T>, a: seq<Ref<T>>, read: int, w: int) returns (a': seq<Ref<T>>, w': int)
    requires Valid(l) && 0 <= w <= read <= l.size && |a| == |l.elementData|
    requires a[read..] == l.elementData[read..]
    ensures |a'| == |a| && w' == w + (l.size - read)
    ensures a'[..w'] == a[..w] + Elements(l)[read..]
  {
    a', w' := a, w;
    if read != l.size {
      a' := ArrayCopy(a, read, a, w, l.size - read).value;
      w' := w + (l.size - read);
      assert forall k :: w <= k < w' ==> a'[k] == l.elementData[read + (k - w)] by {
        forall k | w <= k < w'
          ensures a'[k] == l.elementData[read + (k - w)]
        {
          assert a[read + (k - w)] == a[read..][k - w];
        }
      }
    }
  }

  /** `removeAll(c)`: drops every element `c` contains. */
  method RemoveAll<T>(l: ArrayList<T>, contains: Ref<T> -> Result<bool>) returns (r: Outcome<ArrayList<T>, bool>)
    requires Valid(l)
    ensures Valid(r.state) && |r.state.elementData| == |l.elementData|
    ensures FirstFailure(Elements(l), contains) == l.size ==>
              r.result.Ok? && Elements(r.state) == Filter(Elements(l), contains, Ok(false))
    ensures var f := FirstFailure(Elements(l), contains);
            Elements(r.state) == Filter(Elements(l)[..f], contains, Ok(false)) + Elements(l)[f..]
    ensures r.state.modCount == l.modCount + (l.size - r.state.size)
    ensures forall k :: r.state.size <= k < l.size ==> r.state.elementData[k] == Null
    ensures r.result.Ok? <==> FirstFailure(Elements(l), contains) == l.size
    ensures r.result.Ok? ==> r.result.value == (r.state.size < l.size)
    ensures r.result.Err? ==> r.result.error == CallbackFailure
  {
    r := BatchRemove(l, contains, false);
    assert Elements(l)[..l.size] == Elements(l);
  }

  /** `retainAll(c)`: keeps only the elements `c` contains. */
  method RetainAll<T>(l: ArrayList<T>, contains: Ref<T> -> Result<bool>) returns (r: Outcome<ArrayList<T>, bool>)
    requires Valid(l)
    ensures Valid(r.state) && |r.state.elementData| == |l.elementData|
    ensures FirstFailure(Elements(l), contains) == l.size ==>
              r.result.Ok? && Elements(r.state) == Filter(Elements(l), contains, Ok(true))
    ensures var f := FirstFailure(Elements(l), contains);
            Elements(r.state) == Filter(Elements(l)[..f], contains, Ok(true)) + Elements(l)[f..]
    ensures r.state.modCount == l.modCount + (l.size - r.state.size)
    ensures forall k :: r.state.size <= k < l.size ==> r.state.elementData[k] == Null
    ensures r.result.Ok? <==> FirstFailure(Elements(l), contains) == l.size
    ensures r.result.Ok? ==> r.result.value == (r.state.size < l.size)
    ensures r.result.Err? ==> r.result.error == CallbackFailure
  {
    r := BatchRemove(l, contains, true);
    assert Elements(l)[..l.size] == Elements(l);
  }

  /** Number of set bits in `bits`. */
  function CountSet(bits: seq<bool>): (r: nat)
    ensures r <= |bits|
  {
    if |bits| == 0 then 0 else CountSet(bits[..|bits| - 1]) + (if bits[|bits| - 1] then 1 else 0)
  }

  /** `BitSet.nextClearBit(from)`: the first clear bit at or after `from`
      (bits past the end are clear). */
  function NextClearBit(bits: seq<bool>, from: nat): (r: nat)
    ensures from <= r
    ensures r < |bits| ==> !bits[r]
    ensures forall k :: from <= k < r && k < |bits| ==> bits[k]
    ensures from <= |bits| ==> r <= |bits|
    decreases |bits| - from
  {
    if from >= |bits| || !bits[from] then from else NextClearBit(bits, from + 1)
  }

  /** `removeIf(filter)`: first marks the doomed elements in a bit set, then
      compacts the survivors with `nextClearBit`. One modification is counted,
      and only when something was removed. */
  method RemoveIf<T>(l: ArrayList<T>, filter: Ref<T> -> bool) returns (r: Outcome<ArrayList<T>, bool>)
    requires Valid(l)
    ensures r.result.Ok? && Valid(r.state) && |r.state.elementData| == |l.elementData|
    ensures Elements(r.state) == Filter(Elements(l), filter, false)
    ensures r.result.value <==> exists k :: 0 <= k < l.size && filter(Elements(l)[k])
    ensures r.state.modCount == l.modCount + (if r.result.value then 1 else 0)
    ensures forall k :: r.state.size <= k < l.size ==> r.state.elementData[k] == Null
  {
    var removeSet, removeCount := MarkRemovals(Elements(l), filter);
    KeptCount(Elements(l), removeSet, filter, l.size);
    var anyToRemove := removeCount > 0;
    if !anyToRemove {
      NothingRemoved(Elements(l), removeSet, filter);
      return Outcome(l, Ok(false));
    }
    var newSize := l.size - removeCount;
    var a := CompactSurvivors(l, filter, removeSet, newSize);
    a := ClearSlots(a, newSize, l.size);
    var state := l.(elementData := a, size := newSize, modCount := l.modCount + 1);
    assert Elements(state) == a[..newSize];
    assert filter(Elements(l)[MarkedWitness(Elements(l), removeSet, filter)]);
    r := Outcome(state, Ok(true));
  }

  /** The marking pass of `removeIf`: bit `i` is set when `filter` accepts
      element `i`; `removeCount` counts the set bits. */
  method MarkRemovals<T>(elements: seq<Ref<T>>, filter: Ref<T> -> bool) returns (removeSet: seq<bool>, removeCount: nat)
    ensures |removeSet| == |elements|
    ensures forall k :: 0 <= k < |elements| ==> removeSet[k] == filter(elements[k])
    ensures removeCount == CountSet(removeSet)
  {
    removeSet := [];
    removeCount := 0;
    var i := 0;
    while i < |elements|
      invariant 0 <= i <= |elements| && |removeSet| == i
      invariant forall k :: 0 <= k < i ==> removeSet[k] == filter(elements[k])
      invariant removeCount == CountSet(removeSet)
    {
      assert (removeSet + [filter(elements[i])])[..i] == removeSet;
      removeSet := removeSet + [filter(elements[i])];
      removeCount := removeCount + (if filter(elements[i]) then 1 else 0);
      i := i + 1;
    }
  }

  /** The shifting pass of `removeIf`: slot `j` receives the element at the
      next clear bit, for each of the `newSize` survivors. */
  method CompactSurvivors<T>(l: ArrayList<T>, filter: Ref<T> -> bool, removeSet: seq<bool>, newSize: int)
    returns (a: seq<Ref<T>>)
    requires Valid(l) && |removeSet| == l.size
    requires forall k :: 0 <= k < l.size ==> removeSet[k] == filter(Elements(l)[k])
    requires newSize == |Filter(Elements(l), filter, false)|
    ensures |a| == |l.elementData|
    ensures a[..newSize] == Filter(Elements(l), filter, false)
  {
    var elements := Elements(l);
    a := l.elementData;
    var j := 0;
    var i := 0;
    while i < l.size && j < newSize
      invariant 0 <= j <= i <= l.size && |a| == |l.elementData|
      invariant j == |Filter(elements[..i], filter, false)| && j <= newSize
      invariant a[..j] == Filter(elements[..i], filter, false)
      invariant forall k :: i <= k < |a| ==> a[k] == l.elementData[k]
    {
      ClearBitAhead(elements, removeSet, filter, i, newSize - j);
      var next := NextClearBit(removeSet, i);
      SkipMarked(elements, filter, i, next);
      FilterPrefixStep(elements, next, filter, false);
      assert a[next] == elements[next];
      a := a[j := a[next]];
      i := next + 1;
      j := j + 1;
    }
    Compacted(elements, filter, i, newSize);
  }

  /** The survivors number `size - removeCount`, and their count after index
      `i` tells how many clear bits lie ahead. */
  lemma {:induction false} KeptCount<T>(s: seq<Ref<T>>, bits: seq<bool>, filter: Ref<T> -> bool, n: nat)
    requires n == |s| == |bits| && forall k :: 0 <= k < n ==> bits[k] == filter(s[k])
    ensures |Filter(s, filter, false)| == n - CountSet(bits)
    decreases n
  {
    if n > 0 {
      assert s[..n - 1][..n - 1] == s[..n - 1];
      KeptCount(s[..n - 1], bits[..n - 1], filter, n - 1);
    }
  }

  lemma NothingRemoved<T>(s: seq<Ref<T>>, bits: seq<bool>, filter: Ref<T> -> bool)
    requires |s| == |bits| && forall k :: 0 <= k < |s| ==> bits[k] == filter(s[k])
    requires |Filter(s, filter, false)| == |s|
    ensures Filter(s, filter, false) == s
    ensures forall k :: 0 <= k < |s| ==> !filter(s[k])
  {
    FilterAll(s, filter);
  }

  lemma {:induction false} FilterAll<T>(s: seq<Ref<T>>, filter: Ref<T> -> bool)
    requires |Filter(s, filter, false)| == |s|
    ensures Filter(s, filter, false) == s
    decreases |s|
  {
    if |s| > 0 {
      var s' := s[..|s| - 1];
      assert forall k :: 0 <= k < |s'| ==> s'[k] == s[k];
      FilterAll(s', filter);
    }
  }

  /** While survivors remain to be copied, the next clear bit is inside the list. */
  lemma ClearBitAhead<T>(s: seq<Ref<T>>, bits: seq<bool>, filter: Ref<T> -> bool, i: nat, remaining: int)
    requires |s| == |bits| && forall k :: 0 <= k < |s| ==> bits[k] == filter(s[k])
    requires i <= |s| && 0 < remaining
    requires |Filter(s[..i], filter, false)| + remaining == |Filter(s, filter, false)|
    ensures NextClearBit(bits, i) < |s|
  {
    assert s[..|s|] == s;
    AllMarkedSkipped(s, filter, i);
  }

  /** A tail of marked elements leaves the survivors unchanged. */
  lemma AllMarkedSkipped<T>(s: seq<Ref<T>>, filter: Ref<T> -> bool, i: nat)
    requires i <= |s|
    ensures (forall k :: i <= k < |s| ==> filter(s[k])) ==> Filter(s[..|s|], filter, false) == Filter(s[..i], filter, false)
  {
    if forall k :: i <= k < |s| ==> filter(s[k]) {
      SkipMarked(s, filter, i, |s|);
    }
  }

  /** Skipping marked (removed) elements adds nothing to the survivors. */
  lemma {:induction false} SkipMarked<T>(s: seq<Ref<T>>, filter: Ref<T> -> bool, lo: nat, hi: nat)
    requires lo <= hi <= |s|
    requires forall k :: lo <= k < hi ==> filter(s[k])
    ensures Filter(s[..hi], filter, false) == Filter(s[..lo], filter, false)
    decreases hi
  {
    if lo < hi {
      FilterPrefixStep(s, hi - 1, filter, false);
      SkipMarked(s, filter, lo, hi - 1);
    }
  }

  /** When the compaction loop stops, every survivor has been copied. */
  lemma Compacted<T>(s: seq<Ref<T>>, filter: Ref<T> -> bool, i: nat, newSize: nat)
    requires i <= |s| && newSize == |Filter(s, filter, false)|
    requires |Filter(s[..i], filter, false)| == newSize || i == |s|
    ensures Filter(s[..i], filter, false) == Filter(s, filter, false)
  {
    assert s == s[..i] + s[i..];
    FilterAppend(s[..i], s[i..], filter, false);
  }

  /** Some element was marked when fewer than all survive. */
  function MarkedWitness<T>(s: seq<Ref<T>>, bits: seq<bool>, filter: Ref<T> -> bool): (k: nat)
    requires |s| == |bits| && forall k :: 0 <= k < |s| ==> bits[k] == filter(s[k])
    requires CountSet(bits) > 0
    ensures k < |s| && filter(s[k])
    decreases |s|
  {
    var n := |s| - 1;
    if bits[n] then n
    else
      assert forall k :: 0 <= k < n ==> bits[..n][k] == filter(s[..n][k]);
      MarkedWitness(s[..n], bits[..n], filter)
  }

  /** `replaceAll(operator)`: every element replaced by its image; counted as
      one modification. */
  method ReplaceAll<T>(l: ArrayList<T>, operator: Ref<T> -> Ref<T>) returns (r: ArrayList<T>)
    requires Valid(l)
    ensures Valid(r) && |r.elementData| == |l.elementData| && r.size == l.size
    ensures forall k :: 0 <= k < l.size ==> Elements(r)[k] == operator(Elements(l)[k])
    ensures r.modCount == l.modCount + 1
  {
    var a := l.elementData;
    var i := 0;
    while i < l.size
      invariant 0 <= i <= l.size && |a| == |l.elementData|
      invariant forall k :: 0 <= k < i ==> a[k] == operator(l.elementData[k])
      invariant forall k :: i <= k < |a| ==> a[k] == l.elementData[k]
    {
      a := a[i := operator(a[i])];
      i := i + 1;
    }
    r := l.(elementData := a, modCount := l.modCount + 1);
  }
}
