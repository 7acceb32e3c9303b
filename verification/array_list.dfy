/** ArrayList: an `Object[]` buffer whose first `size` slots are the list.
    Every operation returns the list afterwards; `Elements` is the abstract
    sequence each contract is stated in. */
module ArrayListModel {
  import opened JavaLang
  import Int32
  import opened Capacity

  /** `elementData` is the whole buffer (its length is the capacity);
      `defaultEmpty` records that the buffer is the shared
      DEFAULTCAPACITY_EMPTY_ELEMENTDATA array of a default-constructed list,
      which inflates to DEFAULT_CAPACITY on first use. `modCount` is the
      structural-modification counter inherited from AbstractList. */
  datatype ArrayList<T> = ArrayList(elementData: seq<Ref<T>>, size: int, modCount: int, defaultEmpty: bool)

  predicate Valid<T>(l: ArrayList<T>) {
    && 0 <= l.size <= |l.elementData| <= Int32.MAX
    && (l.defaultEmpty ==> |l.elementData| == 0)
  }

  /** The list the buffer represents. */
  function Elements<T>(l: ArrayList<T>): seq<Ref<T>>
    requires Valid(l)
  {
    l.elementData[..l.size]
  }

  function NullArray<T>(n: nat): (r: seq<Ref<T>>)
    ensures |r| == n && forall k :: 0 <= k < n ==> r[k] == Null
  {
    seq(n, _ => Null)
  }

  /** `Arrays.copyOf(a, newLength)`: truncate, or pad with nulls. */
  function CopyOf<T>(a: seq<Ref<T>>, newLength: nat): (r: seq<Ref<T>>)
    ensures |r| == newLength
    ensures forall k :: 0 <= k < newLength ==> r[k] == (if k < |a| then a[k] else Null)
  {
    if newLength <= |a| then a[..newLength] else a + NullArray(newLength - |a|)
  }

  /** `System.arraycopy(src, srcPos, dest, destPos, length)`, returning the new
      `dest`; overlapping ranges behave as if copied through a temporary. */
  function ArrayCopy<X>(src: seq<X>, srcPos: int, dest: seq<X>, destPos: int, length: int): (r: Result<seq<X>>)
    ensures r.Ok? <==> 0 <= srcPos && 0 <= destPos && 0 <= length
                       && srcPos + length <= |src| && destPos + length <= |dest|
    ensures r.Err? ==> r.error == ArrayIndexOutOfBounds
    ensures r.Ok? ==> |r.value| == |dest|
    ensures r.Ok? ==> forall k :: 0 <= k < |dest| ==>
              r.value[k] == (if destPos <= k < destPos + length then src[srcPos + (k - destPos)] else dest[k])
  {
    if 0 <= srcPos && 0 <= destPos && 0 <= length && srcPos + length <= |src| && destPos + length <= |dest|
    then Ok(dest[..destPos] + src[srcPos..srcPos + length] + dest[destPos + length..])
    else Err(ArrayIndexOutOfBounds)
  }

  // ---------------------------------------------------------------- construction

  /** `new ArrayList()`: shares the default empty buffer. */
  function Create<T>(): (r: ArrayList<T>)
    ensures Valid(r) && Elements(r) == [] && r.modCount == 0 && r.defaultEmpty
  {
    ArrayList([], 0, 0, true)
  }

  /** `new ArrayList(initialCapacity)`. */
  function CreateWithCapacity<T>(initialCapacity: int): (r: Result<ArrayList<T>>)
    requires Int32.InRange(initialCapacity)
    ensures r.Ok? <==> initialCapacity >= 0
    ensures r.Err? ==> r.error == IllegalArgument
    ensures r.Ok? ==> Valid(r.value) && Elements(r.value) == [] && !r.value.defaultEmpty
                      && |r.value.elementData| == initialCapacity
  {
    if initialCapacity > 0 then Ok(ArrayList(NullArray(initialCapacity), 0, 0, false))
    else if initialCapacity == 0 then Ok(ArrayList([], 0, 0, false))
    else Err(IllegalArgument)
  }

  /** `new ArrayList(c)`: the buffer is exactly `c.toArray()`. */
  function CreateFrom<T>(c: seq<Ref<T>>): (r: ArrayList<T>)
    requires |c| <= Int32.MAX
    ensures Valid(r) && Elements(r) == c && |r.elementData| == |c| && r.modCount == 0 && !r.defaultEmpty
  {
    if |c| != 0 then ArrayList(c, |c|, 0, false) else ArrayList([], 0, 0, false)
  }

  // ---------------------------------------------------------------- capacity

  /** `trimToSize`: shrink the buffer to the list. Always counts as a
      modification. */
  function TrimToSize<T>(l: ArrayList<T>): (r: ArrayList<T>)
    requires Valid(l)
    ensures Valid(r) && Elements(r) == Elements(l)
    ensures |r.elementData| == l.size
    ensures r.modCount == l.modCount + 1
  {
    var l' := l.(modCount := l.modCount + 1);
    if l.size < |l.elementData| then
      l'.(elementData := if l.size == 0 then [] else CopyOf(l.elementData, l.size), defaultEmpty := false)
    else l'
  }

  /** `grow`, reached only when `minCapacity - capacity` (wrapped) is positive:
      it fails exactly when the request is negative, that is, when the size
      computation that produced it overflowed. */
  function Grow<T>(l: ArrayList<T>, minCapacity: int): (r: Result<ArrayList<T>>)
    requires Valid(l) && Int32.InRange(minCapacity)
    requires Int32.Wrap(minCapacity - |l.elementData|) > 0
    ensures r.Ok? <==> minCapacity >= 0
    ensures r.Err? ==> r.error == OutOfMemory || r.error == NegativeArraySize
    ensures r.Ok? ==> Valid(r.value) && Elements(r.value) == Elements(l) && r.value.modCount == l.modCount
    ensures r.Ok? ==> |r.value.elementData| == IdealCapacity(|l.elementData|, minCapacity)
  {
    GrowthCases(|l.elementData|, minCapacity);
    match NewCapacity(|l.elementData|, minCapacity)
    case Err(e) => Err(e)
    case Ok(newCapacity) =>
      if newCapacity < 0 then Err(NegativeArraySize)
      else Ok(l.(elementData := CopyOf(l.elementData, newCapacity), defaultEmpty := false))
  }

  lemma GrowthCases(oldCapacity: int, minCapacity: int)
    requires 0 <= oldCapacity <= Int32.MAX && Int32.InRange(minCapacity)
    requires Int32.Wrap(minCapacity - oldCapacity) > 0
    ensures 0 <= minCapacity ==> NewCapacity(oldCapacity, minCapacity) == Ok(IdealCapacity(oldCapacity, minCapacity))
    ensures minCapacity < 0 ==> NewCapacity(oldCapacity, minCapacity).Err? || NewCapacity(oldCapacity, minCapacity).value < 0
  {
    if minCapacity >= 0 {
      NewCapacityIsIdeal(oldCapacity, minCapacity);
    } else {
      NegativeRequestFails(oldCapacity, minCapacity);
    }
  }

  /** `ensureExplicitCapacity`: counts a modification, then grows when the
      buffer is smaller than the request. Growth keeps the live elements. */
  function EnsureExplicitCapacity<T>(l: ArrayList<T>, minCapacity: int): (r: Outcome<ArrayList<T>, ()>)
    requires Valid(l) && Int32.InRange(minCapacity)
    ensures Valid(r.state) && Elements(r.state) == Elements(l)
    ensures r.state.modCount == l.modCount + 1
    ensures 0 <= minCapacity ==> r.result.Ok?
    ensures r.result.Ok? && 0 <= minCapacity ==> minCapacity <= |r.state.elementData|
    ensures r.result.Ok? && |l.elementData| < minCapacity ==>
              |r.state.elementData| == IdealCapacity(|l.elementData|, minCapacity)
    ensures minCapacity <= |l.elementData| ==> |r.state.elementData| == |l.elementData|
    ensures minCapacity < 0 && Int32.Wrap(minCapacity - |l.elementData|) > 0 ==> r.result.Err?
  {
    var bumped := l.(modCount := l.modCount + 1);
    if Int32.Wrap(minCapacity - |l.elementData|) > 0 then
      match Grow(bumped, minCapacity)
      case Ok(grown) => Outcome(grown, Ok(()))
      case Err(e) => Outcome(bumped, Err(e))
    else Outcome(bumped, Ok(()))
  }

  /** `ensureCapacityInternal`: as ensureExplicitCapacity, except that the
      default empty buffer is inflated to at least DEFAULT_CAPACITY. */
  function EnsureCapacityInternal<T>(l: ArrayList<T>, minCapacity: int): (r: Outcome<ArrayList<T>, ()>)
    requires Valid(l) && Int32.InRange(minCapacity)
    ensures Valid(r.state) && Elements(r.state) == Elements(l)
    ensures r.state.modCount == l.modCount + 1
    ensures 0 <= minCapacity ==> r.result.Ok? && minCapacity <= |r.state.elementData|
    ensures r.result.Ok? && l.defaultEmpty ==> DEFAULT_CAPACITY <= |r.state.elementData|
    ensures minCapacity < 0 && Int32.Wrap(minCapacity - |l.elementData|) > 0 ==> r.result.Err?
  {
    var request := if l.defaultEmpty then Max(DEFAULT_CAPACITY, minCapacity) else minCapacity;
    EnsureExplicitCapacity(l, request)
  }

  /** Public `ensureCapacity`: requests at or below the default empty
      buffer's implicit capacity are ignored and count as no modification. */
  function EnsureCapacity<T>(l: ArrayList<T>, minCapacity: int): (r: Outcome<ArrayList<T>, ()>)
    requires Valid(l) && Int32.InRange(minCapacity)
    ensures Valid(r.state) && Elements(r.state) == Elements(l)
    ensures 0 <= minCapacity ==> r.result.Ok? && (minCapacity <= |r.state.elementData| || (l.defaultEmpty && minCapacity <= DEFAULT_CAPACITY))
    ensures r.state.modCount == l.modCount + (if minCapacity > (if l.defaultEmpty then DEFAULT_CAPACITY else 0) then 1 else 0)
  {
    var minExpand := if l.defaultEmpty then DEFAULT_CAPACITY else 0;
    if minCapacity > minExpand then EnsureExplicitCapacity(l, minCapacity) else Outcome(l, Ok(()))
  }

  /** A request computed as `size + numNew` overflows exactly when the exact
      sum passes Int32.MAX, and the capacity check then fails. */
  lemma GrowthRequest<T>(l: ArrayList<T>, numNew: int)
    requires Valid(l) && 0 <= numNew <= Int32.MAX
    ensures var r := EnsureCapacityInternal(l, Int32.Wrap(l.size + numNew));
            r.result.Ok? <==> l.size + numNew <= Int32.MAX
    ensures var r := EnsureCapacityInternal(l, Int32.Wrap(l.size + numNew));
            r.result.Ok? ==> l.size + numNew <= |r.state.elementData|
  {
    if l.size + numNew > Int32.MAX {
      OverflowedRequestReachesGrow(l.size, |l.elementData|, numNew);
    }
  }

  // ---------------------------------------------------------------- positional access

  /** `get`: `rangeCheck` rejects only `index >= size`; a negative index fails
      at the array access instead. */
  function Get<T>(l: ArrayList<T>, index: int): (r: Result<Ref<T>>)
    requires Valid(l)
    ensures r.Ok? <==> 0 <= index < l.size
    ensures r.Ok? ==> r.value == Elements(l)[index]
    ensures index >= l.size ==> r == Err(IndexOutOfBounds)
    ensures index < 0 ==> r == Err(ArrayIndexOutOfBounds)
  {
    if index >= l.size then Err(IndexOutOfBounds)
    else if index < 0 then Err(ArrayIndexOutOfBounds)
    else Ok(l.elementData[index])
  }

  /** `set`: replaces one element in place; not a structural modification. */
  function Set<T>(l: ArrayList<T>, index: int, element: Ref<T>): (r: Outcome<ArrayList<T>, Ref<T>>)
    requires Valid(l)
    ensures Valid(r.state) && r.state.modCount == l.modCount && |r.state.elementData| == |l.elementData|
    ensures r.result.Ok? <==> 0 <= index < l.size
    ensures r.result.Ok? ==> r.result.value == Elements(l)[index]
                             && Elements(r.state) == Elements(l)[index := element]
    ensures r.result.Err? ==> r.state == l && IsIndexOutOfBounds(r.result.error)
  {
    if index >= l.size then Outcome(l, Err(IndexOutOfBounds))
    else if index < 0 then Outcome(l, Err(ArrayIndexOutOfBounds))
    else Outcome(l.(elementData := l.elementData[index := element]), Ok(l.elementData[index]))
  }

  /** `add(e)`: appends, growing the buffer when full. */
  function Add<T>(l: ArrayList<T>, e: Ref<T>): (r: Outcome<ArrayList<T>, bool>)
    requires Valid(l)
    ensures Valid(r.state) && r.state.modCount == l.modCount + 1
    ensures r.result.Ok? <==> l.size < Int32.MAX
    ensures r.result.Ok? ==> r.result.value && Elements(r.state) == Elements(l) + [e]
    ensures r.result.Err? ==> Elements(r.state) == Elements(l) && r.result.error == OutOfMemory
  {
    GrowthRequest(l, 1);
    var o := EnsureCapacityInternal(l, Int32.Wrap(l.size + 1));
    if o.result.Err? then
      NegativeRequestFails(|l.elementData|, Int32.Wrap(l.size + 1));
      Outcome(o.state, Err(OutOfMemory))
    else
      var g := o.state;
      Outcome(g.(elementData := g.elementData[g.size := e], size := g.size + 1), Ok(true))
  }

  /** `rangeCheckForAdd`: an insertion point must lie in [0, size]. */
  predicate IsPositionIndex<T>(l: ArrayList<T>, index: int)
    ensures Valid(l) ==> (IsPositionIndex(l, index) <==> 0 <= index <= |Elements(l)|)
  {
    0 <= index <= l.size
  }

  /** `add(index, e)`: shifts the tail right by one slot, then stores `e`. */
  function AddAt<T>(l: ArrayList<T>, index: int, e: Ref<T>): (r: Outcome<ArrayList<T>, ()>)
    requires Valid(l)
    ensures Valid(r.state)
    ensures r.result.Ok? <==> 0 <= index <= l.size && l.size < Int32.MAX
    ensures !(0 <= index <= l.size) ==> r == Outcome(l, Err(IndexOutOfBounds))
    ensures r.result.Ok? ==> Elements(r.state) == Elements(l)[..index] + [e] + Elements(l)[index..]
                             && r.state.modCount == l.modCount + 1
    ensures r.result.Err? ==> Elements(r.state) == Elements(l)
  {
    if index > l.size || index < 0 then Outcome(l, Err(IndexOutOfBounds))
    else
      GrowthRequest(l, 1);
      var o := EnsureCapacityInternal(l, Int32.Wrap(l.size + 1));
      if o.result.Err? then Outcome(o.state, o.result)
      else
        var g := o.state;
        var shifted := ArrayCopy(g.elementData, index, g.elementData, index + 1, g.size - index).value;
        var r := g.(elementData := shifted[index := e], size := g.size + 1);
        assert Elements(r) == Elements(l)[..index] + [e] + Elements(l)[index..];
        Outcome(r, Ok(()))
  }

  /** Slots `[from, to)` of `a` reset to null ("clear to let GC do its work"). */
  function ClearSlots<T>(a: seq<Ref<T>>, from: int, to: int): (r: seq<Ref<T>>)
    requires 0 <= from && to <= |a|
    ensures |r| == |a|
    ensures forall k :: 0 <= k < |a| ==> r[k] == (if from <= k < to then Null else a[k])
  {
    if from < to then a[..from] + NullArray(to - from) + a[to..] else a
  }

  /** `fastRemove`: the shift of `remove(index)` without its checks. */
  function FastRemove<T>(l: ArrayList<T>, index: int): (r: ArrayList<T>)
    requires Valid(l) && 0 <= index < l.size
    ensures Valid(r) && |r.elementData| == |l.elementData|
    ensures Elements(r) == Elements(l)[..index] + Elements(l)[index + 1..]
    ensures r.elementData[l.size - 1] == Null
    ensures r.modCount == l.modCount + 1
  {
    var numMoved := l.size - index - 1;
    var shifted := if numMoved > 0 then ArrayCopy(l.elementData, index + 1, l.elementData, index, numMoved).value
                   else l.elementData;
    var r := l.(elementData := shifted[l.size - 1 := Null], size := l.size - 1, modCount := l.modCount + 1);
    assert Elements(r) == Elements(l)[..index] + Elements(l)[index + 1..];
    r
  }

  /** `remove(index)`: the modification is counted before the element is
      read, so a negative index bumps `modCount` and then fails at the array
      access. */
  function RemoveAt<T>(l: ArrayList<T>, index: int): (r: Outcome<ArrayList<T>, Ref<T>>)
    requires Valid(l)
    ensures Valid(r.state) && |r.state.elementData| == |l.elementData|
    ensures r.result.Ok? <==> 0 <= index < l.size
    ensures r.result.Ok? ==> r.result.value == Elements(l)[index]
                             && Elements(r.state) == Elements(l)[..index] + Elements(l)[index + 1..]
                             && r.state.elementData[l.size - 1] == Null
                             && r.state.modCount == l.modCount + 1
    ensures index >= l.size ==> r == Outcome(l, Err(IndexOutOfBounds))
    ensures index < 0 ==> r == Outcome(l.(modCount := l.modCount + 1), Err(ArrayIndexOutOfBounds))
  {
    if index >= l.size then Outcome(l, Err(IndexOutOfBounds))
    else if index < 0 then Outcome(l.(modCount := l.modCount + 1), Err(ArrayIndexOutOfBounds))
    else Outcome(FastRemove(l, index), Ok(l.elementData[index]))
  }

  /** `addAll(c)`: appends `c.toArray()`. The capacity check counts a
      modification even when `c` is empty. */
  function AddAll<T>(l: ArrayList<T>, c: seq<Ref<T>>): (r: Outcome<ArrayList<T>, bool>)
    requires Valid(l) && |c| <= Int32.MAX
    ensures Valid(r.state) && r.state.modCount == l.modCount + 1
    ensures r.result.Ok? <==> l.size + |c| <= Int32.MAX
    ensures r.result.Ok? ==> Elements(r.state) == Elements(l) + c && r.result.value == (|c| != 0)
    ensures r.result.Err? ==> Elements(r.state) == Elements(l)
  {
    GrowthRequest(l, |c|);
    var o := EnsureCapacityInternal(l, Int32.Wrap(l.size + |c|));
    if o.result.Err? then Outcome(o.state, Err(o.result.error))
    else
      var g := o.state;
      var r := g.(elementData := ArrayCopy(c, 0, g.elementData, g.size, |c|).value, size := g.size + |c|);
      assert Elements(r) == Elements(l) + c;
      Outcome(r, Ok(|c| != 0))
  }

  /** `addAll(index, c)`: opens a gap of `|c|` slots at `index` and copies `c`
      into it. */
  function AddAllAt<T>(l: ArrayList<T>, index: int, c: seq<Ref<T>>): (r: Outcome<ArrayList<T>, bool>)
    requires Valid(l) && |c| <= Int32.MAX
    ensures Valid(r.state)
    ensures !(0 <= index <= l.size) ==> r == Outcome(l, Err(IndexOutOfBounds))
    ensures r.result.Ok? <==> 0 <= index <= l.size && l.size + |c| <= Int32.MAX
    ensures r.result.Ok? ==> Elements(r.state) == Elements(l)[..index] + c + Elements(l)[index..]
                             && r.result.value == (|c| != 0) && r.state.modCount == l.modCount + 1
    ensures r.result.Err? ==> Elements(r.state) == Elements(l)
  {
    if index > l.size || index < 0 then Outcome(l, Err(IndexOutOfBounds))
    else
      GrowthRequest(l, |c|);
      var o := EnsureCapacityInternal(l, Int32.Wrap(l.size + |c|));
      if o.result.Err? then Outcome(o.state, Err(o.result.error))
      else
        Outcome(InsertAllAt(o.state, index, c), Ok(|c| != 0))
  }

  /** The copies of `addAll(index, c)` once the capacity is there. */
  function InsertAllAt<T>(g: ArrayList<T>, index: int, c: seq<Ref<T>>): (r: ArrayList<T>)
    requires Valid(g) && 0 <= index <= g.size && g.size + |c| <= |g.elementData|
    ensures Valid(r) && r.modCount == g.modCount
    ensures Elements(r) == Elements(g)[..index] + c + Elements(g)[index..]
  {
    var a := g.elementData;
    var r := g.(elementData := OpenGapAndFill(a, g.size, index, c), size := g.size + |c|);
    assert a[..index] == Elements(g)[..index] && a[index..g.size] == Elements(g)[index..];
    assert Elements(r) == a[..index] + c + a[index..g.size];
    r
  }

  /** The two copies of `addAll(index, c)`: the tail `[index, size)` moves
      up by `|c|` slots, then `c` fills the gap. */
  function OpenGapAndFill<T>(a: seq<Ref<T>>, size: int, index: int, c: seq<Ref<T>>): (r: seq<Ref<T>>)
    requires 0 <= index <= size && size + |c| <= |a|
    ensures |r| == |a|
    ensures r[..size + |c|] == a[..index] + c + a[index..size]
  {
    var gapped := OpenGap(a, size, index, |c|);
    var r := FillGap(c, gapped, index);
    GapFilled(a, size, index, c, gapped, r);
    r
  }

  /** The first copy: the tail `[index, size)` moves up by `n` slots. */
  function OpenGap<T>(a: seq<Ref<T>>, size: int, index: int, n: nat): (r: seq<Ref<T>>)
    requires 0 <= index <= size && size + n <= |a|
    ensures |r| == |a|
    ensures forall k :: 0 <= k < index ==> r[k] == a[k]
    ensures forall k :: index + n <= k < size + n ==> r[k] == a[k - n]
  {
    var numMoved := size - index;
    if numMoved > 0 then ArrayCopy(a, index, a, index + n, numMoved).value else a
  }

  /** The second copy: `c` lands at `index`, the rest stays. */
  function FillGap<T>(c: seq<Ref<T>>, gapped: seq<Ref<T>>, index: int): (r: seq<Ref<T>>)
    requires 0 <= index && index + |c| <= |gapped|
    ensures |r| == |gapped|
    ensures forall k :: 0 <= k < |gapped| && !(index <= k < index + |c|) ==> r[k] == gapped[k]
    ensures forall k :: 0 <= k < |c| ==> r[index + k] == c[k]
  {
    ArrayCopy(c, 0, gapped, index, |c|).value
  }

  lemma GapFilled<T>(a: seq<Ref<T>>, size: int, index: int, c: seq<Ref<T>>, gapped: seq<Ref<T>>, r: seq<Ref<T>>)
    requires 0 <= index <= size && size + |c| <= |a| == |gapped| == |r|
    requires forall k :: 0 <= k < index ==> gapped[k] == a[k]
    requires forall k :: index + |c| <= k < size + |c| ==> gapped[k] == a[k - |c|]
    requires forall k :: 0 <= k < |gapped| && !(index <= k < index + |c|) ==> r[k] == gapped[k]
    requires forall k :: 0 <= k < |c| ==> r[index + k] == c[k]
    ensures r[..size + |c|] == a[..index] + c + a[index..size]
  {
    var want := a[..index] + c + a[index..size];
    forall k | 0 <= k < size + |c|
      ensures r[k] == want[k]
    {
      if k < index {
      } else if k < index + |c| {
        assert r[index + (k - index)] == c[k - index];
      } else {
        assert want[k] == a[k - |c|];
      }
    }
  }

  /** `removeRange(fromIndex, toIndex)` as written: no range check of its own,
      so only System.arraycopy can object. With `fromIndex > toIndex` the copy
      may well succeed, and the list then GROWS by `fromIndex - toIndex`
      slots (see RemoveRangeReversedGrows). */
  function RemoveRange<T>(l: ArrayList<T>, fromIndex: int, toIndex: int): (r: Outcome<ArrayList<T>, ()>)
    requires Valid(l)
    ensures r.state.modCount == l.modCount + 1 && |r.state.elementData| == |l.elementData|
    ensures r.result.Ok? <==> 0 <= fromIndex && 0 <= toIndex <= l.size
                              && fromIndex + (l.size - toIndex) <= |l.elementData|
    ensures r.result.Ok? ==> r.state.size == l.size - (toIndex - fromIndex)
    ensures r.result.Ok? && fromIndex <= toIndex ==>
              && Valid(r.state)
              && Elements(r.state) == Elements(l)[..fromIndex] + Elements(l)[toIndex..]
              && forall k :: r.state.size <= k < l.size ==> r.state.elementData[k] == Null
    ensures r.result.Err? ==> Valid(r.state) && Elements(r.state) == Elements(l)
  {
    RemoveRangeShape(l, fromIndex, toIndex);
    if fromIndex <= toIndex && RemoveRangeRaw(l, fromIndex, toIndex).result.Ok? then
      RemoveRangeContents(l, fromIndex, toIndex);
      RemoveRangeRaw(l, fromIndex, toIndex)
    else RemoveRangeRaw(l, fromIndex, toIndex)
  }

  /** The copy and the clearing of `removeRange`. */
  function RemoveRangeRaw<T>(l: ArrayList<T>, fromIndex: int, toIndex: int): Outcome<ArrayList<T>, ()>
    requires Valid(l)
  {
    var bumped := l.(modCount := l.modCount + 1);
    var numMoved := l.size - toIndex;
    match ArrayCopy(l.elementData, toIndex, l.elementData, fromIndex, numMoved)
    case Err(e) => Outcome(bumped, Err(e))
    case Ok(moved) =>
      var newSize := l.size - (toIndex - fromIndex);
      var cleared := if newSize < l.size then ClearSlots(moved, newSize, l.size) else moved;
      Outcome(bumped.(elementData := cleared, size := newSize), Ok(()))
  }

  lemma RemoveRangeShape<T>(l: ArrayList<T>, fromIndex: int, toIndex: int)
    requires Valid(l)
    ensures var r := RemoveRangeRaw(l, fromIndex, toIndex);
            r.state.modCount == l.modCount + 1 && |r.state.elementData| == |l.elementData|
    ensures var r := RemoveRangeRaw(l, fromIndex, toIndex);
            r.result.Ok? <==> 0 <= fromIndex && 0 <= toIndex <= l.size
                              && fromIndex + (l.size - toIndex) <= |l.elementData|
    ensures var r := RemoveRangeRaw(l, fromIndex, toIndex);
            r.result.Ok? ==> r.state.size == l.size - (toIndex - fromIndex)
    ensures var r := RemoveRangeRaw(l, fromIndex, toIndex);
            r.result.Err? ==> r.state == l.(modCount := l.modCount + 1)
  {
  }

  lemma RemoveRangeContents<T>(l: ArrayList<T>, fromIndex: int, toIndex: int)
    requires Valid(l) && fromIndex <= toIndex && RemoveRangeRaw(l, fromIndex, toIndex).result.Ok?
    ensures var r := RemoveRangeRaw(l, fromIndex, toIndex);
            && Valid(r.state)
            && Elements(r.state) == Elements(l)[..fromIndex] + Elements(l)[toIndex..]
            && forall k :: r.state.size <= k < l.size ==> r.state.elementData[k] == Null
  {
    RemoveRangeShape(l, fromIndex, toIndex);
    var copied := ArrayCopy(l.elementData, toIndex, l.elementData, fromIndex, l.size - toIndex);
    var newSize := l.size - (toIndex - fromIndex);
    var cleared := if newSize < l.size then ClearSlots(copied.value, newSize, l.size) else copied.value;
    GapClosed(l.elementData, l.size, fromIndex, toIndex, copied.value, cleared);
    assert RemoveRangeRaw(l, fromIndex, toIndex).state.elementData == cleared;
  }

  /** The shift and clearing of `removeRange` on a well-formed range leave
      the list without `[fromIndex, toIndex)` and null slots behind it. */
  lemma GapClosed<T>(a: seq<Ref<T>>, size: int, fromIndex: int, toIndex: int, moved: seq<Ref<T>>, cleared: seq<Ref<T>>)
    requires 0 <= fromIndex <= toIndex <= size <= |a|
    requires ArrayCopy(a, toIndex, a, fromIndex, size - toIndex) == Ok(moved)
    requires var newSize := size - (toIndex - fromIndex);
             cleared == if newSize < size then ClearSlots(moved, newSize, size) else moved
    ensures var newSize := size - (toIndex - fromIndex);
            && |cleared| == |a|
            && cleared[..newSize] == a[..size][..fromIndex] + a[..size][toIndex..]
            && forall k :: newSize <= k < size ==> cleared[k] == Null
  {
    var newSize := size - (toIndex - fromIndex);
    assert forall k :: 0 <= k < newSize ==> cleared[k] == moved[k];
    forall k | 0 <= k < newSize
      ensures cleared[k] == (a[..size][..fromIndex] + a[..size][toIndex..])[k]
    {
      if k < fromIndex {
        assert moved[k] == a[k];
      } else {
        assert moved[k] == a[toIndex + (k - fromIndex)];
      }
    }
  }

  /** `removeRange` with the check its documentation promises (and later
      releases added): `fromIndex > toIndex` is rejected before anything
      changes. On a well-formed range it is RemoveRange. */
  function RemoveRangeChecked<T>(l: ArrayList<T>, fromIndex: int, toIndex: int): (r: Outcome<ArrayList<T>, ()>)
    requires Valid(l)
    ensures Valid(r.state) && |r.state.elementData| == |l.elementData|
    ensures r.result.Ok? <==> 0 <= fromIndex <= toIndex <= l.size
    ensures r.result.Ok? ==> Elements(r.state) == Elements(l)[..fromIndex] + Elements(l)[toIndex..]
                             && r.state.modCount == l.modCount + 1
                             && forall k :: r.state.size <= k < l.size ==> r.state.elementData[k] == Null
    ensures fromIndex > toIndex ==> r == Outcome(l, Err(IndexOutOfBounds))
  {
    if fromIndex > toIndex then Outcome(l, Err(IndexOutOfBounds))
    else
      RemoveRange(l, fromIndex, toIndex)
  }

  /** The defect: on a three-element list with spare capacity,
      `removeRange(2, 1)` succeeds and leaves FOUR elements, the middle one
      duplicated, where the documented behaviour is IndexOutOfBounds. */
  lemma RemoveRangeReversedGrows()
    ensures var l := ArrayList([Obj(1), Obj(2), Obj(3), Null], 3, 0, false);
            var r := RemoveRange(l, 2, 1);
            && Valid(l) && r.result.Ok?
            && Valid(r.state) && Elements(r.state) == [Obj(1), Obj(2), Obj(2), Obj(3)]
            && RemoveRangeChecked(l, 2, 1) == Outcome(l, Err(IndexOutOfBounds))
  {
    var l := ArrayList([Obj(1), Obj(2), Obj(3), Null], 3, 0, false);
    var r := RemoveRange(l, 2, 1);
    assert r.state.elementData == [Obj(1), Obj(2), Obj(2), Obj(3)];
  }

  /** `clear`: nulls every live slot; the capacity is kept. */
  method Clear<T>(l: ArrayList<T>) returns (r: ArrayList<T>)
    requires Valid(l)
    ensures Valid(r) && Elements(r) == [] && r.modCount == l.modCount + 1
    ensures |r.elementData| == |l.elementData| && r.defaultEmpty == l.defaultEmpty
    ensures forall k :: 0 <= k < l.size ==> r.elementData[k] == Null
    ensures forall k :: l.size <= k < |l.elementData| ==> r.elementData[k] == l.elementData[k]
  {
    var a := l.elementData;
    var i := 0;
    while i < l.size
      invariant 0 <= i <= l.size && |a| == |l.elementData|
      invariant forall k :: 0 <= k < i ==> a[k] == Null
      invariant forall k :: i <= k < |a| ==> a[k] == l.elementData[k]
    {
      a := a[i := Null];
      i := i + 1;
    }
    r := l.(elementData := a, size := 0, modCount := l.modCount + 1);
  }

  // ---------------------------------------------------------------- search

  /** `indexOf`: the lowest index holding a match, or -1. */
  method IndexOf<T(==)>(l: ArrayList<T>, o: Ref<T>) returns (r: int)
    requires Valid(l)
    ensures -1 <= r < l.size
    ensures r == -1 <==> forall k :: 0 <= k < l.size ==> !Matches(o, Elements(l)[k])
    ensures r >= 0 ==> Matches(o, Elements(l)[r]) && forall k :: 0 <= k < r ==> !Matches(o, Elements(l)[k])
  {
    var i := 0;
    while i < l.size
      invariant 0 <= i <= l.size
      invariant forall k :: 0 <= k < i ==> !Matches(o, l.elementData[k])
    {
      if Matches(o, l.elementData[i]) {
        assert Elements(l)[i] == l.elementData[i];
        return i;
      }
      i := i + 1;
    }
    return -1;
  }

  /** `lastIndexOf`: the highest index holding a match, or -1. */
  method LastIndexOf<T(==)>(l: ArrayList<T>, o: Ref<T>) returns (r: int)
    requires Valid(l)
    ensures -1 <= r < l.size
    ensures r == -1 <==> forall k :: 0 <= k < l.size ==> !Matches(o, Elements(l)[k])
    ensures r >= 0 ==> Matches(o, Elements(l)[r]) && forall k :: r < k < l.size ==> !Matches(o, Elements(l)[k])
  {
    var i := l.size - 1;
    while i >= 0
      invariant -1 <= i < l.size
      invariant forall k :: i < k < l.size ==> !Matches(o, l.elementData[k])
    {
      if Matches(o, l.elementData[i]) {
        assert Elements(l)[i] == l.elementData[i];
        return i;
      }
      i := i - 1;
    }
    return -1;
  }

  /** `contains`: `indexOf(o) >= 0`. */
  method Contains<T(==)>(l: ArrayList<T>, o: Ref<T>) returns (r: bool)
    requires Valid(l)
    ensures r <==> exists k :: 0 <= k < l.size && Matches(o, Elements(l)[k])
  {
    var i := IndexOf(l, o);
    r := i >= 0;
  }

  /** `remove(o)`: deletes the first match only; with no match the list is
      left exactly as it was. */
  method RemoveElement<T(==)>(l: ArrayList<T>, o: Ref<T>) returns (r: ArrayList<T>, removed: bool)
    requires Valid(l)
    ensures Valid(r)
    ensures !removed ==> r == l && forall k :: 0 <= k < l.size ==> !Matches(o, Elements(l)[k])
    ensures removed ==> exists i :: 0 <= i < l.size && Matches(o, Elements(l)[i])
                          && (forall k :: 0 <= k < i ==> !Matches(o, Elements(l)[k]))
                          && Elements(r) == Elements(l)[..i] + Elements(l)[i + 1..]
    ensures removed ==> r.modCount == l.modCount + 1
  {
    var index := 0;
    while index < l.size
      invariant 0 <= index <= l.size
      invariant forall k :: 0 <= k < index ==> !Matches(o, l.elementData[k])
    {
      if Matches(o, l.elementData[index]) {
        r := FastRemove(l, index);
        removed := true;
        return;
      }
      index := index + 1;
    }
    r := l;
    removed := false;
  }
}
