/** ArrayList's capacity arithmetic (`grow` and `hugeCapacity`), computed in
    Java `int`s exactly as written, with its "overflow-conscious" subtractions,
    and related to the mathematical rule it implements. */
module Capacity {
  import opened JavaLang
  import Int32

  /** Capacity a default-constructed list inflates to on its first insertion. */
  const DEFAULT_CAPACITY: int := 10

  /** Largest array some virtual machines can allocate. */
  const MAX_ARRAY_SIZE: int := Int32.MAX - 8

  function Max(a: int, b: int): int {
    if a >= b then a else b
  }

  /** `hugeCapacity`: the capacity to use once the preferred one passes
      MAX_ARRAY_SIZE; a negative request means the size computation overflowed. */
  function HugeCapacity(minCapacity: int): (r: Result<int>)
    ensures r.Err? <==> minCapacity < 0
    ensures r.Err? ==> r.error == OutOfMemory
    ensures r.Ok? ==> MAX_ARRAY_SIZE <= r.value <= Int32.MAX
    ensures r.Ok? && minCapacity <= Int32.MAX ==> minCapacity <= r.value
  {
    if minCapacity < 0 then Err(OutOfMemory)
    else Ok(if minCapacity > MAX_ARRAY_SIZE then Int32.MAX else MAX_ARRAY_SIZE)
  }

  /** The capacity `grow` picks, as the `int` code computes it: one and a half
      times the old capacity, raised to the request, capped through
      HugeCapacity. The result may be negative; `grow` then fails in
      Arrays.copyOf. */
  function NewCapacity(oldCapacity: int, minCapacity: int): Result<int>
    requires 0 <= oldCapacity <= Int32.MAX && Int32.InRange(minCapacity)
  {
    var newCapacity := Int32.Wrap(oldCapacity + oldCapacity / 2);
    var newCapacity := if Int32.Wrap(newCapacity - minCapacity) < 0 then minCapacity else newCapacity;
    if Int32.Wrap(newCapacity - MAX_ARRAY_SIZE) > 0 then HugeCapacity(minCapacity) else Ok(newCapacity)
  }

  /** The growth rule in exact arithmetic: the larger of 1.5 x old and the
      request, unless that passes MAX_ARRAY_SIZE. */
  function IdealCapacity(oldCapacity: int, minCapacity: int): (r: int)
    requires 0 <= oldCapacity && 0 <= minCapacity <= Int32.MAX
    ensures minCapacity <= r <= Int32.MAX
    ensures oldCapacity <= r || MAX_ARRAY_SIZE <= r
  {
    var preferred := Max(oldCapacity + oldCapacity / 2, minCapacity);
    if preferred <= MAX_ARRAY_SIZE then preferred
    else if minCapacity > MAX_ARRAY_SIZE then Int32.MAX
    else MAX_ARRAY_SIZE
  }

  /** For a genuine (non-negative) request above the old capacity, the wrapped
      `int` computation agrees with the exact rule: no intermediate overflow
      leaks into the result. */
  lemma {:induction false} NewCapacityIsIdeal(oldCapacity: int, minCapacity: int)
    requires 0 <= oldCapacity < minCapacity <= Int32.MAX
    ensures NewCapacity(oldCapacity, minCapacity) == Ok(IdealCapacity(oldCapacity, minCapacity))
  {
    var grown := oldCapacity + oldCapacity / 2;
    if grown > Int32.MAX {
      assert Int32.Wrap(grown) == grown - Int32.MODULUS;
      assert Int32.Wrap(Int32.Wrap(grown) - minCapacity) == grown - minCapacity;
      if grown - minCapacity >= 0 {
        assert Int32.Wrap(Int32.Wrap(grown) - MAX_ARRAY_SIZE) == grown - MAX_ARRAY_SIZE;
      }
    }
  }

  /** `grow` is only reached when `minCapacity - capacity` (wrapped) is
      positive. A negative request that gets there always fails: with
      OutOfMemoryError from HugeCapacity or, when the wrapped comparison lets a
      negative capacity through, NegativeArraySizeException from
      Arrays.copyOf. */
  lemma {:induction false} NegativeRequestFails(oldCapacity: int, minCapacity: int)
    requires 0 <= oldCapacity <= Int32.MAX && Int32.MIN <= minCapacity < 0
    requires Int32.Wrap(minCapacity - oldCapacity) > 0
    ensures NewCapacity(oldCapacity, minCapacity).Err? || NewCapacity(oldCapacity, minCapacity).value < 0
  {
    var grown := oldCapacity + oldCapacity / 2;
    assert minCapacity - oldCapacity < Int32.MIN;
    if grown <= Int32.MAX {
      assert Int32.Wrap(grown - minCapacity) == grown - minCapacity - Int32.MODULUS;
    }
  }

  /** A request computed as `size + numNew` in `int` arithmetic, when the
      exact sum overflows, is negative and still reaches `grow`. */
  lemma {:induction false} OverflowedRequestReachesGrow(size: int, capacity: int, numNew: int)
    requires 0 <= size <= capacity <= Int32.MAX && 0 <= numNew <= Int32.MAX
    requires size + numNew > Int32.MAX
    ensures Int32.Wrap(size + numNew) < 0
    ensures Int32.Wrap(Int32.Wrap(size + numNew) - capacity) > 0
  {
    assert Int32.Wrap(size + numNew) == size + numNew - Int32.MODULUS;
    assert Int32.Wrap(size + numNew - Int32.MODULUS - capacity) == size + numNew - capacity;
  }
}
