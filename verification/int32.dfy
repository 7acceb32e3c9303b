/** Java `int` arithmetic: 32-bit two's complement, wrapping on overflow.
    Only the capacity computation of ArrayList and the midpoint of its
    spliterator depend on it; everywhere else integers are unbounded. */
module Int32 {

  const MIN: int := -0x8000_0000
  const MAX: int := 0x7fff_ffff
  const MODULUS: int := 0x1_0000_0000

  predicate InRange(x: int) {
    MIN <= x <= MAX
  }

  /** The Java `int` whose bit pattern is the low 32 bits of `x`: the result of
      an `int` addition or subtraction whose exact value is `x`. */
  function Wrap(x: int): (r: int)
    ensures InRange(r)
    ensures (x - r) % MODULUS == 0
    ensures InRange(x) ==> r == x
    ensures MAX < x <= MAX + MODULUS ==> r == x - MODULUS
    ensures MIN - MODULUS <= x < MIN ==> r == x + MODULUS
  {
    var m := x % MODULUS;
    if m > MAX then m - MODULUS else m
  }

  /** `x >>> 1`: the bit pattern of `x` read as unsigned, halved. */
  function UnsignedShiftRight1(x: int): (r: int)
    requires InRange(x)
    ensures 0 <= r <= MAX
    ensures 0 <= x ==> r == x / 2
    ensures x < 0 ==> r == (x + MODULUS) / 2
  {
    (x % MODULUS) / 2
  }

  /** The `(lo + hi) >>> 1` idiom finds the true midpoint of two non-negative
      `int`s even when `lo + hi` overflows. */
  lemma {:induction false} MidpointNoOverflow(lo: int, hi: int)
    requires 0 <= lo <= MAX && 0 <= hi <= MAX
    ensures UnsignedShiftRight1(Wrap(lo + hi)) == (lo + hi) / 2
  {
    if lo + hi > MAX {
      assert Wrap(lo + hi) == lo + hi - MODULUS;
    }
  }
}
