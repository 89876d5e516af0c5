/** Java's 32-bit `int`, with the two's-complement wrap-around of its arithmetic. */
module JavaInt {

  const MIN_INT: int := -0x8000_0000
  const MAX_INT: int := 0x7fff_ffff

  /** The values of a Java `int`. */
  type int32 = x: int | -0x8000_0000 <= x <= 0x7fff_ffff

  /** Adding one to a Java `int`, as `AtomicInteger.incrementAndGet` does:
      past `Integer.MAX_VALUE` it wraps to `Integer.MIN_VALUE`. */
  function Increment(x: int32): (r: int32)
    ensures x < MAX_INT ==> r == x + 1 && r > x
    ensures x == MAX_INT ==> r == MIN_INT && r < x
  {
    if x == MAX_INT then MIN_INT else x + 1
  }

  /** `Increment` is addition modulo 2^32: it differs from the exact sum by a
      multiple of 2^32, and it is the only Java `int` that does. */
  lemma IncrementIsModular(x: int32, y: int32)
    ensures (x + 1 - Increment(x)) % 0x1_0000_0000 == 0
    ensures (x + 1 - y) % 0x1_0000_0000 == 0 ==> y == Increment(x)
  {
    if (x + 1 - y) % 0x1_0000_0000 == 0 {
      var q := (x + 1 - y) / 0x1_0000_0000;
      assert x + 1 - y == q * 0x1_0000_0000;
      assert -1 <= q <= 1;
    }
  }
}
