/**
 * Narrowing of a JSON number to the fixed-width integer kinds of the JVM.
 * A number is read as a double and then converted: `toInt()`/`intValue()` and
 * `toLong()`/`longValue()` truncate toward zero and saturate at the bounds of the
 * target width; `toShort()` after `toInt()` keeps the low 16 bits.
 */
module Numeric {

  const INT_MIN: int := -0x8000_0000
  const INT_MAX: int := 0x7fff_ffff
  const LONG_MIN: int := -0x8000_0000_0000_0000
  const LONG_MAX: int := 0x7fff_ffff_ffff_ffff
  const SHORT_MIN: int := -0x8000
  const SHORT_MAX: int := 0x7fff
  const SHORT_MODULUS: int := 0x1_0000

  /** Rounds toward zero. */
  function Truncate(x: real): (n: int)
    ensures 0.0 <= x ==> n as real <= x < n as real + 1.0
    ensures x < 0.0 ==> n as real - 1.0 < x <= n as real
  {
    if x >= 0.0 then x.Floor else -((-x).Floor)
  }

  /** Clamps `n` into `[lo, hi]`, as a JVM narrowing conversion from double does. */
  function Saturate(n: int, lo: int, hi: int): (r: int)
    requires lo <= hi
    ensures lo <= r <= hi
    ensures lo <= n <= hi ==> r == n
    ensures n < lo ==> r == lo
    ensures hi < n ==> r == hi
  {
    if n < lo then lo else if hi < n then hi else n
  }

  /** `Double.toInt()`: truncation toward zero, saturated to 32 bits. */
  function DoubleToInt(x: real): (n: int)
    ensures INT_MIN <= n <= INT_MAX
    ensures INT_MIN <= Truncate(x) <= INT_MAX ==> n == Truncate(x)
    ensures Truncate(x) < INT_MIN ==> n == INT_MIN
    ensures INT_MAX < Truncate(x) ==> n == INT_MAX
  {
    Saturate(Truncate(x), INT_MIN, INT_MAX)
  }

  /** `Double.toLong()`: truncation toward zero, saturated to 64 bits. */
  function DoubleToLong(x: real): (n: int)
    ensures LONG_MIN <= n <= LONG_MAX
    ensures LONG_MIN <= Truncate(x) <= LONG_MAX ==> n == Truncate(x)
    ensures Truncate(x) < LONG_MIN ==> n == LONG_MIN
    ensures LONG_MAX < Truncate(x) ==> n == LONG_MAX
  {
    Saturate(Truncate(x), LONG_MIN, LONG_MAX)
  }

  /** `Int.toShort()`: the low 16 bits, read as a two's-complement value. */
  function IntToShort(n: int): (s: int)
    ensures SHORT_MIN <= s <= SHORT_MAX
    ensures (s - n) % SHORT_MODULUS == 0
  {
    (n - SHORT_MIN) % SHORT_MODULUS + SHORT_MIN
  }

  /** `Double.toInt().toShort()`. */
  function DoubleToShort(x: real): (s: int)
    ensures SHORT_MIN <= s <= SHORT_MAX
    ensures SHORT_MIN <= Truncate(x) <= SHORT_MAX ==> s == Truncate(x)
    ensures (s - DoubleToInt(x)) % SHORT_MODULUS == 0
  {
    IntToShort(DoubleToInt(x))
  }

  /** The 16-bit wrap is the only value of the short range congruent to its input. */
  lemma IntToShortUnique(n: int, s: int)
    requires SHORT_MIN <= s <= SHORT_MAX
    requires (s - n) % SHORT_MODULUS == 0
    ensures IntToShort(n) == s
  {
    var w := IntToShort(n);
    assert (w - s) % SHORT_MODULUS == 0 by {
      assert (w - n) % SHORT_MODULUS == 0;
      assert w - s == (w - n) - (s - n);
    }
    assert -SHORT_MODULUS < w - s < SHORT_MODULUS;
  }

  /** A number already inside the short range survives the short narrowing unchanged. */
  lemma DoubleToShortExact(k: int)
    requires SHORT_MIN <= k <= SHORT_MAX
    ensures DoubleToShort(k as real) == k
  {
    IntToShortUnique(k, k);
  }
}
