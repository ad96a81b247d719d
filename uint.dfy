/** Fixed-width unsigned integers of the C++ source (`uint8_t`, `uint16_t`,
    `uint32_t`) as ranges of `int`, with the modulo-2^32 wrap-around of
    `uint32_t` arithmetic written out. */
module Uint {

  const TWO_TO_32: int := 0x1_0000_0000

  newtype u8 = x: int | 0 <= x < 0x100
  newtype u16 = x: int | 0 <= x < 0x1_0000
  newtype u32 = x: int | 0 <= x < 0x1_0000_0000

  /** The `uint32_t` value of an integer expression: reduction modulo 2^32. */
  function Wrap32(x: int): (r: u32)
    ensures 0 <= x < TWO_TO_32 ==> r as int == x
  {
    (x % TWO_TO_32) as u32
  }

  /** `a += b` on a `uint32_t` left operand. */
  function AddWrap(a: u32, b: int): u32
  {
    Wrap32(a as int + b)
  }

  /** Reducing a summand modulo m before adding does not change the sum
      modulo m. */
  lemma ModAddLeft(x: int, y: int, m: int)
    requires m > 0
    ensures (x % m + y) % m == (x + y) % m
  {
    var q := x / m;
    assert x == m * q + x % m;
    ModShift(x % m + y, q, m);
  }

  /** Adding a multiple of m does not change a value modulo m. */
  lemma ModShift(y: int, q: int, m: int)
    requires m > 0
    ensures (m * q + y) % m == y % m
  {
    var a := (m * q + y) / m;
    var b := y / m;
    var k := q + b - a;
    assert m * q + y == m * a + (m * q + y) % m;
    assert y == m * b + y % m;
    assert m * k == (m * q + y) % m - y % m by {
      assert m * k == m * q + m * b - m * a;
    }
    if k > 0 {
      MulAtLeast(m, k);
    } else if k < 0 {
      MulAtLeast(m, -k);
    }
  }

  lemma MulAtLeast(m: int, k: int)
    requires m > 0 && k > 0
    ensures m * k >= m
  {
    assert m * k == m * (k - 1) + m;
    assert m * (k - 1) >= 0;
  }

  /** A `uint32_t` wrap followed by reduction modulo 2^18 is plain reduction
      modulo 2^18, because 2^18 divides 2^32. */
  lemma Wrap32Mod18(x: int)
    ensures (Wrap32(x) as int) % 0x4_0000 == x % 0x4_0000
  {
    var q := x / TWO_TO_32;
    assert x == TWO_TO_32 * q + x % TWO_TO_32;
    assert x == 0x4_0000 * (0x4000 * q) + Wrap32(x) as int;
    ModShift(Wrap32(x) as int, 0x4000 * q, 0x4_0000);
  }
}
