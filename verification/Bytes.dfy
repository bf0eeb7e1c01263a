/** Machine integers, byte strings and the result type shared by every component. */
module Bytes {

  const TWO_16 := 0x1_0000
  const TWO_31 := 0x8000_0000
  const TWO_32 := 0x1_0000_0000
  const TWO_63 := 0x8000_0000_0000_0000

  type byte = x: int | 0 <= x < 256
  type uint32 = x: int | 0 <= x < 0x1_0000_0000
  type uint64 = x: int | 0 <= x < 0x1_0000_0000_0000_0000
  type int32 = x: int | -0x8000_0000 <= x < 0x8000_0000
  type int64 = x: int | -0x8000_0000_0000_0000 <= x < 0x8000_0000_0000_0000

  datatype Option<+T> = None | Some(value: T)

  datatype Result<+T, +E> = Ok(value: T) | Err(error: E)

  /** Truncation of a value to `unsigned`: reduction modulo 2^32. */
  function ToUint32(x: int): uint32
  {
    x % TWO_32
  }

  /** Conversion of a value to `int` as GCC performs it: modulo 2^32, two's complement. */
  function ToInt32(x: int): int32
  {
    var low := x % TWO_32;
    if low < TWO_31 then low else low - TWO_32
  }

  lemma CastsExact(x: int)
    ensures 0 <= x < TWO_32 ==> ToUint32(x) == x
    ensures -TWO_31 <= x < TWO_31 ==> ToInt32(x) == x
  {
  }

  lemma NonzeroMultiple(k: int, b: int)
    requires b > 0
    ensures k > 0 ==> k * b >= b
    ensures k < 0 ==> k * b <= -b
  {
    if k > 0 {
      assert (k - 1) * b >= 0;
    } else if k < 0 {
      assert (-1 - k) * b >= 0;
    }
  }

  /** The quotient and remainder of a floored division are unique. */
  lemma DivUnique(a: int, b: int, q: int, r: int)
    requires b > 0 && a == q * b + r && 0 <= r < b
    ensures a / b == q && a % b == r
  {
    var q', r' := a / b, a % b;
    assert a == q' * b + r';
    assert (q' - q) * b == r - r' by {
      assert (q' - q) * b == q' * b - q * b;
    }
    NonzeroMultiple(q' - q, b);
  }

  /** Wrapping early or late makes no difference to a sum. */
  lemma ToInt32Adds(a: int, b: int)
    ensures ToInt32(ToInt32(a) + b) == ToInt32(a + b)
  {
    var k := a / TWO_32 + if a % TWO_32 < TWO_31 then 0 else 1;
    assert ToInt32(a) == a - k * TWO_32;
    var q, r := (a + b) / TWO_32, (a + b) % TWO_32;
    assert a + b - k * TWO_32 == (q - k) * TWO_32 + r;
    DivUnique(a + b - k * TWO_32, TWO_32, q - k, r);
  }

  /** C's integer division, which truncates toward zero, for a positive divisor. */
  function TruncDiv(a: int, b: int): int
    requires b > 0
  {
    if a >= 0 then a / b else -((-a) / b)
  }

  /** C's remainder, which takes the sign of the dividend. */
  function TruncMod(a: int, b: int): int
    requires b > 0
  {
    a - TruncDiv(a, b) * b
  }
}
