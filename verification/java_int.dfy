/** Java's fixed-width integer arithmetic over Dafny's unbounded integers:
    two's-complement wrap-around of `int` and `long`, and the truncating
    division of `/` on negative operands. */
module JavaInt {

  const TWO_31: int := 0x8000_0000
  const TWO_32: int := 0x1_0000_0000
  const TWO_63: int := 0x8000_0000_0000_0000
  const TWO_64: int := 0x1_0000_0000_0000_0000

  predicate IsInt32(x: int) {
    -TWO_31 <= x < TWO_31
  }

  predicate IsInt64(x: int) {
    -TWO_63 <= x < TWO_63
  }

  /** The values a Java `int` can hold. */
  type Int32 = x: int | IsInt32(x)

  /** The values a Java `long` can hold. */
  type Int64 = x: int | IsInt64(x)

  /** The Java `int` holding the low 32 bits of `x`: the unique 32-bit value
      congruent to `x` modulo 2^32. */
  function Wrap32(x: int): (r: int)
    ensures IsInt32(r)
    ensures (x - r) % TWO_32 == 0
    ensures IsInt32(x) ==> r == x
  {
    var m := x % TWO_32;
    if m >= TWO_31 then m - TWO_32 else m
  }

  /** The Java `long` holding the low 64 bits of `x`. */
  function Wrap64(x: int): (r: int)
    ensures IsInt64(r)
    ensures (x - r) % TWO_64 == 0
    ensures IsInt64(x) ==> r == x
  {
    var m := x % TWO_64;
    if m >= TWO_63 then m - TWO_64 else m
  }

  /** Java's integer division by a positive divisor, which truncates toward
      zero (Dafny's `/` floors). */
  function Quot(a: int, b: int): (q: int)
    requires b > 0
    ensures a >= 0 ==> 0 <= a - q * b < b
    ensures a < 0 ==> -b < a - q * b <= 0
    ensures a >= 0 ==> q >= 0
    ensures a <= 0 ==> q <= 0
  {
    if a >= 0 then a / b else -((-a) / b)
  }

  /** Wrapping is compatible with the ring operations used by an `int`
      accumulator: reducing before a multiply-add gives the same int. */
  lemma Wrap32MulAdd(x: int, k: int, c: int)
    ensures Wrap32(k * Wrap32(x) + c) == Wrap32(k * x + c)
  {
    var d := x - Wrap32(x);
    assert d % TWO_32 == 0;
    var n := d / TWO_32;
    assert d == n * TWO_32;
    assert k * x + c == (k * Wrap32(x) + c) + (k * n) * TWO_32;
    ModShift(k * Wrap32(x) + c, k * n);
  }

  lemma ModShift(a: int, n: int)
    ensures (a + n * TWO_32) % TWO_32 == a % TWO_32
  {
  }
}
