/** Go's fixed-width integers and truncating conversions, written out over `int` and `real`.
    A `time.Duration` is an `int` of nanoseconds; a `float64` is a `real`. */
module GoNumbers {

  const TWO_TO_63: int := 0x8000_0000_0000_0000
  const TWO_TO_64: int := 0x1_0000_0000_0000_0000
  const MAX_INT64: int := TWO_TO_63 - 1
  const NANO: int := 1_000_000_000

  type uint64 = x: int | 0 <= x < TWO_TO_64
  type int64 = x: int | -TWO_TO_63 <= x <= MAX_INT64

  /** The conversion `uint64(x)`: keep the low 64 bits. */
  function ToUint64(x: int): uint64 {
    x % TWO_TO_64
  }

  /** The conversion `int64(x)`: the low 64 bits, read as two's complement. */
  function ToInt64(x: int): (r: int)
    ensures -TWO_TO_63 <= r <= MAX_INT64
  {
    var low := x % TWO_TO_64;
    if low < TWO_TO_63 then low else low - TWO_TO_64
  }

  /** `int32(x)`, from the low 32 bits. */
  function ToInt32(x: int): int {
    var low := x % 0x1_0000_0000;
    if low < 0x8000_0000 then low else low - 0x1_0000_0000
  }

  /** Adding in 64 bits: a sum of non-negative numbers that does not fit comes out negative. */
  function AddInt64(a: int64, b: int64): (r: int64)
    ensures a >= 0 && b >= 0 ==> if a + b <= MAX_INT64 then r == a + b else r < 0
  {
    ToInt64(a + b)
  }

  lemma SignedRoundTrip(x: int64)
    ensures ToInt64(ToUint64(x)) == x
  {
  }

  lemma UnsignedRoundTrip(x: int)
    ensures ToUint64(ToInt64(x)) == x % TWO_TO_64
    ensures ToInt64(x % TWO_TO_64) == ToInt64(x)
  {
  }

  /** Go's `/` on integers truncates toward zero. */
  function TruncDiv(a: int, b: int): int
    requires b != 0
  {
    if a >= 0 then
      if b > 0 then a / b else -(a / -b)
    else
      if b > 0 then -(-a / b) else -a / -b
  }

  /** The conversion of a `float64` to an integer type truncates toward zero. */
  function Trunc(x: real): int {
    if x >= 0.0 then x.Floor else -(-x).Floor
  }

  function Max(a: int, b: int): int {
    if a >= b then a else b
  }

  function Min(a: int, b: int): int {
    if a <= b then a else b
  }

  /** A duration in nanoseconds as a number of seconds. */
  function Seconds(d: int): real {
    d as real / NANO as real
  }

  lemma SecondsAdds(a: int, b: int)
    ensures Seconds(a + b) == Seconds(a) + Seconds(b)
  {
  }

  lemma TruncIsMonotone(x: real, y: real)
    requires 0.0 <= x <= y
    ensures 0 <= Trunc(x) <= Trunc(y)
  {
  }

  /** A quotient is pinned by the interval its remainder lies in. */
  lemma QuotientIsUnique(a: int, b: int, q: int)
    requires b > 0 && q * b <= a < (q + 1) * b
    ensures a / b == q
  {
    ProductIsMonotone(q, a / b, b);
    ProductIsMonotone(a / b, q, b);
  }

  /** Multiplying by a positive number keeps and reflects the order, with a whole step to spare. */
  lemma ProductIsMonotone(x: int, y: int, b: int)
    requires b >= 0
    ensures x <= y ==> x * b <= y * b
    ensures x < y ==> x * b + b <= y * b
  {
    if x < y {
      ProductIsNatural(y - x - 1, b);
      assert y * b == x * b + b + (y - x - 1) * b;
    }
  }

  lemma ProductIsNatural(x: int, y: int)
    requires x >= 0 && y >= 0
    ensures x * y >= 0
  {
  }

  /** The floor quotient is the largest multiple that fits. */
  lemma FitsIffAtMostQuotient(a: int, b: int, q: int)
    requires b > 0
    ensures q * b <= a <==> q <= a / b
  {
    if q <= a / b {
      ProductIsMonotone(q, a / b, b);
    } else {
      ProductIsMonotone(a / b, q, b);
    }
  }

  lemma ProductIsMonotoneReal(x: real, y: real, z: real)
    requires z >= 0.0
    ensures x <= y ==> x * z <= y * z
  {
    assert y * z - x * z == (y - x) * z;
  }
}
