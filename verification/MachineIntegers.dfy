/** Go's fixed-width integers, written as bounded mathematical integers with explicit wrap-around. */
module MachineIntegers {

  const TWO_31: int := 0x8000_0000
  const TWO_32: int := 0x1_0000_0000
  const TWO_63: int := 0x8000_0000_0000_0000
  const TWO_64: int := 0x1_0000_0000_0000_0000

  const MAX_INT32: int := TWO_31 - 1
  const MIN_INT64: int := -TWO_63
  const MAX_INT64: int := TWO_63 - 1
  const MAX_UINT64: int := TWO_64 - 1

  newtype byte = x: int | 0 <= x < 0x100
  type uint32 = x: int | 0 <= x < 0x1_0000_0000
  type uint64 = x: int | 0 <= x < 0x1_0000_0000_0000_0000
  type int32 = x: int | -0x8000_0000 <= x < 0x8000_0000
  type int64 = x: int | -0x8000_0000_0000_0000 <= x < 0x8000_0000_0000_0000

  /** The value of any integer expression computed in `uint64`. */
  function Wrap64(x: int): uint64 {
    x % TWO_64
  }

  /** The value of any integer expression computed in, or converted to, `int64`. */
  function ToInt64(x: int): int64 {
    var u := x % TWO_64;
    if u < TWO_63 then u else u - TWO_64
  }

  /** The value of any integer expression computed in, or converted to, `int32`. */
  function ToInt32(x: int): int32 {
    var u := x % TWO_32;
    if u < TWO_31 then u else u - TWO_32
  }

  /** The value of any integer converted to `uint32`. */
  function ToUint32(x: int): uint32 {
    x % TWO_32
  }

  predicate FitsInt64(x: int) {
    MIN_INT64 <= x <= MAX_INT64
  }

  function Pow2(n: nat): (p: nat)
    ensures p > 0
  {
    if n == 0 then 1 else 2 * Pow2(n - 1)
  }

  /** Quotient and remainder are unique. */
  lemma DivModUnique(x: int, q: int, r: int, m: int)
    requires m > 0 && 0 <= r < m && x == q * m + r
    ensures x / m == q && x % m == r
  {
    SameQuotient(q, r, x / m, x % m, m);
  }

  lemma SameQuotient(q: int, r: int, q': int, r': int, m: int)
    requires m > 0 && 0 <= r < m && 0 <= r' < m
    requires q * m + r == q' * m + r'
    ensures q == q' && r == r'
  {
    var d := q - q';
    assert d * m == q * m - q' * m;
    if d > 0 {
      MulAtLeast(d, m);
    } else if d < 0 {
      MulAtLeast(-d, m);
    }
  }

  lemma MulAtLeast(d: int, m: int)
    requires d > 0 && m > 0
    ensures d * m >= m
  {
  }

  /** Two integers that differ by a multiple of `m` have the same residue. */
  lemma ResidueShift(x: int, k: int, m: int)
    requires m > 0
    ensures (x + k * m) % m == x % m
  {
    var q, r := x / m, x % m;
    assert (q + k) * m == q * m + k * m;
    DivModUnique(x + k * m, q + k, r, m);
  }

  lemma Wrap64Identity(x: uint64)
    ensures Wrap64(x) == x
  {
  }

  /** Removing whole multiples of 2^64 leaves the wrapped value. */
  lemma Wrap64Unique(x: int, h: int, r: int)
    requires x == h * TWO_64 + r && 0 <= r < TWO_64
    ensures Wrap64(x) == r
  {
    DivModUnique(x, h, r, TWO_64);
  }
}
