/** Go's fixed-width integer types, as bounded naturals, and the one conversion the core relies on. */
module Ints {

  const MaxInt64: int := 0x7FFF_FFFF_FFFF_FFFF
  const MinInt64: int := -0x8000_0000_0000_0000
  const MaxUint64: int := 0xFFFF_FFFF_FFFF_FFFF
  const MaxUint16: int := 0xFFFF

  type U8 = n: nat | n < 0x100
  type U16 = n: nat | n < 0x1_0000
  type U32 = n: nat | n < 0x1_0000_0000
  type U64 = n: nat | n <= MaxUint64

  /** Go's `int64(u)` for a `uint64` value: the bit pattern is kept, so values of 2^63 and above wrap negative. */
  function Int64Of(u: U64): (r: int)
    ensures MinInt64 <= r <= MaxInt64
    ensures u <= MaxInt64 ==> r == u
    ensures u > MaxInt64 ==> r < 0
    ensures u > MaxInt64 ==> r == u - 0x1_0000_0000_0000_0000
  {
    if u <= MaxInt64 then u else u - 0x1_0000_0000_0000_0000
  }

  /** Go's `uint16(n)` for a non-negative `int`: the low 16 bits are kept, so 2^16 becomes 0. */
  function Uint16Of(n: nat): (r: U16)
    ensures n <= MaxUint16 ==> r == n
    ensures n == MaxUint16 + 1 ==> r == 0
    ensures (n - r) % 0x1_0000 == 0
  {
    n % 0x1_0000
  }
}
