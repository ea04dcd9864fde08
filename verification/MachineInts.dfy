/** The fixed-width integers the program computes with, and its wrapping and saturating operators. */
module MachineInts {
  const U32_MAX: int := 0xFFFF_FFFF
  const U64_MAX: int := 0xFFFF_FFFF_FFFF_FFFF
  const I64_MAX: int := 0x7FFF_FFFF_FFFF_FFFF
  const I64_MIN: int := -0x8000_0000_0000_0000
  const TWO_TO_THE_64: int := 0x1_0000_0000_0000_0000

  type uint32 = x: int | 0 <= x <= U32_MAX
  type uint64 = x: int | 0 <= x <= U64_MAX
  type int64 = x: int | I64_MIN <= x <= I64_MAX

  /** Two's-complement wrap-around, as `fetch_add` and `fetch_sub` on an `i64` behave. */
  function Wrap64(x: int): (r: int64)
    ensures I64_MIN <= x <= I64_MAX ==> r == x
    ensures (r - x) % TWO_TO_THE_64 == 0
  {
    (x - I64_MIN) % TWO_TO_THE_64 + I64_MIN
  }

  /** `i64::saturating_add`. */
  function SaturatingAdd64(x: int64, y: int64): (r: int64)
    ensures I64_MIN <= x + y <= I64_MAX ==> r == x + y
    ensures x + y > I64_MAX ==> r == I64_MAX
    ensures x + y < I64_MIN ==> r == I64_MIN
  {
    if x + y > I64_MAX then I64_MAX else if x + y < I64_MIN then I64_MIN else x + y
  }

  /** `fetch_add(1)` on a `u32`. */
  function WrappingIncrement(x: uint32): (r: uint32)
    ensures r == (x + 1) % (U32_MAX + 1)
  {
    if x == U32_MAX then 0 else x + 1
  }

  /** A wrapping counter follows the number it counts modulo 2^32. */
  lemma WrappedCount(n: nat, counter: uint32)
    requires counter == n % (U32_MAX + 1)
    ensures WrappingIncrement(counter) == (n + 1) % (U32_MAX + 1)
  {
  }

  /** `u32::saturating_add(1)`. */
  function SaturatingIncrement(x: uint32): (r: uint32)
    ensures x <= r <= x + 1 && (r == x ==> x == U32_MAX)
  {
    if x == U32_MAX then x else x + 1
  }

  /** `u64::saturating_add`. */
  function SaturatingAddU64(x: uint64, y: uint64): (r: uint64)
    ensures r == x + y || (r == U64_MAX && x + y > U64_MAX)
  {
    if x + y > U64_MAX then U64_MAX else x + y
  }
}
