/** Fixed-width unsigned integers of the viewer, and the saturating
    arithmetic it performs on them. */
module Uint {
  const U64_MAX: nat := 0xFFFF_FFFF_FFFF_FFFF

  type u8 = x: int | 0 <= x < 0x100
  type u16 = x: int | 0 <= x < 0x1_0000
  type u64 = x: int | 0 <= x <= 0xFFFF_FFFF_FFFF_FFFF

  function Min(a: int, b: int): (m: int)
    ensures m <= a && m <= b && (m == a || m == b)
  {
    if a <= b then a else b
  }

  /** `u64::saturating_add`: the exact sum, or the largest u64 when the sum
      does not fit. */
  function SatAdd(a: u64, b: u64): (r: u64)
    ensures a <= r && b <= r
    ensures a + b <= U64_MAX ==> r == a + b
    ensures r < U64_MAX ==> r == a + b
  {
    if a + b <= U64_MAX then a + b else U64_MAX
  }

  /** `saturating_sub` on unsigned integers: the exact difference, or 0 when
      it would be negative. */
  function SatSub(a: u64, b: u64): (r: u64)
    ensures r <= a
    ensures b <= a ==> r + b == a
    ensures 0 < r ==> r + b == a
  {
    if b <= a then a - b else 0
  }
}
