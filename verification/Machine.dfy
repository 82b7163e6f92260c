/** Fixed-width arithmetic and page geometry shared by every component. */
module Machine {

  const TWO64: int := 0x1_0000_0000_0000_0000
  const UINT64_MAX: int := 0xFFFF_FFFF_FFFF_FFFF
  const PAGE_SIZE: int := 4096

  type u64 = x: int | 0 <= x < TWO64

  /** Addition on `uint64_t`: wraps modulo 2^64. */
  function Add64(a: u64, b: u64): u64
  {
    if a + b < TWO64 then a + b else a + b - TWO64
  }

  /** Subtraction on `uint64_t`. */
  function Sub64(a: u64, b: u64): u64
  {
    if a >= b then a - b else a - b + TWO64
  }

  function AlignDown(x: u64, alignment: int): u64
    requires 0 < alignment
  {
    x - x % alignment
  }

  /** `align_up`: saturates at UINT64_MAX when rounding up leaves 64 bits. */
  function AlignUp(x: u64, alignment: int): u64
    requires 0 < alignment
  {
    var rem := x % alignment;
    if rem == 0 then x
    else if x > UINT64_MAX - (alignment - rem) then UINT64_MAX
    else x + (alignment - rem)
  }

  /** `(x + PAGE_SIZE - 1) & ~(PAGE_SIZE - 1)`: wraps to 0 instead of saturating. */
  function PageUpWrapping(x: u64): u64
  {
    AlignDown(Add64(x, PAGE_SIZE - 1), PAGE_SIZE)
  }

  predicate PageAligned(x: int)
  {
    x % PAGE_SIZE == 0
  }
}
