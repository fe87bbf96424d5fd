/** The machine types the programs use. */
module CTypes {
  type Byte = b: int | 0 <= b < 256

  /** size_t and ssize_t are 64 bits wide. */
  const SIZE_RANGE: int := 0x1_0000_0000_0000_0000
  const SSIZE_LIMIT: int := 0x8000_0000_0000_0000

  type Size = n: int | 0 <= n < SIZE_RANGE
  type SSize = n: int | -SSIZE_LIMIT <= n < SSIZE_LIMIT

  /** unsigned int is 32 bits wide. */
  const UINT_RANGE: int := 0x1_0000_0000
  type UInt = n: int | 0 <= n < UINT_RANGE

  /** ++ on an unsigned int. */
  function Increment(n: UInt): UInt {
    if n + 1 == UINT_RANGE then 0 else n + 1
  }
}
