/** Sizes, priorities and small arithmetic that several parts of the kernel share. */
module Definitions {
  type Byte = bv8

  const SECTOR_SIZE: nat := 512
  const PAGE_SIZE: nat := 4096
  const PHYS_BASE: nat := 0xC000_0000   // where the kernel's addresses begin

  const PRI_MIN: int := 0
  const PRI_MAX: int := 63

  function Min(x: int, y: int): (r: int)
    ensures x >= 0 && y >= 0 ==> r >= 0
  {
    if x < y then x else y
  }

  function Max(x: int, y: int): int {
    if x < y then y else x
  }

  function Clamp(x: int, low: int, high: int): (r: int)
    requires low <= high
    ensures low <= r <= high && (low <= x <= high ==> r == x)
  {
    if x < low then low else if x > high then high else x
  }
}
