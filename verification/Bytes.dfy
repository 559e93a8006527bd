/** Machine integers as subsets of the integers. */
module Bytes {
  type byte = b: int | 0 <= b < 256
  type word = w: int | 0 <= w < 0x1_0000_0000

  /** A 32-bit word read as a two's complement number. */
  function Signed(w: word): int { if w < 0x8000_0000 then w else w - 0x1_0000_0000 }
}
