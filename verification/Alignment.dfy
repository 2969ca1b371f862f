/** Rounding sizes and addresses up to words of 8 bytes. */
module Alignment {

  /** The next multiple of 8. */
  function Align8(n: int): int { (n + 7) / 8 * 8 }
}
