/** The remainder operator of the script. */
module Remainders {
  /** The remainder keeps the sign of the dividend. */
  function Remainder(x: int, m: int): int
    requires m > 0
  {
    if x >= 0 then x % m else -((-x) % m)
  }
}
