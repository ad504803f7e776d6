/** The integer helpers the C# code takes from `Math`. */
module Numeric {
  /** Math.Min on integers. */
  function Min(a: int, b: int): int { if a <= b then a else b }

  /** Math.Max on integers. */
  function Max(a: int, b: int): int { if a >= b then a else b }
}
