/** The whole-number helpers of JavaScript's `Math` that several components use. */
module Arithmetic {
  function Min(a: int, b: int): int {
    if a <= b then a else b
  }

  function Max(a: int, b: int): int {
    if a >= b then a else b
  }

  /** `Math.ceil(ms / 1000)` */
  function CeilSeconds(ms: int): int {
    -((-ms) / 1000)
  }

  lemma CeilSecondsMeans(ms: int)
    ensures (CeilSeconds(ms) - 1) * 1000 < ms <= CeilSeconds(ms) * 1000
  {
  }
}
