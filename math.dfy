/** Small arithmetic helpers shared by the modules. */
module Math {
  /** `Math.min` on two integers; also the clipping `slice` applies to an end index. */
  function Min(a: int, b: int): int { if a <= b then a else b }
}
