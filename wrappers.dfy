/** Optional values, and the integer operators the JavaScript code relies on. */
module Wrappers {

  /** A JavaScript value that may be `undefined`, `null` or "". */
  datatype Option<+T> = None | Some(value: T)

  /** `Math.max` on two integers. */
  function Max(a: int, b: int): int { if a < b then b else a }

  /** `Math.min` on two integers. */
  function Min(a: int, b: int): int { if a < b then a else b }

  /**
   * JavaScript's `a % b` for a positive divisor: the remainder takes the sign
   * of the dividend (division truncates toward zero), unlike Dafny's `%`.
   */
  function JsRem(a: int, b: int): (r: int)
    requires b > 0
    ensures a >= 0 ==> r == a % b
    ensures -b < r < b && (r == 0 || (r < 0 <==> a < 0))
  {
    if a >= 0 then a % b else -((-a) % b)
  }
}
