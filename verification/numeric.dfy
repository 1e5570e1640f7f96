/** The game's small numeric helpers: `clamp`, and Python's `int()` applied
    to the two health formulas, which truncates toward zero. Health is a
    Python `int` that nothing stops from going negative, so the truncation is
    written out for both signs. */
module Numeric {

  function Max(a: real, b: real): real { if a >= b then a else b }
  function Min(a: real, b: real): real { if a <= b then a else b }

  /** `max(lo, min(val, hi))`: the value pulled into `[lo, hi]`. */
  function Clamp(val: real, lo: real, hi: real): (r: real)
    ensures lo <= hi ==> lo <= r <= hi
    ensures lo <= val <= hi ==> r == val
    ensures val <= lo ==> r == lo
    ensures lo <= hi <= val ==> r == hi
    ensures hi < lo ==> r == lo
  {
    Max(lo, Min(val, hi))
  }

  /** Clamping a clamped value changes nothing. */
  lemma ClampIdempotent(val: real, lo: real, hi: real)
    ensures Clamp(Clamp(val, lo, hi), lo, hi) == Clamp(val, lo, hi)
  {
  }

  /** Clamping never moves a value away from the interval: the result is at
      least as close to every point of `[lo, hi]` as `val` was. */
  lemma ClampMovesToward(val: real, lo: real, hi: real, x: real)
    requires lo <= x <= hi
    ensures Max(Clamp(val, lo, hi) - x, x - Clamp(val, lo, hi)) <= Max(val - x, x - val)
  {
  }

  /** `int(n / 2)` in Python: the half of `n`, rounded toward zero. */
  function TruncHalf(n: int): (r: int)
    ensures 0 <= n ==> 2 * r <= n < 2 * r + 2
    ensures n < 0 ==> 2 * r - 2 < n <= 2 * r
  {
    if n >= 0 then n / 2 else -((-n) / 2)
  }

  /** `int(0.25 * n)` in Python: the quarter of `n`, rounded toward zero. */
  function TruncQuarter(n: int): (r: int)
    ensures 0 <= n ==> 4 * r <= n < 4 * r + 4
    ensures n < 0 ==> 4 * r - 4 < n <= 4 * r
  {
    if n >= 0 then n / 4 else -((-n) / 4)
  }

  /** Truncation is odd-symmetric: `int(-x) == -int(x)`. */
  lemma TruncSymmetric(n: int)
    ensures TruncHalf(-n) == -TruncHalf(n)
    ensures TruncQuarter(-n) == -TruncQuarter(n)
  {
  }
}
