/** Python's `int()` applied to a finite float, modelled over `real`.
    `int()` rounds toward zero, which differs from `Floor` on negative values. */
module Truncation {

  /** Absolute value of a real. */
  function Abs(r: real): (a: real)
    ensures 0.0 <= a
    ensures a == r || a == -r
  {
    if r < 0.0 then -r else r
  }

  /** The integer `int(r)` returns: the integer part of `r`, rounded toward zero. */
  function Trunc(r: real): (i: int)
    ensures 0.0 <= r ==> i as real <= r < i as real + 1.0
    ensures r < 0.0 ==> i as real - 1.0 < r <= i as real
  {
    if r >= 0.0 then r.Floor else -((-r).Floor)
  }

  /** Rounding toward zero moves a value by less than one and never away from zero. */
  lemma TruncNear(r: real)
    ensures Abs(Trunc(r) as real - r) < 1.0
    ensures Abs(Trunc(r) as real) <= Abs(r)
  {
  }

  /** The two bounds in `Trunc`'s contract pin the result down: any integer that
      meets them is `Trunc(r)`. */
  lemma TruncUnique(r: real, i: int)
    requires 0.0 <= r ==> i as real <= r < i as real + 1.0
    requires r < 0.0 ==> i as real - 1.0 < r <= i as real
    ensures i == Trunc(r)
  {
  }

  /** `int()` is monotone: a larger value never truncates to a smaller integer. */
  lemma TruncMonotone(a: real, b: real)
    requires a <= b
    ensures Trunc(a) <= Trunc(b)
  {
  }
}
