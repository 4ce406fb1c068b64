/**
 * Single-precision distances as the two shortest-path routines use them: a
 * finite value or positive infinity. Neither routine ever produces negative
 * infinity or NaN, so those are not represented.
 */
module Distances {

  datatype Dist = Fin(val: real) | Inf

  /** `a + b` on floats restricted to finite values and +infinity. */
  function Add(a: Dist, b: Dist): Dist
  {
    if a.Fin? && b.Fin? then Fin(a.val + b.val) else Inf
  }

  /** `a < b` on floats: infinity is above every finite value and not below itself. */
  predicate Less(a: Dist, b: Dist)
  {
    a.Fin? && (b.Inf? || a.val < b.val)
  }

  /** `a <= b` on floats. */
  predicate LessEq(a: Dist, b: Dist)
  {
    b.Inf? || (a.Fin? && a.val <= b.val)
  }
}
