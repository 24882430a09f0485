/** Small shared vocabulary: an optional value, absolute value, and the
    contract of the platform square root that the physics relies on. */
module Basics {

  datatype Option<T> = None | Some(value: T)

  function Abs(r: real): (a: real)
    ensures a >= 0.0
    ensures a == r || a == -r
  {
    if r < 0.0 then -r else r
  }

  /** What the model assumes of the host's square root: on a positive
      argument it returns the positive root. The root itself is supplied by
      the caller (it is a function of the platform, not of this program). */
  ghost predicate IsSqrt(sqrt: real -> real)
  {
    forall d: real :: d > 0.0 ==> sqrt(d) > 0.0 && sqrt(d) * sqrt(d) == d
  }
}
