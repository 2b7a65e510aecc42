/** src/util.rs: the tolerance test used when reading solver values. */
module Util {

  /** The tolerance of `is_zero` (the f32 literal 0.00001, taken as an exact decimal). */
  const Tolerance: real := 0.00001

  function Abs(x: real): (r: real)
    ensures r >= 0.0 && (r == x || r == -x)
  {
    if x < 0.0 then -x else x
  }

  /** `is_zero`: the magnitude is strictly below the tolerance. */
  function IsZero(n: real): (r: bool)
    ensures r <==> -Tolerance < n < Tolerance
  {
    Abs(n) < Tolerance
  }

  /** `is_zero` does not depend on the sign, and the bound itself is not zero. */
  lemma IsZeroSymmetric(n: real)
    ensures IsZero(n) == IsZero(-n)
    ensures IsZero(0.0) && !IsZero(Tolerance) && !IsZero(-Tolerance)
  {
  }
}
