/** Decision variables of a linear program (src/dsl/variables.rs): binary,
    integer and continuous variables, the latter two with optional bounds.
 */
module Vars {
  import opened Wrappers

  /** A variable constrained to be 0 or 1. */
  datatype LpBinary = LpBinary(name: string)

  /** An integer variable with optional lower and upper bounds. */
  datatype LpInteger = LpInteger(name: string, lowerBound: Option<real>, upperBound: Option<real>)

  /** A continuous variable with optional lower and upper bounds. */
  datatype LpContinuous = LpContinuous(name: string, lowerBound: Option<real>, upperBound: Option<real>)

  /** `LpInteger::new`: a named integer variable without bounds. */
  function NewInteger(name: string): (v: LpInteger)
    ensures v.name == name && v.lowerBound.None? && v.upperBound.None?
  {
    LpInteger(name, None, None)
  }

  /** `LpContinuous::new`: a named continuous variable without bounds. */
  function NewContinuous(name: string): (v: LpContinuous)
    ensures v.name == name && v.lowerBound.None? && v.upperBound.None?
  {
    LpContinuous(name, None, None)
  }

  /** `BoundableLp::lower_bound` for integers: sets the lower bound and keeps the rest. */
  function IntegerLowerBound(v: LpInteger, lw: real): (r: LpInteger)
    ensures r.name == v.name && r.lowerBound == Some(lw) && r.upperBound == v.upperBound
  {
    LpInteger(v.name, Some(lw), v.upperBound)
  }

  /** `BoundableLp::upper_bound` for integers: sets the upper bound and keeps the rest. */
  function IntegerUpperBound(v: LpInteger, up: real): (r: LpInteger)
    ensures r.name == v.name && r.lowerBound == v.lowerBound && r.upperBound == Some(up)
  {
    LpInteger(v.name, v.lowerBound, Some(up))
  }

  /** `BoundableLp::lower_bound` for continuous variables. */
  function ContinuousLowerBound(v: LpContinuous, lw: real): (r: LpContinuous)
    ensures r.name == v.name && r.lowerBound == Some(lw) && r.upperBound == v.upperBound
  {
    LpContinuous(v.name, Some(lw), v.upperBound)
  }

  /** `BoundableLp::upper_bound` for continuous variables. */
  function ContinuousUpperBound(v: LpContinuous, up: real): (r: LpContinuous)
    ensures r.name == v.name && r.lowerBound == v.lowerBound && r.upperBound == Some(up)
  {
    LpContinuous(v.name, v.lowerBound, Some(up))
  }

  /** Setting the two bounds of an integer variable commutes, and a second
      setting of the same bound replaces the first. */
  lemma IntegerBoundsCommute(v: LpInteger, lw: real, up: real, lw2: real)
    ensures IntegerUpperBound(IntegerLowerBound(v, lw), up) == IntegerLowerBound(IntegerUpperBound(v, up), lw)
    ensures IntegerLowerBound(IntegerLowerBound(v, lw), lw2) == IntegerLowerBound(v, lw2)
  {
  }

  /** The same two facts for continuous variables. */
  lemma ContinuousBoundsCommute(v: LpContinuous, lw: real, up: real, up2: real)
    ensures ContinuousUpperBound(ContinuousLowerBound(v, lw), up) == ContinuousLowerBound(ContinuousUpperBound(v, up), lw)
    ensures ContinuousUpperBound(ContinuousUpperBound(v, up), up2) == ContinuousUpperBound(v, up2)
  {
  }
}
