/** The two units of the widget and the value rules attached to them: the
    range check, the clamp policy of a commit, the clamp on a unit switch and
    the step buttons' enable conditions and targets. */
module Units {

  datatype Unit = Percent | Pixel

  /** The range a unit admits: [0, 100] for percent, [0, infinity) for pixels. */
  predicate InRange(v: real, u: Unit) {
    (u == Percent && 0.0 <= v && v <= 100.0) || (u == Pixel && 0.0 <= v)
  }

  /** The value a commit writes back for the parsed number: a number the unit
      admits is kept, a negative one becomes 0, and a percentage above 100 is
      replaced by the last valid value (not by 100). */
  function Resolve(parsed: real, u: Unit, lastValid: real): (r: real)
    ensures InRange(parsed, u) ==> r == parsed
    ensures parsed < 0.0 ==> r == 0.0
    ensures u == Percent && parsed > 100.0 ==> r == lastValid
    ensures u == Pixel || InRange(lastValid, u) ==> InRange(r, u)
  {
    if u == Percent && parsed > 100.0 then lastValid
    else if parsed < 0.0 then 0.0
    else parsed
  }

  /** Applying the clamp to its own result changes nothing. */
  lemma ResolveIdempotent(parsed: real, u: Unit, lastValid: real)
    requires u == Pixel || InRange(lastValid, u)
    ensures Resolve(Resolve(parsed, u, lastValid), u, lastValid) == Resolve(parsed, u, lastValid)
  {
  }

  /** The value after switching to unit next: a value above 100 becomes
      exactly 100 when switching to percent; every other value, negative ones
      included, is kept. */
  function SwitchedValue(v: real, next: Unit): (r: real)
    ensures next == Percent && v > 100.0 ==> r == 100.0
    ensures !(next == Percent && v > 100.0) ==> r == v
    ensures 0.0 <= v ==> InRange(r, next)
  {
    if next == Percent && v > 100.0 then 100.0 else v
  }

  /** Clicking the unit that is already active changes the value no further. */
  lemma SwitchIdempotent(v: real, next: Unit)
    ensures SwitchedValue(SwitchedValue(v, next), next) == SwitchedValue(v, next)
  {
  }

  /** The decrease button is disabled at 0 under either unit. */
  predicate DecreaseDisabled(v: real) { v == 0.0 }

  /** The decrease button's target Math.max(value - 1, 0): never negative, at
      most one below, and one of the two candidates. */
  function DecreaseTarget(v: real): (r: real)
    ensures 0.0 <= r && v - 1.0 <= r
    ensures r == 0.0 || r == v - 1.0
  {
    if v - 1.0 > 0.0 then v - 1.0 else 0.0
  }

  /** For a value in range, the decrease button is disabled exactly when
      pressing it could not change the value, and its target stays in range. */
  lemma DecreaseDisabledIff(v: real, u: Unit)
    requires InRange(v, u)
    ensures DecreaseDisabled(v) <==> DecreaseTarget(v) == v
    ensures InRange(DecreaseTarget(v), u)
    ensures !DecreaseDisabled(v) ==> DecreaseTarget(v) < v
  {
  }

  /** The increase button is disabled at or above 100 under percent and never
      under pixels. */
  predicate IncreaseDisabled(v: real, u: Unit) {
    if u == Percent then v >= 100.0 else false
  }

  /** The increase button's target: value + 1 under pixels; under percent
      Math.min(value + 1, 100), which never exceeds 100. */
  function IncreaseTarget(v: real, u: Unit): (r: real)
    ensures u == Pixel ==> r == v + 1.0
    ensures u == Percent ==> r <= 100.0 && r <= v + 1.0 && (r == 100.0 || r == v + 1.0)
  {
    if u == Percent then (if v + 1.0 < 100.0 then v + 1.0 else 100.0) else v + 1.0
  }

  /** For a value in range, the increase button is disabled exactly when
      pressing it could not change the value, and its target stays in range. */
  lemma IncreaseDisabledIff(v: real, u: Unit)
    requires InRange(v, u)
    ensures IncreaseDisabled(v, u) <==> IncreaseTarget(v, u) == v
    ensures InRange(IncreaseTarget(v, u), u)
    ensures !IncreaseDisabled(v, u) ==> IncreaseTarget(v, u) > v
    ensures u == Pixel ==> !IncreaseDisabled(v, u)
  {
  }
}
