/** JavaScript number values and the few operators on them that getRGBA relies on. */
module JsNumbers {

  /** A property read or a search that may come back empty (JavaScript's `undefined`). */
  datatype Option<T> = None | Some(value: T)

  /**
   * A JavaScript number. Finite values are kept exactly, as reals: IEEE-754
   * rounding, infinities and the sign of zero are not modelled.
   */
  datatype JsNumber = Finite(value: real) | NaN

  /** ToBoolean is false exactly for 0 and NaN. */
  predicate IsFalsy(x: JsNumber) {
    x.NaN? || x.value == 0.0
  }

  /** `x || d` where `x` is a property read that may be `undefined`. */
  function OrElse(x: Option<JsNumber>, d: JsNumber): (r: JsNumber)
    ensures x.Some? && !IsFalsy(x.value) ==> r == x.value
    ensures x.None? || IsFalsy(x.value) ==> r == d
  {
    match x
    case None => d
    case Some(v) => if IsFalsy(v) then d else v
  }

  /** `Math.min(a, b)`: NaN if either argument is NaN. */
  function Min(a: JsNumber, b: JsNumber): (r: JsNumber)
    ensures r.NaN? <==> a.NaN? || b.NaN?
    ensures r.Finite? ==> r.value <= a.value && r.value <= b.value
    ensures r.Finite? ==> r == a || r == b
  {
    if a.NaN? || b.NaN? then NaN
    else if b.value < a.value then b
    else a
  }

  /** `a * b`: NaN if either factor is NaN. */
  function Times(a: JsNumber, b: JsNumber): (r: JsNumber)
    ensures r.NaN? <==> a.NaN? || b.NaN?
    ensures r.Finite? ==> r.value == a.value * b.value
  {
    if a.NaN? || b.NaN? then NaN else Finite(a.value * b.value)
  }
}
