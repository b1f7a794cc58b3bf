/** The Python float arithmetic `contains_coord` performs once `float('inf')` enters it: exact
    integer values, the two infinities and NaN, with IEEE 754 rules for `-`, `*` and comparison. */
module Floats {
  /** A Python number of the ray cast: an integer-valued finite float, an infinity or NaN. */
  datatype Float = Fin(v: int) | PosInf | NegInf | NaN

  /** Strictly above zero. */
  predicate Positive(a: Float) {
    a.PosInf? || (a.Fin? && a.v > 0)
  }

  function Neg(a: Float): Float {
    match a
    case Fin(v) => Fin(-v)
    case PosInf => NegInf
    case NegInf => PosInf
    case NaN => NaN
  }

  /** `a + b`: NaN absorbs, opposite infinities give NaN, an infinity absorbs a finite value. */
  function Add(a: Float, b: Float): (r: Float)
    ensures a.Fin? && b.Fin? ==> r == Fin(a.v + b.v)
    ensures (a.NaN? || b.NaN?) ==> r.NaN?
  {
    if a.NaN? || b.NaN? then NaN
    else if a.Fin? && b.Fin? then Fin(a.v + b.v)
    else if a.Fin? then b
    else if b.Fin? || a == b then a
    else NaN
  }

  /** `a - b`. */
  function Sub(a: Float, b: Float): (r: Float)
    ensures a.Fin? && b.Fin? ==> r == Fin(a.v - b.v)
    ensures (a.NaN? || b.NaN?) ==> r.NaN?
  {
    Add(a, Neg(b))
  }

  /** `a * b`: NaN absorbs, zero times an infinity is NaN, otherwise an infinity signed by the factors. */
  function Mul(a: Float, b: Float): (r: Float)
    ensures a.Fin? && b.Fin? ==> r == Fin(a.v * b.v)
    ensures (a.NaN? || b.NaN?) ==> r.NaN?
  {
    if a.NaN? || b.NaN? then NaN
    else if a.Fin? && b.Fin? then Fin(a.v * b.v)
    else if a == Fin(0) || b == Fin(0) then NaN
    else if Positive(a) == Positive(b) then PosInf
    else NegInf
  }

  /** `a == b`: false whenever NaN takes part. */
  predicate Eq(a: Float, b: Float) {
    !a.NaN? && !b.NaN? && a == b
  }

  /** `a < b`: the order of the extended integers; false whenever NaN takes part. */
  predicate Lt(a: Float, b: Float) {
    if a.NaN? || b.NaN? then false
    else if a.Fin? && b.Fin? then a.v < b.v
    else (a.NegInf? && !b.NegInf?) || (b.PosInf? && !a.PosInf?)
  }

  /** `a <= b`. */
  predicate Le(a: Float, b: Float) {
    Lt(a, b) || Eq(a, b)
  }

  /** `max(a, b)`: Python keeps the first argument unless the second is greater. */
  function PyMax(a: Float, b: Float): Float {
    if Lt(a, b) then b else a
  }

  /** `min(a, b)`: Python keeps the first argument unless the second is smaller. */
  function PyMin(a: Float, b: Float): Float {
    if Lt(b, a) then b else a
  }
}
