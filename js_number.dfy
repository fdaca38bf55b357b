/** The JavaScript `number` values the calculator handles, without the
    rounding of IEEE doubles: a finite value, `NaN`, or an infinity. */
module JsNumber {

  datatype Number = Finite(value: real) | NaN | Infinity(negative: bool)

  const Zero: Number := Finite(0.0)

  /** `n < 0`; every comparison with `NaN` is false. */
  predicate IsNegative(n: Number)
  {
    match n
    case Finite(v) => v < 0.0
    case NaN => false
    case Infinity(negative) => negative
  }

  /** `Number.isInteger(n)`: finite and without a fractional part. */
  predicate IsInteger(n: Number)
  {
    n.Finite? && n.value.Floor as real == n.value
  }

  /** `NaN` and zero are the falsy numbers. */
  predicate IsFalsy(n: Number)
  {
    n.NaN? || n == Zero
  }

  /** `n || 0`: a falsy number gives `0`, any other number is kept. */
  function OrZero(n: Number): (r: Number)
    ensures !r.NaN?
    ensures IsFalsy(n) ==> r == Zero
    ensures !IsFalsy(n) ==> r == n
  {
    if IsFalsy(n) then Zero else n
  }

  function Negate(n: Number): Number
  {
    match n
    case Finite(v) => Finite(-v)
    case NaN => NaN
    case Infinity(negative) => Infinity(!negative)
  }

  /** `a + b` without rounding: `NaN` absorbs, opposite infinities give
      `NaN`, an infinity absorbs a finite value. */
  function Add(a: Number, b: Number): Number
  {
    match (a, b)
    case (NaN, _) => NaN
    case (_, NaN) => NaN
    case (Infinity(p), Infinity(q)) => if p == q then a else NaN
    case (Infinity(_), Finite(_)) => a
    case (Finite(_), Infinity(_)) => b
    case (Finite(x), Finite(y)) => Finite(x + y)
  }

  /** `a - b` is `a + (-b)`. */
  function Sub(a: Number, b: Number): Number
  {
    Add(a, Negate(b))
  }

  /** Adding a finite value and subtracting it again gives back any number,
      `NaN` and the infinities included. */
  lemma AddSubRoundTrip(m: Number, v: Number)
    requires v.Finite?
    ensures Sub(Add(m, v), v) == m
  {
  }
}
