/** JavaScript numbers as they reach the workout form: a finite value, `NaN`
    (what unary `+` makes of text that is not a number), or an infinity.
    Floating-point rounding is not modelled: finite values are `real`s. */
module JsNumber {

  datatype Num = Finite(value: real) | NaN | PosInf | NegInf

  /** `Number.isFinite(x)`. */
  predicate IsFinite(x: Num) {
    x.Finite?
  }

  /** The comparison `x > 0`: false for `NaN` and `-Infinity`, true for `+Infinity`. */
  predicate GreaterThanZero(x: Num) {
    match x
    case Finite(v) => v > 0.0
    case PosInf => true
    case _ => false
  }

  /** `Array.prototype.every`: tests the elements left to right and stops at
      the first one that fails. */
  function Every<T>(xs: seq<T>, p: T -> bool): (r: bool)
    ensures r <==> forall i :: 0 <= i < |xs| ==> p(xs[i])
  {
    if |xs| == 0 then true
    else if !p(xs[0]) then false
    else
      var rest := Every(xs[1..], p);
      assert forall i :: 1 <= i < |xs| ==> xs[i] == xs[1..][i - 1];
      rest
  }

  /** IEEE division `a / b` of two finite operands, without rounding: a finite
      quotient unless the divisor is zero, then `NaN` for 0/0 and an infinity
      carrying the sign of the dividend otherwise (signed zero is not modelled). */
  function Divide(a: real, b: real): (r: Num)
    ensures r.Finite? <==> b != 0.0
    ensures r.Finite? ==> r.value * b == a
    ensures r.NaN? <==> a == 0.0 && b == 0.0
    ensures r.PosInf? <==> a > 0.0 && b == 0.0
    ensures a > 0.0 && b > 0.0 ==> r.Finite? && r.value > 0.0
  {
    if b != 0.0 then Finite(a / b)
    else if a == 0.0 then NaN
    else if a > 0.0 then PosInf
    else NegInf
  }
}
