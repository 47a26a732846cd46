/** The outcomes of a single-precision division whose operands are small
    integers, as IEEE 754 defines them for a divisor of +0. Operands of this
    size are exact in single precision, and the rounding of a finite quotient
    is not modelled: a finite quotient is the exact rational one. */
module FloatValue {

  datatype Float = Finite(value: real) | NaN | PosInf | NegInf

  /** `n / d` where a zero divisor is +0: 0/0 is NaN, and a nonzero numerator
      over zero gives the infinity of its sign. */
  function Divide(n: real, d: real): (q: Float)
    ensures q.Finite? <==> d != 0.0
    ensures q.NaN? <==> d == 0.0 && n == 0.0
    ensures q.PosInf? <==> d == 0.0 && n > 0.0
  {
    if d != 0.0 then Finite(n / d)
    else if n == 0.0 then NaN
    else if n > 0.0 then PosInf
    else NegInf
  }
}
