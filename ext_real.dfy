/** The real numbers extended with the special values a floating-point
    vector operation can produce: the routines divide by zero and take the
    logarithm of zero on purpose and then drop or replace the NaN that comes
    out, so those steps are modelled as explicit cases rather than left to
    floating-point behaviour. Rounding is not modelled: finite values are
    exact reals. */
module ExtReal {

  datatype Ext = Fin(v: real) | PosInf | NegInf | NaN

  /** x / y on finite operands: 0/0 is NaN, a non-zero numerator over zero
      is an infinity of the numerator's sign. */
  function Div(x: real, y: real): Ext
  {
    if y != 0.0 then Fin(x / y)
    else if x == 0.0 then NaN
    else if 0.0 < x then PosInf
    else NegInf
  }

  /** A logarithm lifted to Ext, given the logarithm `log` of positive reals:
      log(0) is -inf, the log of a negative number or of -inf is NaN. */
  function LogExt(log: real -> real, x: Ext): Ext
  {
    match x
    case Fin(v) => if 0.0 < v then Fin(log(v)) else if v == 0.0 then NegInf else NaN
    case PosInf => PosInf
    case NegInf => NaN
    case NaN => NaN
  }

  /** a * x for a finite a: 0 times an infinity is NaN. */
  function MulExt(a: real, x: Ext): Ext
  {
    match x
    case Fin(v) => Fin(a * v)
    case NaN => NaN
    case PosInf => if a == 0.0 then NaN else if 0.0 < a then PosInf else NegInf
    case NegInf => if a == 0.0 then NaN else if 0.0 < a then NegInf else PosInf
  }

  /** NaN replaced by r; every other value kept (what filling the missing
      values of a frame or array with r does to one entry). */
  function FillNaN(x: Ext, r: real): Ext
  {
    if x.NaN? then Fin(r) else x
  }
}
