/** JavaScript numbers, as far as the server's arithmetic on them needs:
    the result of Number(), Math.min, Math.max and `n || 0`. */
module Numbers {

  /** The result of JavaScript's Number() on a value. */
  datatype Number = NaN | PosInfinity | NegInfinity | Finite(value: real)

  /** a < b on numbers that are not NaN. */
  predicate Below(a: Number, b: Number)
    requires !a.NaN? && !b.NaN?
  {
    match (a, b)
    case (NegInfinity, NegInfinity) => false
    case (NegInfinity, _) => true
    case (_, PosInfinity) => !a.PosInfinity?
    case (Finite(x), Finite(y)) => x < y
    case _ => false
  }

  /** Math.min of two numbers: NaN if either is NaN. */
  function Min(a: Number, b: Number): Number
  {
    if a.NaN? || b.NaN? then NaN else if Below(b, a) then b else a
  }

  /** Math.max of two numbers: NaN if either is NaN. */
  function Max(a: Number, b: Number): Number
  {
    if a.NaN? || b.NaN? then NaN else if Below(a, b) then b else a
  }

  /** `n || 0`: NaN and zero are falsy and give 0. */
  function OrZero(n: Number): Number
  {
    if n.NaN? || n == Finite(0.0) then Finite(0.0) else n
  }
}
