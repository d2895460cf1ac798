/**
 * The part of IEEE 754 double arithmetic the crate's rescaling depends on:
 * finite values are exact reals, and a division by zero gives an infinity or
 * NaN. Every comparison with NaN is false.
 */
module Float64 {
  import Numeric

  datatype F64 = Finite(v: real) | PosInf | NegInf | NaN

  /** `a / b` for finite operands; a zero divisor is the positive zero that `x - x` gives. */
  function Quotient(a: real, b: real): (q: F64)
    ensures b != 0.0 ==> q == Finite(a / b)
    ensures b == 0.0 ==> (q.NaN? <==> a == 0.0) && (q.PosInf? <==> a > 0.0) && (q.NegInf? <==> a < 0.0)
  {
    if b != 0.0 then Finite(a / b)
    else if a > 0.0 then PosInf
    else if a < 0.0 then NegInf
    else NaN
  }

  /**
   * `a / q` for a finite `a` over any double: a finite divisor as `Quotient`,
   * an infinite one gives zero (its sign does not matter to any comparison),
   * and NaN stays NaN.
   */
  function DivBy(a: real, q: F64): (r: F64)
    ensures q.Finite? ==> r == Quotient(a, q.v)
    ensures q.PosInf? || q.NegInf? ==> r == Finite(0.0)
    ensures q.NaN? ==> r.NaN?
  {
    match q
    case Finite(v) => Quotient(a, v)
    case NaN => NaN
    case _ => Finite(0.0)
  }

  /** `q < c` for a finite `c`. */
  function Less(q: F64, c: real): (b: bool)
    ensures q.NaN? ==> !b
  {
    match q
    case Finite(v) => v < c
    case PosInf => false
    case NegInf => true
    case NaN => false
  }

  /** `q > c` for a finite `c`. */
  function Greater(q: F64, c: real): (b: bool)
    ensures q.NaN? ==> !b
  {
    match q
    case Finite(v) => v > c
    case PosInf => true
    case NegInf => false
    case NaN => false
  }

  /** Neither infinity lies in a finite closed interval, and NaN passes every interval test. */
  lemma OutsideInterval(q: F64, lo: real, hi: real)
    ensures !Less(q, lo) && !Greater(q, hi) <==> q.NaN? || (q.Finite? && lo <= q.v <= hi)
  {
  }

  /** `x.powi(2)`: the square of a finite value, an infinity for either infinity, NaN for NaN. */
  function Square(x: F64): (r: F64)
    ensures x.Finite? ==> r == Finite(x.v * x.v) && r.v >= 0.0
    ensures x.PosInf? || x.NegInf? ==> r.PosInf?
    ensures r.NaN? <==> x.NaN?
  {
    if x.Finite? then
      var sq := x.v * x.v;
      Numeric.SquareSign(x.v, sq);
      Finite(sq)
    else if x.NaN? then NaN
    else PosInf
  }

  /** `c < q` for a finite `c`. */
  function Below(c: real, q: F64): (b: bool)
    ensures q.NaN? || q.NegInf? ==> !b
    ensures q.PosInf? ==> b
  {
    match q
    case Finite(v) => c < v
    case PosInf => true
    case NegInf => false
    case NaN => false
  }

  /** `a < b`: the order of the extended reals, and false whenever either side is NaN. */
  function Lt(a: F64, b: F64): (r: bool)
    ensures a.NaN? || b.NaN? ==> !r
    ensures a.Finite? && b.Finite? ==> (r <==> a.v < b.v)
  {
    match (a, b)
    case (NaN, _) => false
    case (_, NaN) => false
    case (Finite(x), Finite(y)) => x < y
    case (NegInf, _) => !b.NegInf?
    case (_, PosInf) => !a.PosInf?
    case _ => false
  }

  /** Without NaN, `<` is a strict total order. */
  lemma LtOrder(a: F64, b: F64, c: F64)
    requires !a.NaN? && !b.NaN? && !c.NaN?
    ensures !Lt(a, a)
    ensures Lt(a, b) || a == b || Lt(b, a)
    ensures Lt(a, b) ==> !Lt(b, a)
    ensures Lt(a, b) && Lt(b, c) ==> Lt(a, c)
  {
  }
}
