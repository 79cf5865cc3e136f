/** The numbers the RealTree calculator computes with: C# `double`, with its
    infinities and NaN, but with every finite result kept exact (no rounding,
    no overflow, no signed zero). Division by zero is not an error: it yields
    an infinity or NaN, as IEEE 754 prescribes. */
module Values {

  datatype Double = Finite(r: real) | PosInf | NegInf | NaN

  /** The `0.0` the top-level evaluation returns after a failure. */
  const Zero: Double := Finite(0.0)

  /** -1, 0 or 1; NaN counts as 0 (it never reaches the callers that use this). */
  function Sign(x: Double): int
  {
    match x
    case Finite(a) => if a > 0.0 then 1 else if a < 0.0 then -1 else 0
    case PosInf => 1
    case NegInf => -1
    case NaN => 0
  }

  function Infinity(sign: int): Double
  {
    if sign > 0 then PosInf else NegInf
  }

  /** Unary minus. */
  function Neg(x: Double): (r: Double)
    ensures r.Finite? == x.Finite? && r.NaN? == x.NaN?
    ensures x.Finite? ==> r == Finite(-x.r)
    ensures Sign(r) == -Sign(x)
  {
    match x
    case Finite(a) => Finite(-a)
    case PosInf => NegInf
    case NegInf => PosInf
    case NaN => NaN
  }

  /** `+`: exact on finite operands; an infinity absorbs a finite operand;
      NaN, and the sum of opposite infinities, give NaN. */
  function Add(x: Double, y: Double): (r: Double)
    ensures x.NaN? || y.NaN? ==> r.NaN?
    ensures x.Finite? && y.Finite? ==> r == Finite(x.r + y.r)
    ensures !x.Finite? && !x.NaN? && y.Finite? ==> r == x
    ensures x.Finite? && !y.Finite? && !y.NaN? ==> r == y
    ensures x == y && (x == PosInf || x == NegInf) ==> r == x
    ensures (x == PosInf && y == NegInf) || (x == NegInf && y == PosInf) ==> r.NaN?
  {
    match (x, y)
    case (Finite(a), Finite(b)) => Finite(a + b)
    case (NaN, _) => NaN
    case (_, NaN) => NaN
    case (Finite(_), _) => y
    case (_, Finite(_)) => x
    case _ => if x == y then x else NaN
  }

  /** `-`: exact on finite operands; an infinity less itself is NaN. */
  function Sub(x: Double, y: Double): (r: Double)
    ensures x.NaN? || y.NaN? ==> r.NaN?
    ensures x.Finite? && y.Finite? ==> r == Finite(x.r - y.r)
    ensures !x.Finite? && x == y ==> r.NaN?
  {
    Add(x, Neg(y))
  }

  /** `*`: exact on finite operands; zero times an infinity is NaN, and an
      infinity times a non-zero number is an infinity of the product's sign. */
  function Mul(x: Double, y: Double): (r: Double)
    ensures x.NaN? || y.NaN? ==> r.NaN?
    ensures x.Finite? && y.Finite? ==> r == Finite(x.r * y.r)
    ensures (x == Zero && (y == PosInf || y == NegInf)) || (y == Zero && (x == PosInf || x == NegInf)) ==> r.NaN?
    ensures (x == PosInf || x == NegInf) && !y.NaN? && Sign(y) != 0 ==> r == Infinity(Sign(x) * Sign(y))
    ensures (y == PosInf || y == NegInf) && !x.NaN? && Sign(x) != 0 ==> r == Infinity(Sign(x) * Sign(y))
  {
    match (x, y)
    case (Finite(_), Finite(_)) => Finite(x.r * y.r)
    case (NaN, _) => NaN
    case (_, NaN) => NaN
    case _ => if Sign(x) * Sign(y) == 0 then NaN else Infinity(Sign(x) * Sign(y))
  }

  /** `/`: exact on finite operands with a non-zero divisor; a finite number
      over an infinity is zero, and an infinity over an infinity is NaN. */
  function Div(x: Double, y: Double): (r: Double)
    ensures x.NaN? || y.NaN? ==> r.NaN?
    ensures x.Finite? && y.Finite? && y.r != 0.0 ==> r == Finite(x.r / y.r)
    ensures x.Finite? && (y == PosInf || y == NegInf) ==> r == Zero
    ensures (x == PosInf || x == NegInf) && (y == PosInf || y == NegInf) ==> r.NaN?
  {
    match (x, y)
    case (Finite(a), Finite(b)) =>
      if b != 0.0 then Finite(a / b)
      else if a == 0.0 then NaN
      else Infinity(Sign(x))
    case (NaN, _) => NaN
    case (_, NaN) => NaN
    case (Finite(_), _) => Zero
    case (_, Finite(b)) => Infinity(Sign(x) * (if b < 0.0 then -1 else 1))
    case _ => NaN
  }

  /** The integer part of `q`, rounding toward zero. */
  function Trunc(q: real): (t: int)
    ensures q >= 0.0 ==> t as real <= q < t as real + 1.0
    ensures q <= 0.0 ==> t as real - 1.0 < q <= t as real
  {
    if q >= 0.0 then q.Floor else -((-q).Floor)
  }

  /** The C# `%` on doubles: the remainder of a division truncated toward
      zero, so it takes the sign of the dividend (not Euclidean modulo). */
  function Rem(x: Double, y: Double): (r: Double)
    ensures x.NaN? || y.NaN? || x == PosInf || x == NegInf || y == Zero ==> r.NaN?
    ensures x.Finite? && (y == PosInf || y == NegInf) ==> r == x
    ensures x.Finite? && y.Finite? && y.r != 0.0 ==> r.Finite?
  {
    match (x, y)
    case (Finite(a), Finite(b)) => if b == 0.0 then NaN else Finite(a - b * Trunc(a / b) as real)
    case (Finite(_), PosInf) => x
    case (Finite(_), NegInf) => x
    case _ => NaN
  }

  /** `1 / 0` is positive infinity and `0 / 0` is NaN: neither is an error. */
  lemma DivisionByZero(a: real)
    ensures a > 0.0 ==> Div(Finite(a), Zero) == PosInf
    ensures a < 0.0 ==> Div(Finite(a), Zero) == NegInf
    ensures Div(Zero, Zero) == NaN
  {
  }

  /** A number scaled by a factor strictly between -1 and 1 shrinks in magnitude. */
  lemma ScaledBelow(b: real, f: real, m: real)
    requires b != 0.0 && -1.0 < f < 1.0 && m == b * f
    ensures if b > 0.0 then -b < m < b else b < m < -b
  {
    if b > 0.0 {
      assert b - b * f == b * (1.0 - f) > 0.0;
      assert b + b * f == b * (1.0 + f) > 0.0;
    } else {
      assert b * f - b == -b * (1.0 - f) > 0.0;
      assert -b - b * f == -b * (1.0 + f) > 0.0;
    }
  }

  /** Scaling `t` and `f`, which never have opposite signs, by the same `b`
      gives products that never have opposite signs. */
  lemma ScaledSameSign(b: real, t: real, f: real, a: real, m: real)
    requires t >= 0.0 ==> f >= 0.0
    requires t <= 0.0 ==> f <= 0.0
    requires a == b * t && m == b * f
    ensures a >= 0.0 ==> m >= 0.0
    ensures a <= 0.0 ==> m <= 0.0
  {
    if b > 0.0 && t > 0.0 {
      assert b * t > 0.0 && b * f >= 0.0;
    } else if b > 0.0 && t < 0.0 {
      assert b * t < 0.0 && b * f <= 0.0;
    } else if b < 0.0 && t > 0.0 {
      assert b * t < 0.0 && b * f <= 0.0;
    } else if b < 0.0 && t < 0.0 {
      assert b * t > 0.0 && b * f >= 0.0;
    } else if t == 0.0 {
      assert f == 0.0;
    }
  }

  /** For finite operands with a non-zero divisor, `%` leaves a remainder `m`
      with `a == q * b + m` where `q` is the quotient truncated toward zero;
      `m` is smaller than the divisor in magnitude and never of the opposite
      sign to the dividend. */
  lemma RemainderTruncates(a: real, b: real)
    requires b != 0.0
    ensures Rem(Finite(a), Finite(b)).Finite?
    ensures var m := Rem(Finite(a), Finite(b)).r;
      && a == Trunc(a / b) as real * b + m
      && (if b > 0.0 then -b < m < b else b < m < -b)
      && (a >= 0.0 ==> m >= 0.0)
      && (a <= 0.0 ==> m <= 0.0)
  {
    var t := a / b;
    var q := Trunc(t) as real;
    var f := t - q;
    var m := a - b * q;
    assert Rem(Finite(a), Finite(b)) == Finite(m);
    assert a == b * t;
    assert m == b * f;
    ScaledBelow(b, f, m);
    ScaledSameSign(b, t, f, a, m);
  }
}
