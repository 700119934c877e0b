/**
 The numeric vocabulary the slider is written in: JavaScript values that are not
 NaN, the platform primitives the slider calls (Math.log, Math.exp and
 Number.prototype.toFixed followed by parseFloat), and the laws those
 primitives are assumed to obey where a property needs them.

 Numbers are modelled as unbounded reals. IEEE rounding is not modelled; the
 infinities produced by dividing a non-zero number by zero are (see `Ext`).
 */
module Numerics {

  /** A value that may be absent: an unset directive attribute (`undefined`). */
  datatype Option<+T> = None | Some(value: T) {

    /** The value, or the default a JavaScript default parameter would supply. */
    function GetOr(default: T): (r: T)
      ensures Some? ==> r == value
      ensures None? ==> r == default
    {
      match this
      case Some(v) => v
      case None => default
    }
  }

  /** A JavaScript number that is not NaN: a finite real or one of the two infinities. */
  datatype Ext = Fin(x: real) | PosInf | NegInf

  /** JavaScript `a / b`. Only `0 / 0` gives NaN, and that case is excluded. */
  function Div(a: real, b: real): (r: Ext)
    requires a != 0.0 || b != 0.0
    ensures r.Fin? <==> b != 0.0
    ensures r.Fin? ==> r.x * b == a
    ensures r.PosInf? <==> b == 0.0 && a > 0.0
    ensures r.NegInf? <==> b == 0.0 && a < 0.0
  {
    if b != 0.0 then Fin(a / b)
    else if a > 0.0 then PosInf
    else NegInf
  }

  /** JavaScript `e * k` for a positive finite factor `k`. */
  function Scale(e: Ext, k: real): (r: Ext)
    requires k > 0.0
    ensures r.Fin? <==> e.Fin?
    ensures r.Fin? ==> r.x == e.x * k
    ensures r.PosInf? <==> e.PosInf?
  {
    match e
    case Fin(x) => Fin(x * k)
    case PosInf => PosInf
    case NegInf => NegInf
  }

  /** JavaScript `Math.min` on numbers that are not NaN. */
  function Min(a: real, b: real): (r: real)
    ensures r <= a && r <= b
    ensures r == a || r == b
  {
    if a <= b then a else b
  }

  /** JavaScript `Math.max` on numbers that are not NaN. */
  function Max(a: real, b: real): (r: real)
    ensures r >= a && r >= b
    ensures r == a || r == b
  {
    if a >= b then a else b
  }

  /** Absolute value. */
  function Abs(x: real): (r: real)
    ensures r >= 0.0 && (r == x || r == -x)
  {
    if x >= 0.0 then x else -x
  }

  /** Truncation toward zero, the integer part JavaScript's `%` keeps. */
  function Trunc(x: real): (r: int)
    ensures x >= 0.0 ==> 0 <= r && r as real <= x < r as real + 1.0
    ensures x < 0.0 ==> r <= 0 && r as real - 1.0 < x <= r as real
  {
    if x >= 0.0 then x.Floor else -((-x).Floor)
  }

  /** `y` has no fractional part. */
  predicate IsInteger(y: real) {
    y.Floor as real == y
  }

  lemma IntegerIsInteger(k: int)
    ensures IsInteger(k as real)
  {
  }

  lemma MulDivCancel(s: real, k: real)
    requires s != 0.0
    ensures s * k / s == k
  {
  }

  lemma DivMul(x: real, s: real)
    requires s != 0.0
    ensures s * (x / s) == x
  {
  }

  lemma DivExact(x: real, s: real, k: real)
    requires s != 0.0 && x == s * k
    ensures x / s == k
  {
  }

  lemma TruncOfInteger(y: real)
    requires IsInteger(y)
    ensures Trunc(y) as real == y
  {
    var k := y.Floor;
    assert k as real == y;
    if y < 0.0 {
      assert -y == (-k) as real;
      assert (-y).Floor == -k;
    }
  }

  /**
   The primitives the slider takes from its host: `ln` is Math.log, `exp` is
   Math.exp and `toFixed(x, p)` is `parseFloat(x.toFixed(p))`. Their values are
   left unconstrained; a property that depends on them says which law it needs.
   What `ln` returns at non-positive arguments (NaN or -Infinity in JavaScript)
   is likewise unconstrained.
   */
  datatype Prims = Prims(ln: real -> real, exp: real -> real, toFixed: (real, int) -> real)

  /** exp undoes ln on the positive reals. */
  ghost predicate ExpInvertsLn(p: Prims) {
    forall x :: x > 0.0 ==> p.exp(p.ln(x)) == x
  }

  /** exp is positive and ln undoes it. */
  ghost predicate LnInvertsExp(p: Prims) {
    forall y :: p.exp(y) > 0.0 && p.ln(p.exp(y)) == y
  }

  /** ln is strictly increasing on the positive reals. */
  ghost predicate LnIncreasing(p: Prims) {
    forall x, y :: 0.0 < x < y ==> p.ln(x) < p.ln(y)
  }

  /** exp is monotone. */
  ghost predicate ExpIncreasing(p: Prims) {
    forall a, b :: a <= b ==> p.exp(a) <= p.exp(b)
  }

  /** exp turns sums into products. */
  ghost predicate ExpAdditive(p: Prims) {
    forall a, b :: p.exp(a + b) == p.exp(a) * p.exp(b)
  }
}
