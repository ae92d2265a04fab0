/**
  The Python 2 scalars the GROWTH pipeline handles: FITS header values, YAML
  configuration values and result-dictionary entries, with the conversions and the
  arithmetic the bin-count formulas apply to them (int() truncates toward zero,
  `/` on two ints floors, bool counts as an int).
*/
module PyScalars {
  import opened Wrappers
  import IntText
  import FloatText

  /** A header card value, a configuration entry or a stored result. */
  datatype Value = Int(i: int) | Float(x: real) | Bool(b: bool) | Str(s: string)

  /** A Python number: an int (or bool) or a float. */
  datatype Num = I(n: int) | R(x: real)

  function AsReal(n: Num): real {
    match n
    case I(k) => k as real
    case R(x) => x
  }

  /** The value as a Python number; a str is not one (arithmetic on it raises TypeError). */
  function ToNum(v: Value): (r: Option<Num>)
    ensures r.None? <==> v.Str?
  {
    match v
    case Int(k) => Some(I(k))
    case Float(x) => Some(R(x))
    case Bool(b) => Some(I(if b then 1 else 0))
    case Str(_) => None
  }

  /** int(x) for a float x: truncation toward zero. */
  function Trunc(x: real): (r: int)
    ensures 0.0 <= x ==> r as real <= x < r as real + 1.0
    ensures x < 0.0 ==> r as real - 1.0 < x <= r as real
  {
    if x >= 0.0 then x.Floor else -((-x).Floor)
  }

  /** a / b for two ints in Python 2: the floor of the quotient. */
  function FloorDiv(a: int, b: int): (q: int)
    requires b != 0
    ensures b > 0 ==> b * q <= a < b * q + b
    ensures b < 0 ==> b * q + b < a <= b * q
  {
    if b > 0 then a / b else (-a) / (-b)
  }

  /** a - b: int when both are ints, float otherwise. */
  function Sub(a: Num, b: Num): (r: Num)
    ensures AsReal(r) == AsReal(a) - AsReal(b)
    ensures r.I? <==> a.I? && b.I?
  {
    if a.I? && b.I? then I(a.n - b.n) else R(AsReal(a) - AsReal(b))
  }

  /** a / b in Python 2; None where it raises ZeroDivisionError. */
  function Div(a: Num, b: Num): (r: Option<Num>)
    ensures r.None? <==> AsReal(b) == 0.0
    ensures r.Some? ==> (r.value.I? <==> a.I? && b.I?)
    ensures r.Some? && r.value.R? ==> AsReal(r.value) * AsReal(b) == AsReal(a)
    ensures r.Some? && a.I? && b.I? && b.n > 0 ==> b.n * r.value.n <= a.n < b.n * r.value.n + b.n
    ensures r.Some? && a.I? && b.I? && b.n < 0 ==> b.n * r.value.n + b.n < a.n <= b.n * r.value.n
  {
    if AsReal(b) == 0.0 then None
    else if a.I? && b.I? then Some(I(FloorDiv(a.n, b.n)))
    else Some(R(AsReal(a) / AsReal(b)))
  }

  /** int(n) for a number. */
  function NumToInt(n: Num): (r: int)
    ensures n.I? ==> r == n.n
    ensures n.R? && n.x >= 0.0 ==> r as real <= n.x < r as real + 1.0
    ensures n.R? && n.x < 0.0 ==> r as real - 1.0 < n.x <= r as real
  {
    match n
    case I(k) => k
    case R(x) => Trunc(x)
  }

  /** Python 2 int(v); None where it raises ValueError. */
  function PyInt(v: Value): (r: Option<int>)
    ensures !v.Str? ==> r == Some(NumToInt(ToNum(v).value))
    ensures v.Int? ==> r == Some(v.i)
    ensures v.Bool? ==> r == Some(if v.b then 1 else 0)
    ensures v.Float? && v.x >= 0.0 ==> r.Some? && r.value as real <= v.x < r.value as real + 1.0
    ensures v.Float? && v.x < 0.0 ==> r.Some? && r.value as real - 1.0 < v.x <= r.value as real
  {
    match v
    case Str(s) => IntText.ParseInt(s)
    case _ => Some(NumToInt(ToNum(v).value))
  }

  /** Python 2 float(v); None where it raises ValueError. */
  function PyFloat(v: Value): (r: Option<real>)
    ensures !v.Str? ==> r == Some(AsReal(ToNum(v).value))
    ensures v.Int? ==> r == Some(v.i as real)
  {
    match v
    case Str(s) => FloatText.ParseFloat(s)
    case _ => Some(AsReal(ToNum(v).value))
  }
}
