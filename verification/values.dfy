/** Cell values of a pandas DataFrame and the float arithmetic the ratio
    computation performs on them: IEEE-style division (a zero denominator
    gives an infinity or NaN, never an error), scaling by 100 and
    rounding to two decimals half-to-even. */
module Values {

  import opened Wrappers
  import Strings

  /** One cell: a finite number, an infinity, NaN, text, or None. */
  datatype Value = Num(x: real) | PosInf | NegInf | NaN | Str(s: string) | Missing

  /** A float cell (finite, infinite or NaN). */
  predicate IsNumber(v: Value) {
    v.Num? || v.PosInf? || v.NegInf? || v.NaN?
  }

  predicate IsInfinite(v: Value) {
    v.PosInf? || v.NegInf?
  }

  /** A number that is not NaN: what a count column holds after coercion. */
  predicate IsCount(v: Value) {
    v.Num? || IsInfinite(v)
  }

  /** pandas `isna`: NaN and None are the missing markers. */
  predicate IsNA(v: Value) {
    v.NaN? || v.Missing?
  }

  /** `pd.to_numeric(..., errors='coerce')` on one cell: numbers stay,
      digit strings are parsed, everything else becomes NaN. */
  function ToNumeric(v: Value): (r: Value)
    ensures IsNumber(r)
    ensures IsNumber(v) ==> r == v
    ensures v.Str? ==> (r.Num? <==> Strings.ParseNat(v.s).Some?)
    ensures v.Missing? ==> r.NaN?
  {
    match v
    case Str(s) =>
      (match Strings.ParseNat(s)
       case Some(n) => Num(n as real)
       case None => NaN)
    case Missing => NaN
    case _ => v
  }

  /** `fillna(d)` on one cell. */
  function FillNA(v: Value, d: Value): Value {
    if IsNA(v) then d else v
  }

  /** A count cell after `pd.to_numeric(..., errors='coerce').fillna(0)`. */
  function CoerceCount(v: Value): (r: Value)
    ensures IsCount(r)
    ensures IsCount(v) ==> r == v
    ensures IsNA(v) ==> r == Num(0.0)
    ensures v.Str? && Strings.ParseNat(v.s).None? ==> r == Num(0.0)
    ensures v.Str? && Strings.ParseNat(v.s).Some? ==> r == Num(Strings.ParseNat(v.s).value as real)
  {
    FillNA(ToNumeric(v), Num(0.0))
  }

  /** Float division `a / b` with IEEE special values (the sign of a zero
      is not modelled). What it yields, case by case, is `DivCases`. */
  function Div(a: Value, b: Value): (r: Value)
    requires IsNumber(a) && IsNumber(b)
    ensures IsNumber(r)
  {
    match (a, b)
    case (NaN, _) => NaN
    case (_, NaN) => NaN
    case (Num(p), Num(q)) =>
      if q != 0.0 then Num(p / q)
      else if p > 0.0 then PosInf
      else if p < 0.0 then NegInf
      else NaN
    case (Num(_), _) => Num(0.0)
    case (_, Num(q)) =>
      if q >= 0.0 then a
      else if a.PosInf? then NegInf
      else PosInf
    case _ => NaN
  }

  /** The quotient is finite exactly when a finite numerator meets an
      infinite or non-zero denominator, and then it is the real quotient
      (0 for an infinite denominator); it is NaN for a NaN operand, for
      inf/inf and for 0/0; otherwise it is an infinity whose sign is the
      product of the operands' signs. */
  lemma DivCases(a: Value, b: Value)
    requires IsNumber(a) && IsNumber(b)
    ensures var r := Div(a, b);
      && (r.Num? <==> a.Num? && (IsInfinite(b) || (b.Num? && b.x != 0.0)))
      && (r.Num? && b.Num? ==> r.x * b.x == a.x)
      && (r.Num? && IsInfinite(b) ==> r.x == 0.0)
      && (r.NaN? <==> a.NaN? || b.NaN? || (IsInfinite(a) && IsInfinite(b))
                      || (a == Num(0.0) && b == Num(0.0)))
      && (r.PosInf? ==> (a.Num? && a.x > 0.0 && b == Num(0.0))
                        || (a.PosInf? && b.Num? && b.x >= 0.0)
                        || (a.NegInf? && b.Num? && b.x < 0.0))
      && (r.NegInf? ==> (a.Num? && a.x < 0.0 && b == Num(0.0))
                        || (a.NegInf? && b.Num? && b.x >= 0.0)
                        || (a.PosInf? && b.Num? && b.x < 0.0))
  {
  }

  /** Multiplication of a float cell by 100. */
  function Scale100(v: Value): (r: Value)
    requires IsNumber(v)
    ensures IsNumber(r)
    ensures r.Num? <==> v.Num?
    ensures r.Num? ==> r.x == 100.0 * v.x
    ensures !v.Num? ==> r == v
  {
    if v.Num? then Num(v.x * 100.0) else v
  }

  /** Nearest integer to `y`, ties to the even neighbour (numpy's `rint`). */
  function RoundHalfEven(y: real): (k: int)
    ensures -0.5 <= (k as real) - y <= 0.5
    ensures (k as real) - y == 0.5 || (k as real) - y == -0.5 ==> k % 2 == 0
  {
    var f := y.Floor;
    var frac := y - f as real;
    if frac < 0.5 then f
    else if frac > 0.5 then f + 1
    else if f % 2 == 0 then f
    else f + 1
  }

  /** `round(x, 2)` on exact reals: the nearest multiple of 0.01, ties to
      even. */
  function Round2(x: real): (r: real)
    ensures -0.005 <= r - x <= 0.005
    ensures (r * 100.0).Floor as real == r * 100.0
  {
    var k := RoundHalfEven(x * 100.0);
    Hundredths(k);
    ScaleBack(k as real, x * 100.0);
    assert x * 100.0 / 100.0 == x;
    k as real / 100.0
  }

  /** A whole number of hundredths scales back to that whole number. */
  lemma Hundredths(k: int)
    ensures (k as real / 100.0) * 100.0 == k as real
  {
    var q := k as real / 100.0;
    assert q * 100.0 == k as real;
  }

  /** Dividing by 100 scales a distance of at most one half to at most
      half a hundredth. */
  lemma ScaleBack(a: real, b: real)
    requires -0.5 <= a - b <= 0.5
    ensures -0.005 <= a / 100.0 - b / 100.0 <= 0.005
  {
    assert a / 100.0 - b / 100.0 == (a - b) / 100.0;
  }

  /** A value that already has two decimals is left alone by rounding. */
  lemma Round2Idempotent(x: real)
    ensures Round2(Round2(x)) == Round2(x)
  {
    var r := Round2(x);
    var k := (r * 100.0).Floor;
    assert r * 100.0 == k as real;
    assert RoundHalfEven(r * 100.0) == k;
  }

  /** `Series.round(2)` on one cell: only finite values change. */
  function RoundValue(v: Value): (r: Value)
    requires IsNumber(v)
    ensures IsNumber(r)
    ensures r.Num? <==> v.Num?
    ensures r.Num? ==> r.x == Round2(v.x)
    ensures !v.Num? ==> r == v
  {
    if v.Num? then Num(Round2(v.x)) else v
  }

  /** `(a / b * 100).round(2)`: a percentage ratio with no zero guard. */
  function Percent(a: Value, b: Value): (r: Value)
    requires IsNumber(a) && IsNumber(b)
    ensures IsNumber(r)
  {
    RoundValue(Scale100(Div(a, b)))
  }

  /** `.replace([float('inf'), float('nan')], 0)`: +inf and NaN become 0,
      -inf is left alone. */
  function ZeroInfNaN(v: Value): (r: Value)
    ensures !r.PosInf? && !r.NaN?
    ensures v.PosInf? || v.NaN? ==> r == Num(0.0)
    ensures !v.PosInf? && !v.NaN? ==> r == v
  {
    if v.PosInf? || v.NaN? then Num(0.0) else v
  }

  /** A ratio over a finite non-zero denominator is the rounded percentage. */
  lemma PercentFinite(a: Value, b: Value)
    requires a.Num? && b.Num? && b.x != 0.0
    ensures Percent(a, b) == Num(Round2(a.x / b.x * 100.0))
  {
    var q := Div(a, b);
    assert q.x == a.x / b.x;
  }

  /** A ratio over a zero denominator is an infinity or NaN, by the sign of
      the numerator; it is never a number. */
  lemma PercentZeroDenominator(a: Value)
    requires a.Num?
    ensures Percent(a, Num(0.0)) == (if a.x > 0.0 then PosInf else if a.x < 0.0 then NegInf else NaN)
  {
  }
}
