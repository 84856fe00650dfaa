/** The JavaScript number operations the dashboard relies on, over exact values.

    A number is NaN or an exact terminating decimal `mantissa / 10^scale`; this
    is every value `parseFloat` can produce from decimal text, and the set is
    closed under the multiplications and additions the dashboard performs.
    Binary floating point (rounding of every operation, overflow to Infinity,
    negative zero) is not modelled. */
module JsNumber {

  function Pow10(n: nat): (p: nat)
    ensures p >= 1
    decreases n
  {
    if n == 0 then 1 else 10 * Pow10(n - 1)
  }

  lemma {:induction false} Pow10Add(a: nat, b: nat)
    ensures Pow10(a + b) == Pow10(a) * Pow10(b)
    decreases a
  {
    if a > 0 {
      Pow10Add(a - 1, b);
      assert Pow10(a + b) == 10 * Pow10(a - 1 + b);
    }
  }

  function Abs(m: int): nat {
    if m < 0 then -m else m
  }

  function Max(a: nat, b: nat): nat {
    if a < b then b else a
  }

  datatype Number = NaN | Decimal(mantissa: int, scale: nat)

  /** The exact value of a non-NaN number. */
  ghost function Value(x: Number): real
    requires x.Decimal?
  {
    x.mantissa as real / Pow10(x.scale) as real
  }

  const Zero: Number := Decimal(0, 0)

  lemma ScaleFraction(a: int, p: nat, q: nat, pq: nat)
    requires p >= 1 && q >= 1 && pq == p * q
    ensures (a * q) as real / pq as real == a as real / p as real
  {
    assert (a * q) as real == a as real * q as real;
    assert pq as real == p as real * q as real;
  }

  lemma AddFractions(a: int, b: int, p: nat)
    requires p >= 1
    ensures (a + b) as real / p as real == a as real / p as real + b as real / p as real
  {
  }

  lemma MulAssoc(m: int, a: nat, b: nat)
    ensures m * a * b == m * (a * b)
  {
  }

  lemma Distribute(a: int, b: int, c: int)
    ensures (a + b) * c == a * c + b * c
  {
  }

  /** `m * 10^a * 10^b == m * 10^(a + b)`. */
  lemma ShiftTwice(m: int, a: nat, b: nat)
    ensures m * Pow10(a) * Pow10(b) == m * Pow10(a + b)
  {
    Pow10Add(a, b);
    MulAssoc(m, Pow10(a), Pow10(b));
  }

  // ---------------------------------------------------------------- arithmetic

  /** `x * q` for an integer `q`. */
  function Times(x: Number, q: int): (r: Number)
    ensures r.NaN? <==> x.NaN?
    ensures r.Decimal? ==> Value(r) == Value(x) * q as real
  {
    match x
    case NaN => NaN
    case Decimal(m, s) =>
      assert (m * q) as real == m as real * q as real;
      Decimal(m * q, s)
  }

  /** `x + y`: NaN absorbs, otherwise the exact sum on the finer of the two scales. */
  function Plus(x: Number, y: Number): (r: Number)
    ensures r.NaN? <==> x.NaN? || y.NaN?
    ensures r.Decimal? ==> r.scale == Max(x.scale, y.scale)
  {
    if x.NaN? || y.NaN? then NaN
    else
      var s := Max(x.scale, y.scale);
      Decimal(x.mantissa * Pow10(s - x.scale) + y.mantissa * Pow10(s - y.scale), s)
  }

  lemma PlusValue(x: Number, y: Number)
    requires x.Decimal? && y.Decimal?
    ensures Value(Plus(x, y)) == Value(x) + Value(y)
  {
    var s := Max(x.scale, y.scale);
    var a := x.mantissa * Pow10(s - x.scale);
    var b := y.mantissa * Pow10(s - y.scale);
    var p := Pow10(s);
    assert Plus(x, y) == Decimal(a + b, s);
    Pow10Add(x.scale, s - x.scale);
    Pow10Add(y.scale, s - y.scale);
    calc {
      Value(Plus(x, y));
      (a + b) as real / p as real;
      { AddFractions(a, b, p); }
      a as real / p as real + b as real / p as real;
      { ScaleFraction(x.mantissa, Pow10(x.scale), Pow10(s - x.scale), p);
        ScaleFraction(y.mantissa, Pow10(y.scale), Pow10(s - y.scale), p); }
      Value(x) + Value(y);
    }
  }

  lemma PlusCommutative(x: Number, y: Number)
    ensures Plus(x, y) == Plus(y, x)
  {
  }

  /** Aligning the sum of two aligned mantissas once more is aligning each directly. */
  lemma AlignSum(xm: int, xs: nat, ym: int, ys: nat, s1: nat, s: nat)
    requires xs <= s1 && ys <= s1 && s1 <= s
    ensures (xm * Pow10(s1 - xs) + ym * Pow10(s1 - ys)) * Pow10(s - s1)
         == xm * Pow10(s - xs) + ym * Pow10(s - ys)
  {
    Distribute(xm * Pow10(s1 - xs), ym * Pow10(s1 - ys), Pow10(s - s1));
    ShiftTwice(xm, s1 - xs, s - s1);
    ShiftTwice(ym, s1 - ys, s - s1);
  }

  lemma PlusAssociative(x: Number, y: Number, z: Number)
    ensures Plus(Plus(x, y), z) == Plus(x, Plus(y, z))
  {
    if x.Decimal? && y.Decimal? && z.Decimal? {
      var s1 := Max(x.scale, y.scale);
      var s2 := Max(y.scale, z.scale);
      var s := Max(s1, z.scale);
      assert s == Max(x.scale, s2);
      AlignSum(x.mantissa, x.scale, y.mantissa, y.scale, s1, s);
      AlignSum(y.mantissa, y.scale, z.mantissa, z.scale, s2, s);
      assert Pow10(s - s) == 1;
    }
  }

  lemma PlusZero(x: Number)
    ensures Plus(Zero, x) == x && Plus(x, Zero) == x
  {
  }

  /** Strips trailing zero digits after the decimal point; the value is unchanged. */
  function Normalize(x: Number): (r: Number)
    ensures r.NaN? <==> x.NaN?
    ensures r.Decimal? ==> Value(r) == Value(x) && (r.scale > 0 ==> r.mantissa % 10 != 0)
    decreases if x.Decimal? then x.scale else 0
  {
    if x.Decimal? && x.scale > 0 && x.mantissa % 10 == 0 then
      var y := Decimal(x.mantissa / 10, x.scale - 1);
      assert Value(y) == Value(x) by {
        ScaleFraction(x.mantissa / 10, Pow10(x.scale - 1), 10, Pow10(x.scale));
      }
      Normalize(y)
    else x
  }

  // ---------------------------------------------------------------- digits

  predicate IsDigit(c: char) {
    '0' <= c <= '9'
  }

  predicate AllDigits(s: string) {
    forall i :: 0 <= i < |s| ==> IsDigit(s[i])
  }

  function DigitChar(d: nat): (c: char)
    requires d < 10
    ensures IsDigit(c) && c as int - '0' as int == d
  {
    ('0' as int + d) as char
  }

  /** The natural number a string of decimal digits denotes. */
  function DigitsValue(s: string): nat
    requires AllDigits(s)
    decreases |s|
  {
    if s == [] then 0 else 10 * DigitsValue(s[..|s| - 1]) + (s[|s| - 1] as int - '0' as int)
  }

  /** The decimal digits of `n`, without leading zeros. */
  function NatToString(n: nat): (s: string)
    ensures |s| >= 1 && AllDigits(s)
    decreases n
  {
    if n < 10 then [DigitChar(n)] else NatToString(n / 10) + [DigitChar(n % 10)]
  }

  lemma {:induction false} NatToStringValue(n: nat)
    ensures DigitsValue(NatToString(n)) == n
    decreases n
  {
    if n >= 10 {
      NatToStringValue(n / 10);
      var s := NatToString(n);
      assert s[..|s| - 1] == NatToString(n / 10);
    }
  }

  lemma DigitsValueSnoc(s: string, c: char)
    requires AllDigits(s) && IsDigit(c)
    ensures AllDigits(s + [c])
    ensures DigitsValue(s + [c]) == 10 * DigitsValue(s) + (c as int - '0' as int)
  {
    assert (s + [c])[..|s|] == s;
  }

  lemma {:induction false} DigitsValueConcat(a: string, b: string)
    requires AllDigits(a) && AllDigits(b)
    ensures AllDigits(a + b)
    ensures DigitsValue(a + b) == DigitsValue(a) * Pow10(|b|) + DigitsValue(b)
    decreases |b|
  {
    if b == [] {
      assert a + b == a;
    } else {
      var b' := b[..|b| - 1];
      var c := b[|b| - 1];
      assert b == b' + [c];
      assert a + b == (a + b') + [c];
      DigitsValueConcat(a, b');
      DigitsValueSnoc(a + b', c);
      DigitsValueSnoc(b', c);
      var va, vb' := DigitsValue(a), DigitsValue(b');
      MulAssoc(va, Pow10(|b'|), 10);
      assert 10 * (va * Pow10(|b'|)) == va * Pow10(|b|);
    }
  }

  function Zeros(k: nat): (z: string)
    ensures |z| == k && AllDigits(z)
  {
    seq(k, _ => '0')
  }

  lemma {:induction false} ZerosValue(k: nat)
    ensures DigitsValue(Zeros(k)) == 0
    decreases k
  {
    if k > 0 {
      assert Zeros(k)[..k - 1] == Zeros(k - 1);
      ZerosValue(k - 1);
    }
  }

  /** `s` with zeros prepended up to `width` characters. */
  function PadStart(s: string, width: nat): (r: string)
    requires AllDigits(s)
    ensures AllDigits(r) && |r| == Max(|s|, width)
  {
    if |s| >= width then s else Zeros(width - |s|) + s
  }

  lemma PadStartValue(s: string, width: nat)
    requires AllDigits(s)
    ensures DigitsValue(PadStart(s, width)) == DigitsValue(s)
  {
    if |s| < width {
      DigitsValueConcat(Zeros(width - |s|), s);
      ZerosValue(width - |s|);
    }
  }

  /** The number of decimal digits at the start of `s`. */
  function DigitRun(s: string): (n: nat)
    ensures n <= |s| && AllDigits(s[..n])
    ensures n < |s| ==> !IsDigit(s[n])
    decreases |s|
  {
    if s == [] || !IsDigit(s[0]) then 0
    else
      var n := 1 + DigitRun(s[1..]);
      assert s[..n] == [s[0]] + s[1..][..n - 1];
      n
  }

  lemma {:induction false} DigitRunOf(a: string, b: string)
    requires AllDigits(a)
    requires b == [] || !IsDigit(b[0])
    ensures DigitRun(a + b) == |a|
    decreases |a|
  {
    if a != [] {
      assert (a + b)[1..] == a[1..] + b;
      DigitRunOf(a[1..], b);
    }
  }

  // ---------------------------------------------------------------- parseFloat

  /** The characters `parseFloat` skips before the number: ECMAScript's
      WhiteSpace and LineTerminator code points. */
  predicate IsStrWhiteSpace(c: char) {
    var u := c as int;
    u == 0x09 || u == 0x0A || u == 0x0B || u == 0x0C || u == 0x0D || u == 0x20 ||
    u == 0xA0 || u == 0x1680 || (0x2000 <= u <= 0x200A) || u == 0x2028 ||
    u == 0x2029 || u == 0x202F || u == 0x205F || u == 0x3000 || u == 0xFEFF
  }

  function TrimStart(s: string): (r: string)
    ensures r == [] || !IsStrWhiteSpace(r[0])
    decreases |s|
  {
    if s != [] && IsStrWhiteSpace(s[0]) then TrimStart(s[1..]) else s
  }

  /** The exponent part `e[+|-]digits` at the start of `rest`, or 0 when there is none. */
  function ExponentOf(rest: string): int {
    if |rest| >= 2 && (rest[0] == 'e' || rest[0] == 'E') then
      var ds := if rest[1] == '+' || rest[1] == '-' then rest[2..] else rest[1..];
      var k := DigitRun(ds);
      if k == 0 then 0
      else if rest[1] == '-' then -(DigitsValue(ds[..k]) as int)
      else DigitsValue(ds[..k])
    else 0
  }

  /** `parseFloat(s)`: after leading white space, the longest prefix of the form
      `[+|-] (digits [. digits?] | . digits) [e [+|-] digits]`; the rest of the
      text is ignored, and NaN results when no digit is found. */
  function ParseFloat(s: string): Number {
    ParseSigned(TrimStart(s))
  }

  /** A literal with an optional sign, at the very start of `t`. */
  function ParseSigned(t: string): Number {
    var signed := t != [] && (t[0] == '-' || t[0] == '+');
    var n := ParseUnsigned(if signed then t[1..] else t);
    if signed && t[0] == '-' then Negate(n) else n
  }

  function Negate(x: Number): (r: Number)
    ensures r.NaN? <==> x.NaN?
  {
    match x
    case NaN => NaN
    case Decimal(m, s) => Decimal(-m, s)
  }

  /** The unsigned part of a decimal literal at the start of `u`. */
  function ParseUnsigned(u: string): Number {
    var i := DigitRun(u);
    if i < |u| && u[i] == '.' then ParseFraction(u[..i], u[i + 1..])
    else ParseInteger(u[..i], u[i..])
  }

  /** A literal without a decimal point: its integer digits and the text after them. */
  function ParseInteger(intPart: string, rest: string): Number
    requires AllDigits(intPart)
  {
    if intPart == [] then NaN
    else ScaleByExponent(DigitsValue(intPart), 0, ExponentOf(rest))
  }

  /** A literal with a decimal point: its integer digits and the text after the point. */
  function ParseFraction(intPart: string, afterPoint: string): Number
    requires AllDigits(intPart)
  {
    var f := DigitRun(afterPoint);
    if intPart == [] && f == 0 then NaN
    else
      DigitsValueConcat(intPart, afterPoint[..f]);
      ScaleByExponent(DigitsValue(intPart + afterPoint[..f]), f, ExponentOf(afterPoint[f..]))
  }

  /** The number `digits × 10^(e - f)` for a digit string with `f` fraction digits and exponent `e`. */
  function ScaleByExponent(magnitude: nat, f: nat, e: int): Number {
    if e <= f then Decimal(magnitude, (f - e) as nat)
    else Decimal(magnitude * Pow10((e - f) as nat), 0)
  }

  // ---------------------------------------------------------------- formatting

  /** `a / 10^k` and `a % 10^k`, by repeated division by ten. */
  function DivModPow10(a: nat, k: nat): (qr: (nat, nat))
    ensures qr.1 < Pow10(k)
    ensures a == qr.0 * Pow10(k) + qr.1
    decreases k
  {
    if k == 0 then (a, 0)
    else
      var qr := DivModPow10(a / 10, k - 1);
      var q, r := qr.0, qr.1;
      assert a == 10 * (a / 10) + a % 10;
      MulAssoc(q, Pow10(k - 1), 10);
      assert a == q * Pow10(k) + (10 * r + a % 10);
      (q, 10 * r + a % 10)
  }

  /** The digits of `a`, with a decimal point `k` places from the right. */
  function PointedDigits(a: nat, k: nat): (r: string)
    ensures |r| > k
  {
    var digits := PadStart(NatToString(a), k + 1);
    var cut := |digits| - k;
    digits[..cut] + (if k == 0 then "" else "." + digits[cut..])
  }

  /** `x.toString()` in plain decimal notation: an optional minus sign, the
      integer digits, and the fraction digits without trailing zeros. */
  function NumberToString(x: Number): (r: string)
    ensures r != ""
  {
    match x
    case NaN => "NaN"
    case Decimal(_, _) =>
      var n := Normalize(x);
      (if n.mantissa < 0 then "-" else "") + PointedDigits(Abs(n.mantissa), n.scale)
  }

  /** Ten times the magnitude `a / 10^s`, rounded to an integer, halves upward. */
  function TenthsHalfUp(a: nat, s: nat): nat {
    if s == 0 then 10 * a
    else
      var qr := DivModPow10(a, s - 1);
      if 2 * qr.1 >= Pow10(s - 1) then qr.0 + 1 else qr.0
  }

  /** `x.toFixed(1)`: the sign of a negative number, then its magnitude rounded
      to one fraction digit, ties rounded up. */
  function ToFixed1(x: Number): string {
    match x
    case NaN => "NaN"
    case Decimal(m, s) =>
      (if m < 0 then "-" else "") + PointedDigits(TenthsHalfUp(Abs(m), s), 1)
  }

  /** The number `x.toFixed(1)` denotes. */
  function RoundToTenth(x: Number): (r: Number)
    ensures r.NaN? <==> x.NaN?
    ensures r.Decimal? ==> r.scale == 1
  {
    match x
    case NaN => NaN
    case Decimal(m, s) =>
      var n := TenthsHalfUp(Abs(m), s);
      var signed: int := if m < 0 then -(n as int) else n;
      Decimal(signed, 1)
  }

  // ---------------------------------------------------------------- round trips

  /** A text that can follow a number without being read as part of it. */
  predicate EndsNumber(unit: string) {
    unit == [] || !(IsDigit(unit[0]) || unit[0] == '.' || unit[0] == 'e' || unit[0] == 'E')
  }

  lemma PointedDigitsShape(a: nat, k: nat)
    ensures var digits := PadStart(NatToString(a), k + 1);
            var cut := |digits| - k;
            && cut >= 1 && AllDigits(digits) && DigitsValue(digits) == a
            && PointedDigits(a, k) == digits[..cut] + (if k == 0 then "" else "." + digits[cut..])
  {
    NatToStringValue(a);
    PadStartValue(NatToString(a), k + 1);
  }

  lemma ConcatAssociative(x: string, y: string, z: string)
    ensures x + y + z == x + (y + z)
  {
  }

  lemma ParseUnsignedInteger(intPart: string, unit: string)
    requires |intPart| >= 1 && AllDigits(intPart) && EndsNumber(unit)
    ensures ParseUnsigned(intPart + unit) == Decimal(DigitsValue(intPart), 0)
  {
    var u := intPart + unit;
    var i := |intPart|;
    DigitRunOf(intPart, unit);
    assert u[..i] == intPart && u[i..] == unit;
    assert ExponentOf(unit) == 0;
  }

  lemma ParseUnsignedPoint(intPart: string, tail: string)
    requires AllDigits(intPart)
    ensures ParseUnsigned(intPart + "." + tail) == ParseFraction(intPart, tail)
  {
    var u := intPart + "." + tail;
    var i := |intPart|;
    ConcatAssociative(intPart, ".", tail);
    DigitRunOf(intPart, "." + tail);
    assert u[..i] == intPart && u[i] == '.' && u[i + 1..] == tail;
  }

  lemma ParseUnsignedFraction(intPart: string, fracPart: string, unit: string)
    requires |intPart| >= 1 && AllDigits(intPart) && AllDigits(fracPart) && EndsNumber(unit)
    ensures AllDigits(intPart + fracPart)
    ensures ParseUnsigned(intPart + "." + fracPart + unit)
         == Decimal(DigitsValue(intPart + fracPart), |fracPart|)
  {
    ConcatAssociative(intPart + ".", fracPart, unit);
    ParseUnsignedPoint(intPart, fracPart + unit);
    ParseFractionDigits(intPart, fracPart, unit);
  }

  lemma ParseFractionDigits(intPart: string, fracPart: string, unit: string)
    requires |intPart| >= 1 && AllDigits(intPart) && AllDigits(fracPart) && EndsNumber(unit)
    ensures AllDigits(intPart + fracPart)
    ensures ParseFraction(intPart, fracPart + unit)
         == Decimal(DigitsValue(intPart + fracPart), |fracPart|)
  {
    var f := |fracPart|;
    DigitRunOf(fracPart, unit);
    assert (fracPart + unit)[..f] == fracPart && (fracPart + unit)[f..] == unit;
    assert ExponentOf(unit) == 0;
    DigitsValueConcat(intPart, fracPart);
  }

  lemma TrimStartNoSpace(t: string)
    requires t != [] && !IsStrWhiteSpace(t[0])
    ensures TrimStart(t) == t
  {
  }

  /** A digit string is read as it stands, and a minus sign before it negates it. */
  lemma ParseSignedDigits(negative: bool, body: string)
    requires body != [] && IsDigit(body[0])
    ensures ParseSigned((if negative then "-" else "") + body)
         == if negative then Negate(ParseUnsigned(body)) else ParseUnsigned(body)
  {
    if negative {
      assert ("-" + body)[1..] == body;
    } else {
      assert "" + body == body;
    }
  }

  lemma ParseUnsignedPointedDigits(a: nat, k: nat, unit: string)
    requires EndsNumber(unit)
    ensures var body := PointedDigits(a, k) + unit;
            body != [] && IsDigit(body[0]) && ParseUnsigned(body) == Decimal(a, k)
  {
    var digits := PadStart(NatToString(a), k + 1);
    var cut := |digits| - k;
    var intPart, fracPart := digits[..cut], digits[cut..];
    PointedDigitsShape(a, k);
    assert digits == intPart + fracPart;
    var body := PointedDigits(a, k) + unit;
    if k == 0 {
      assert intPart == digits;
      assert body == intPart + unit;
      ParseUnsignedInteger(intPart, unit);
    } else {
      assert |fracPart| == k;
      assert body == intPart + "." + fracPart + unit;
      ParseUnsignedFraction(intPart, fracPart, unit);
    }
    assert body[0] == intPart[0];
  }

  /** Reading back a signed digit string with a decimal point `k` places from the right. */
  lemma ParsePointedDigits(negative: bool, a: nat, k: nat, unit: string)
    requires EndsNumber(unit)
    ensures ParseFloat((if negative then "-" else "") + PointedDigits(a, k) + unit)
         == Decimal(if negative then -(a as int) else a, k)
  {
    var sign := if negative then "-" else "";
    var body := PointedDigits(a, k) + unit;
    ConcatAssociative(sign, PointedDigits(a, k), unit);
    ParseUnsignedPointedDigits(a, k, unit);
    assert (sign + body)[0] == if negative then '-' else body[0];
    TrimStartNoSpace(sign + body);
    ParseSignedDigits(negative, body);
  }

  /** `parseFloat(x.toString())` gives back the value of `x`, and so does the
      same text followed by a unit that cannot continue a number. */
  lemma ParseNumberToString(x: Number, unit: string)
    requires EndsNumber(unit)
    ensures ParseFloat(NumberToString(x) + unit) == Normalize(x)
    ensures x.Decimal? ==> Value(ParseFloat(NumberToString(x) + unit)) == Value(x)
  {
    if x.Decimal? {
      var n := Normalize(x);
      ParsePointedDigits(n.mantissa < 0, Abs(n.mantissa), n.scale, unit);
    } else {
      var text := "NaN" + unit;
      assert TrimStart(text) == text;
      assert DigitRun(text) == 0;
    }
  }

  /** `parseFloat(x.toFixed(1) + unit)` is `x` rounded to a tenth. */
  lemma ParseToFixed1(x: Number, unit: string)
    requires EndsNumber(unit)
    ensures ParseFloat(ToFixed1(x) + unit) == RoundToTenth(x)
  {
    if x.Decimal? {
      ParsePointedDigits(x.mantissa < 0, TenthsHalfUp(Abs(x.mantissa), x.scale), 1, unit);
    } else {
      var text := "NaN" + unit;
      assert TrimStart(text) == text;
      assert DigitRun(text) == 0;
    }
  }

  lemma DivMonotone(a: int, b: int, p: nat)
    requires p >= 1 && a <= b
    ensures a as real / p as real <= b as real / p as real
    ensures a < b ==> a as real / p as real < b as real / p as real
  {
  }

  lemma HalfFraction(r: nat, p: nat)
    requires p >= 1
    ensures 2 * r >= p ==> r as real / p as real >= 0.5
    ensures 2 * r < p ==> r as real / p as real < 0.5
  {
    ScaleFraction(r, p, 2, 2 * p);
    ScaleFraction(1, 2, p, 2 * p);
    if 2 * r >= p {
      DivMonotone(p, 2 * r, 2 * p);
    } else {
      DivMonotone(2 * r, p, 2 * p);
    }
  }

  lemma FractionBounds(r: nat, p: nat)
    requires p >= 1 && r < p
    ensures 0.0 <= r as real / p as real < 1.0
    ensures 2 * r >= p ==> r as real / p as real >= 0.5
    ensures 2 * r < p ==> r as real / p as real < 0.5
  {
    DivMonotone(0, r, p);
    DivMonotone(r, p, p);
    HalfFraction(r, p);
  }

  /** Ten times `a / 10^s` is `q + r / 10^(s-1)` for the quotient and remainder by `10^(s-1)`. */
  lemma TenfoldSplit(a: nat, s: nat, q: nat, r: nat)
    requires s >= 1 && a == q * Pow10(s - 1) + r
    ensures 10.0 * (a as real / Pow10(s) as real) == q as real + r as real / Pow10(s - 1) as real
  {
    var p' := Pow10(s - 1);
    ScaleFraction(a, p', 10, Pow10(s));
    assert (a * 10) as real == 10.0 * a as real;
    AddFractions(q * p', r, p');
    assert (q * p') as real / p' as real == q as real;
  }

  /** `TenthsHalfUp(a, s)` is the integer nearest to `10 * a / 10^s`, halves rounded up. */
  lemma HalfUpBounds(a: nat, s: nat)
    ensures var n := TenthsHalfUp(a, s);
            (n as real) - 0.5 <= 10.0 * (a as real / Pow10(s) as real) < (n as real) + 0.5
  {
    if s == 0 {
      assert a as real / Pow10(s) as real == a as real;
    } else {
      var qr := DivModPow10(a, s - 1);
      FractionBounds(qr.1, Pow10(s - 1));
      TenfoldSplit(a, s, qr.0, qr.1);
    }
  }

  /** `x.toFixed(1)` shows the tenth nearest to `x`; a value exactly halfway
      between two tenths is shown as the one farther from zero. */
  lemma NegateFraction(m: int, p: nat)
    requires p >= 1
    ensures (-m) as real / p as real == -(m as real / p as real)
  {
  }

  /** The sign-aware distance bound, on plain reals. */
  lemma SignedNearest(vx: real, vr: real, v: real, w: real, negative: bool)
    requires 0.0 <= v && w - 0.05 <= v < w + 0.05 && (negative ==> v > 0.0)
    requires vx == (if negative then -v else v) && vr == (if negative then -w else w)
    ensures vx >= 0.0 ==> vr - 0.05 <= vx < vr + 0.05
    ensures vx < 0.0 ==> vr - 0.05 < vx <= vr + 0.05
  {
  }

  lemma ValueBySign(x: Number)
    requires x.Decimal?
    ensures var v := Abs(x.mantissa) as real / Pow10(x.scale) as real;
            && 0.0 <= v && (x.mantissa < 0 ==> v > 0.0)
            && Value(x) == if x.mantissa < 0 then -v else v
  {
    DivMonotone(0, Abs(x.mantissa), Pow10(x.scale));
    NegateFraction(Abs(x.mantissa), Pow10(x.scale));
  }

  lemma RoundedBySign(x: Number)
    requires x.Decimal?
    ensures var w := TenthsHalfUp(Abs(x.mantissa), x.scale) as real / 10.0;
            Value(RoundToTenth(x)) == if x.mantissa < 0 then -w else w
  {
    var n := TenthsHalfUp(Abs(x.mantissa), x.scale);
    assert RoundToTenth(x) == Decimal(if x.mantissa < 0 then -(n as int) else n, 1);
    assert Pow10(1) == 10;
    NegateFraction(n, 10);
  }

  lemma RoundToTenthNearest(x: Number)
    requires x.Decimal?
    ensures var r := RoundToTenth(x);
            && (Value(x) >= 0.0 ==> Value(r) - 0.05 <= Value(x) < Value(r) + 0.05)
            && (Value(x) < 0.0 ==> Value(r) - 0.05 < Value(x) <= Value(r) + 0.05)
  {
    var m, s := x.mantissa, x.scale;
    HalfUpBounds(Abs(m), s);
    ValueBySign(x);
    RoundedBySign(x);
    SignedNearest(Value(x), Value(RoundToTenth(x)), Abs(m) as real / Pow10(s) as real,
                  TenthsHalfUp(Abs(m), s) as real / 10.0, m < 0);
  }

  /** `parseFloat` reads the text of the number 0 as zero, whatever unit follows it. */
  lemma ParseFloatZero(unit: string)
    requires EndsNumber(unit)
    ensures ParseFloat("0" + unit) == Zero
  {
    ParseUnsignedInteger("0", unit);
    TrimStartNoSpace("0" + unit);
    ParseSignedDigits(false, "0" + unit);
  }

  // ---------------------------------------------------------------- the shape of the written texts

  /** Plain-notation number text: "NaN", or an optional minus sign followed by
      digits and decimal points only, so no unit and no exponent. */
  predicate IsPlainNumberText(t: string) {
    t == "NaN" ||
    var start := if |t| > 0 && t[0] == '-' then 1 else 0;
    start < |t| && forall i :: start <= i < |t| ==> IsDigit(t[i]) || t[i] == '.'
  }

  /** One-fraction-digit text: an optional minus sign, at least one integer
      digit, a decimal point and exactly one fraction digit. */
  predicate IsFixed1Text(t: string) {
    var start := if |t| > 0 && t[0] == '-' then 1 else 0;
    && |t| >= start + 3
    && AllDigits(t[start..|t| - 2])
    && t[|t| - 2] == '.'
    && IsDigit(t[|t| - 1])
  }

  lemma PointedDigitsChars(a: nat, k: nat)
    ensures var r := PointedDigits(a, k);
            IsDigit(r[0]) && forall i :: 0 <= i < |r| ==> IsDigit(r[i]) || r[i] == '.'
  {
    PointedDigitsShape(a, k);
  }

  lemma PointedDigitsOne(a: nat)
    ensures var r := PointedDigits(a, 1);
            && |r| >= 3 && AllDigits(r[..|r| - 2]) && r[|r| - 2] == '.' && IsDigit(r[|r| - 1])
  {
    PointedDigitsShape(a, 1);
    var digits := PadStart(NatToString(a), 2);
    var cut := |digits| - 1;
    assert PointedDigits(a, 1)[..|PointedDigits(a, 1)| - 2] == digits[..cut];
  }

  /** `toString` writes plain notation: digits, a point and a sign, or "NaN". */
  lemma NumberToStringShape(x: Number)
    ensures IsPlainNumberText(NumberToString(x))
  {
    if x.Decimal? {
      var n := Normalize(x);
      PointedDigitsChars(Abs(n.mantissa), n.scale);
    }
  }

  /** `toFixed(1)` writes "NaN", or a sign, integer digits, a point and one fraction digit. */
  lemma ToFixed1Shape(x: Number)
    ensures x.NaN? ==> ToFixed1(x) == "NaN"
    ensures x.Decimal? ==> IsFixed1Text(ToFixed1(x))
  {
    if x.Decimal? {
      var r := PointedDigits(TenthsHalfUp(Abs(x.mantissa), x.scale), 1);
      PointedDigitsOne(TenthsHalfUp(Abs(x.mantissa), x.scale));
      var t := ToFixed1(x);
      if x.mantissa < 0 {
        assert t == "-" + r;
        assert t[1..|t| - 2] == r[..|r| - 2];
      } else {
        assert t == r;
      }
    }
  }
}
