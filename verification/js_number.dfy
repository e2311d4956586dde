/**
  The slice of JavaScript number semantics the rating normaliser depends on:
  `Number(string)` (section 7.1.4.1.1 of ECMA-262, StringToNumber), IEEE-754
  division and multiplication, `Number.prototype.toFixed(1)` and the
  number-to-string conversion that storing a number into a String field performs.

  A double is modelled by its sign and an exact non-negative magnitude, so signed
  zero, the two infinities and NaN behave as in IEEE-754 while finite values are
  exact rationals (binary rounding of the double is not modelled).
*/
module JsNumber {
  import opened Optional
  import Keyed

  type Magnitude = r: real | 0.0 <= r witness 0.0

  datatype Num = Finite(negative: bool, magnitude: Magnitude) | Infinite(negative: bool) | NaN

  /** The mathematical value of a finite number (both zeros are 0). */
  function Value(x: Num): real
    requires x.Finite?
  {
    var m: real := x.magnitude;
    if x.negative then -m else m
  }

  // ---------------------------------------------------------------------------
  // StringToNumber

  /** StrWhiteSpaceChar: WhiteSpace and LineTerminator code points. */
  predicate IsWhiteSpace(c: char) {
    c in {'\t', '\n', '\U{000B}', '\U{000C}', '\r', ' ', '\U{00A0}', '\U{1680}',
          '\U{2000}', '\U{2001}', '\U{2002}', '\U{2003}', '\U{2004}', '\U{2005}',
          '\U{2006}', '\U{2007}', '\U{2008}', '\U{2009}', '\U{200A}',
          '\U{2028}', '\U{2029}', '\U{202F}', '\U{205F}', '\U{3000}', '\U{FEFF}'}
  }

  /** Number of white-space characters at the start of `s`. */
  function LeadingSpace(s: string): (k: nat)
    ensures k <= |s|
    ensures forall i :: 0 <= i < k ==> IsWhiteSpace(s[i])
    ensures k < |s| ==> !IsWhiteSpace(s[k])
  {
    if |s| > 0 && IsWhiteSpace(s[0]) then 1 + LeadingSpace(s[1..]) else 0
  }

  /** Number of white-space characters at the end of `s`. */
  function TrailingSpace(s: string): (k: nat)
    ensures k <= |s|
    ensures forall i :: |s| - k <= i < |s| ==> IsWhiteSpace(s[i])
    ensures k < |s| ==> !IsWhiteSpace(s[|s| - k - 1])
  {
    if |s| > 0 && IsWhiteSpace(s[|s| - 1]) then 1 + TrailingSpace(s[..|s| - 1]) else 0
  }

  /** The string with leading and trailing white space removed. */
  function Trim(s: string): (r: string)
    ensures |r| <= |s|
    ensures |r| > 0 ==> !IsWhiteSpace(r[0]) && !IsWhiteSpace(r[|r| - 1])
    ensures |s| > 0 && !IsWhiteSpace(s[0]) && !IsWhiteSpace(s[|s| - 1]) ==> r == s
  {
    var rest := s[LeadingSpace(s)..];
    rest[..|rest| - TrailingSpace(rest)]
  }

  predicate IsDigitIn(c: char, radix: nat) {
    match radix
    case 2 => '0' <= c <= '1'
    case 8 => '0' <= c <= '7'
    case 10 => '0' <= c <= '9'
    case 16 => '0' <= c <= '9' || 'a' <= c <= 'f' || 'A' <= c <= 'F'
    case _ => false
  }

  function DigitValue(c: char): (d: nat)
    ensures d < 16
  {
    if '0' <= c <= '9' then c as int - '0' as int
    else if 'a' <= c <= 'f' then c as int - 'a' as int + 10
    else if 'A' <= c <= 'F' then c as int - 'A' as int + 10
    else 0
  }

  predicate AllDigits(s: string, radix: nat) {
    forall i :: 0 <= i < |s| ==> IsDigitIn(s[i], radix)
  }

  /** The value of a digit string in the given radix, most significant digit first. */
  function DigitsValue(s: string, radix: nat): nat
    requires AllDigits(s, radix)
  {
    if |s| == 0 then 0
    else DigitsValue(s[..|s| - 1], radix) * radix + DigitValue(s[|s| - 1])
  }

  function Pow10(n: nat): (p: nat)
    ensures p >= 1
  {
    if n == 0 then 1 else 10 * Pow10(n - 1)
  }

  function Self(c: char): char { c }

  function IsExponentMark(c: char): bool { c == 'e' || c == 'E' }

  /** StrUnsignedDecimalLiteral without `Infinity`: digits with an optional point, at least one digit. */
  function ParseMantissa(m: string): Option<Magnitude> {
    match Keyed.Find(m, Self, '.')
    case None =>
      if |m| > 0 && AllDigits(m, 10) then Some(DigitsValue(m, 10) as real) else None
    case Some(p) =>
      var whole := m[..p];
      var frac := m[p + 1..];
      if AllDigits(whole, 10) && AllDigits(frac, 10) && |whole| + |frac| > 0 then
        Some(DigitsValue(whole + frac, 10) as real / Pow10(|frac|) as real)
      else None
  }

  /** ExponentPart after the `e`: SignedInteger. */
  function ParseExponent(e: string): Option<int> {
    if |e| > 0 && (e[0] == '+' || e[0] == '-') then
      if |e| > 1 && AllDigits(e[1..], 10) then
        var v := DigitsValue(e[1..], 10);
        Some(if e[0] == '-' then -(v as int) else v)
      else None
    else if |e| > 0 && AllDigits(e, 10) then Some(DigitsValue(e, 10))
    else None
  }

  function Scale(m: Magnitude, e: int): Magnitude {
    if e >= 0 then m * Pow10(e) as real else m / Pow10(-e) as real
  }

  function ParseUnsigned(t: string): Option<Num> {
    if t == "Infinity" then Some(Infinite(false))
    else
      match Keyed.Find(t, IsExponentMark, true)
      case None =>
        (match ParseMantissa(t)
         case None => None
         case Some(m) => Some(Finite(false, m)))
      case Some(p) =>
        (match (ParseMantissa(t[..p]), ParseExponent(t[p + 1..]))
         case (Some(m), Some(e)) => Some(Finite(false, Scale(m, e)))
         case _ => None)
  }

  function Negate(x: Num): Num {
    match x
    case Finite(n, m) => Finite(!n, m)
    case Infinite(n) => Infinite(!n)
    case NaN => NaN
  }

  /** StrDecimalLiteral: an optional sign before an unsigned literal. */
  function ParseSigned(t: string): Option<Num> {
    if |t| > 0 && t[0] == '+' then ParseUnsigned(t[1..])
    else if |t| > 0 && t[0] == '-' then
      (match ParseUnsigned(t[1..])
       case None => None
       case Some(x) => Some(Negate(x)))
    else ParseUnsigned(t)
  }

  /** NonDecimalIntegerLiteral: `0x`, `0o` or `0b` followed by at least one digit of that radix. */
  function ParseNonDecimal(t: string): Option<Num> {
    if |t| > 2 && t[0] == '0' then
      var radix := if t[1] in "xX" then 16 else if t[1] in "oO" then 8 else if t[1] in "bB" then 2 else 0;
      if radix != 0 && AllDigits(t[2..], radix) then Some(Finite(false, DigitsValue(t[2..], radix) as real))
      else None
    else None
  }

  /** `Number(s)` for a string `s`. */
  function StringToNumber(s: string): Num {
    var t := Trim(s);
    if |t| == 0 then Finite(false, 0.0)
    else
      match ParseNonDecimal(t)
      case Some(x) => x
      case None =>
        match ParseSigned(t)
        case Some(x) => x
        case None => NaN
  }

  /** `Number(v)` where `v` is a string or `undefined`. */
  function ToNumber(v: Option<string>): Num {
    match v
    case None => NaN
    case Some(s) => StringToNumber(s)
  }

  // ---------------------------------------------------------------------------
  // Arithmetic

  /** IEEE-754 division. */
  function Divide(a: Num, b: Num): (r: Num)
    ensures a.Finite? && b.Finite? && b.magnitude != 0.0 ==> r.Finite? && Value(r) * Value(b) == Value(a)
    ensures a.Finite? && b.Finite? && b.magnitude == 0.0 ==> (r.NaN? <==> a.magnitude == 0.0)
    ensures a.Finite? && b.Finite? && b.magnitude == 0.0 && a.magnitude != 0.0 ==> r == Infinite(a.negative != b.negative)
    ensures r.Infinite? ==> !a.NaN? && !b.NaN? && r.negative == (a.negative != b.negative)
    ensures (a.NaN? || b.NaN?) ==> r.NaN?
    ensures a.Infinite? && b.Infinite? ==> r.NaN?
    ensures a.Infinite? && b.Finite? ==> r == Infinite(a.negative != b.negative)
    ensures a.Finite? && b.Infinite? ==> r.Finite? && r.magnitude == 0.0 && r.negative == (a.negative != b.negative)
  {
    match (a, b)
    case (NaN, _) => NaN
    case (_, NaN) => NaN
    case (Infinite(_), Infinite(_)) => NaN
    case (Infinite(na), Finite(nb, _)) => Infinite(na != nb)
    case (Finite(na, _), Infinite(nb)) => Finite(na != nb, 0.0)
    case (Finite(na, ma), Finite(nb, mb)) =>
      if mb == 0.0 then (if ma == 0.0 then NaN else Infinite(na != nb))
      else Finite(na != nb, ma / mb)
  }

  /** IEEE-754 multiplication. */
  function Multiply(a: Num, b: Num): (r: Num)
    ensures a.Finite? && b.Finite? ==> r.Finite? && Value(r) == Value(a) * Value(b)
    ensures a.Infinite? && b.Finite? && b.magnitude != 0.0 ==> r == Infinite(a.negative != b.negative)
    ensures (a.NaN? || b.NaN?) ==> r.NaN?
  {
    match (a, b)
    case (NaN, _) => NaN
    case (_, NaN) => NaN
    case (Infinite(na), Infinite(nb)) => Infinite(na != nb)
    case (Infinite(na), Finite(nb, mb)) => if mb == 0.0 then NaN else Infinite(na != nb)
    case (Finite(na, ma), Infinite(nb)) => if ma == 0.0 then NaN else Infinite(na != nb)
    case (Finite(na, ma), Finite(nb, mb)) => Finite(na != nb, ma * mb)
  }

  // ---------------------------------------------------------------------------
  // toFixed(1) and number-to-string

  datatype Invalidity = NotANumber | Infinity(negative: bool)

  /** What `x.toFixed(1)` returns: a sign and a count of tenths, or the text of a non-finite value. */
  datatype Fixed = Decimal(negative: bool, tenths: nat) | Invalid(what: Invalidity)

  /**
    `x.toFixed(1)`: the nearest multiple of 0.1 to |x| (the larger one on a tie),
    with a minus sign exactly when x < 0; NaN and the infinities are passed through.
  */
  function ToFixed1(x: Num): (r: Fixed)
    ensures x.NaN? <==> r == Invalid(NotANumber)
    ensures x.Infinite? ==> r == Invalid(Infinity(x.negative))
    ensures r.Decimal? <==> x.Finite?
    ensures x.Finite? ==> r.Decimal? && (r.negative <==> Value(x) < 0.0)
    ensures x.Finite? ==> r.Decimal? && r.tenths as real - 0.5 <= 10.0 * x.magnitude < r.tenths as real + 0.5
  {
    match x
    case NaN => Invalid(NotANumber)
    case Infinite(n) => Invalid(Infinity(n))
    case Finite(n, m) =>
      var t := (10.0 * m + 0.5).Floor;
      assert t >= 0;
      Decimal(n && m > 0.0, t)
  }

  function DigitChar(d: nat): (c: char)
    requires d < 10
    ensures IsDigitIn(c, 10) && DigitValue(c) == d
  {
    ('0' as int + d) as char
  }

  /** Decimal digits of a natural number, without leading zeros. */
  function NatText(n: nat): (s: string)
    ensures |s| > 0 && AllDigits(s, 10)
    decreases n
  {
    if n < 10 then [DigitChar(n)] else NatText(n / 10) + [DigitChar(n % 10)]
  }

  /** The digits `toFixed(1)` prints for a count of tenths, without the sign. */
  function PointText(t: nat): string {
    NatText(t / 10) + "." + [DigitChar(t % 10)]
  }

  /** The string `toFixed(1)` produces. */
  function FixedText(f: Fixed): string {
    match f
    case Decimal(neg, t) => (if neg then "-" else "") + PointText(t)
    case Invalid(NotANumber) => "NaN"
    case Invalid(Infinity(neg)) => if neg then "-Infinity" else "Infinity"
  }

  /** `String(x)` for the non-negative number x = t / 10: no fraction part when x is whole. */
  function TenthsText(t: nat): string {
    if t % 10 == 0 then NatText(t / 10) else PointText(t)
  }

  // ---------------------------------------------------------------------------
  // Printing and parsing agree

  lemma {:induction false} NatTextValue(n: nat)
    ensures DigitsValue(NatText(n), 10) == n
    decreases n
  {
    if n >= 10 {
      NatTextValue(n / 10);
      var s := NatText(n / 10);
      assert (s + [DigitChar(n % 10)])[..|s|] == s;
    }
  }

  /** Reading a decimal `whole.d` with `Number` gives back (10 * whole + d) / 10. */
  lemma {:induction false} ParsePointDigit(whole: nat, d: nat)
    requires d < 10
    ensures ParseUnsigned(NatText(whole) + "." + [DigitChar(d)]) == Some(Finite(false, (10 * whole + d) as real / 10.0))
  {
    var q := NatText(whole);
    var c := DigitChar(d);
    ParsePoint(q, c);
    NatTextValue(whole);
    assert (q + [c])[..|q|] == q;
  }

  /** A digit string, a point and one more digit is read as the digits' value over ten. */
  lemma {:induction false} ParsePoint(q: string, c: char)
    requires |q| > 0 && AllDigits(q, 10) && IsDigitIn(c, 10)
    ensures AllDigits(q + [c], 10)
    ensures ParseUnsigned(q + "." + [c]) == Some(Finite(false, DigitsValue(q + [c], 10) as real / 10.0))
  {
    var u := q + "." + [c];
    assert u[0] == q[0];
    NotInfinity(u);
    NoExponentMark(q, c);
    MantissaOfPoint(q, c);
  }

  lemma {:induction false} NotInfinity(u: string)
    requires |u| > 0 && IsDigitIn(u[0], 10)
    ensures u != "Infinity"
  {
    assert "Infinity"[0] == 'I';
  }

  lemma {:induction false} NoExponentMark(q: string, c: char)
    requires AllDigits(q, 10) && IsDigitIn(c, 10)
    ensures Keyed.Find(q + "." + [c], IsExponentMark, true) == None
  {
    var u := q + "." + [c];
    forall i | 0 <= i < |u| ensures IsExponentMark(u[i]) != true {
      if i < |q| { assert u[i] == q[i]; }
    }
  }

  lemma {:induction false} MantissaOfPoint(q: string, c: char)
    requires AllDigits(q, 10) && IsDigitIn(c, 10)
    requires |q| > 0
    ensures AllDigits(q + [c], 10)
    ensures ParseMantissa(q + "." + [c]) == Some(DigitsValue(q + [c], 10) as real / 10.0)
  {
    FindPoint(q, c);
    PointParts(q, c);
    AppendDigit(q, c);
    assert Pow10(1) == 10;
  }

  lemma {:induction false} PointParts(q: string, c: char)
    ensures (q + "." + [c])[..|q|] == q
    ensures (q + "." + [c])[|q| + 1..] == [c]
  {
  }

  lemma {:induction false} FindPoint(q: string, c: char)
    requires AllDigits(q, 10)
    ensures Keyed.Find(q + "." + [c], Self, '.') == Some(|q|)
  {
    var u := q + "." + [c];
    forall i | 0 <= i < |q| ensures Self(u[i]) != '.' {
      assert u[i] == q[i];
    }
    Keyed.FindIs(u, Self, '.', |q|);
  }

  lemma {:induction false} AppendDigit(q: string, c: char)
    requires AllDigits(q, 10) && IsDigitIn(c, 10)
    ensures AllDigits(q + [c], 10)
  {
  }

  /** Reading a digit string with `Number` gives back its value. */
  lemma {:induction false} ParseWhole(whole: nat)
    ensures ParseUnsigned(NatText(whole)) == Some(Finite(false, whole as real))
  {
    var q := NatText(whole);
    assert forall i :: 0 <= i < |q| ==> IsExponentMark(q[i]) != true;
    assert Keyed.Find(q, IsExponentMark, true) == None;
    assert forall i :: 0 <= i < |q| ==> Self(q[i]) != '.';
    assert Keyed.Find(q, Self, '.') == None;
    NatTextValue(whole);
  }

  lemma {:induction false} DigitNotSpace(c: char)
    requires IsDigitIn(c, 10) || c == '-'
    ensures !IsWhiteSpace(c)
  {
  }

  /** An unsigned decimal text starting and ending with a digit is read as written. */
  lemma {:induction false} ReadPlain(u: string, x: Num)
    requires |u| > 1 && IsDigitIn(u[0], 10) && IsDigitIn(u[|u| - 1], 10)
    requires u[1] == '.' || IsDigitIn(u[1], 10)
    requires ParseUnsigned(u) == Some(x)
    ensures StringToNumber(u) == x
  {
    DigitNotSpace(u[0]);
    DigitNotSpace(u[|u| - 1]);
    assert Trim(u) == u;
    assert ParseNonDecimal(u) == None;
  }

  /** The same text behind a minus sign is read negated. */
  lemma {:induction false} ReadMinus(u: string, x: Num)
    requires |u| > 1 && IsDigitIn(u[0], 10) && IsDigitIn(u[|u| - 1], 10)
    requires ParseUnsigned(u) == Some(x)
    ensures StringToNumber("-" + u) == Negate(x)
  {
    var text := "-" + u;
    DigitNotSpace(text[0]);
    DigitNotSpace(text[|text| - 1]);
    assert Trim(text) == text;
    assert ParseNonDecimal(text) == None;
    assert text[1..] == u;
  }

  lemma {:induction false} PointTextShape(t: nat)
    ensures |PointText(t)| > 2
    ensures IsDigitIn(PointText(t)[0], 10) && IsDigitIn(PointText(t)[|PointText(t)| - 1], 10)
    ensures PointText(t)[1] == '.' || IsDigitIn(PointText(t)[1], 10)
    ensures ParseUnsigned(PointText(t)) == Some(Finite(false, t as real / 10.0))
  {
    var q := NatText(t / 10);
    var u := PointText(t);
    assert u[0] == q[0];
    if |q| > 1 { assert u[1] == q[1]; }
    ParsePointDigit(t / 10, t % 10);
    assert 10 * (t / 10) + t % 10 == t;
  }

  /** `Number(x.toFixed(1))` is the rounded value, sign of zero included. */
  lemma {:induction false} FixedTextRoundTrip(neg: bool, t: nat)
    ensures StringToNumber(FixedText(Decimal(neg, t))) == Finite(neg, t as real / 10.0)
  {
    if neg {
      assert FixedText(Decimal(neg, t)) == "-" + PointText(t);
      MinusPointRoundTrip(t);
    } else {
      assert FixedText(Decimal(neg, t)) == PointText(t);
      PointRoundTrip(t);
    }
  }

  lemma {:induction false} PointRoundTrip(t: nat)
    ensures StringToNumber(PointText(t)) == Finite(false, t as real / 10.0)
  {
    PointTextShape(t);
    ReadPlain(PointText(t), Finite(false, t as real / 10.0));
  }

  lemma {:induction false} MinusPointRoundTrip(t: nat)
    ensures StringToNumber("-" + PointText(t)) == Finite(true, t as real / 10.0)
  {
    var u := PointText(t);
    var x := Finite(false, t as real / 10.0);
    PointTextShape(t);
    ReadMinus(u, x);
    assert Negate(x) == Finite(true, t as real / 10.0);
  }

  /** `Number(String(t / 10))` is t / 10. */
  lemma {:induction false} TenthsTextRoundTrip(t: nat)
    ensures StringToNumber(TenthsText(t)) == Finite(false, t as real / 10.0)
  {
    if t % 10 == 0 {
      WholeTextRoundTrip(t / 10);
      assert t == 10 * (t / 10);
    } else {
      PointTextShape(t);
      ReadPlain(PointText(t), Finite(false, t as real / 10.0));
    }
  }

  /** `Number(String(n))` is n for a natural number n. */
  lemma {:induction false} WholeTextRoundTrip(n: nat)
    ensures StringToNumber(NatText(n)) == Finite(false, n as real)
  {
    var q := NatText(n);
    ParseWhole(n);
    if |q| == 1 {
      DigitNotSpace(q[0]);
      assert Trim(q) == q;
      assert ParseNonDecimal(q) == None;
    } else {
      assert IsDigitIn(q[1], 10);
      ReadPlain(q, Finite(false, n as real));
    }
  }
}
