/**
  The field normalisers applied to critic and user rows: `isBoolean`,
  `preprocessFraction`, `preprocessLetter` and `preprocessRating` (app.ts:153-196).
  Ratings are counted in tenths of a point on the 0-5 scale.
*/
module Normalize {
  import opened Optional
  import Keyed
  import opened JsNumber

  /** `isBoolean(v)`: `false` for the exact text "False", `true` for anything else, `undefined` included. */
  function IsBoolean(v: Option<string>): (b: bool)
    ensures !b <==> v == Some("False")
  {
    match v
    case None => true
    case Some(s) => s != "False"
  }

  // ---------------------------------------------------------------------------
  // preprocessFraction

  /** The first `/`-separated part of `s`: everything before the first `/`, or all of `s`. */
  function FirstPart(s: string): (p: string)
    ensures '/' !in p
    ensures '/' !in s ==> p == s
    ensures '/' in s ==> |p| < |s| && s[..|p|] == p && s[|p|] == '/'
  {
    match Keyed.Find(s, Self, '/')
    case None => s
    case Some(i) => s[..i]
  }

  /** The second `/`-separated part of `s`; `undefined` when `s` has no `/`. */
  function SecondPart(s: string): (p: Option<string>)
    ensures p.None? <==> '/' !in s
    ensures p.Some? ==> '/' !in p.value
    ensures p.Some? ==> |FirstPart(s)| < |s| && p.value == FirstPart(s[|FirstPart(s)| + 1..])
  {
    match Keyed.Find(s, Self, '/')
    case None => None
    case Some(i) => Some(FirstPart(s[i + 1..]))
  }

  /** The numerator and denominator `fraction.split('/').map(Number)` destructures. */
  function Numerator(fraction: string): Num {
    StringToNumber(FirstPart(fraction))
  }

  function Denominator(fraction: string): Num {
    ToNumber(SecondPart(fraction))
  }

  /** `(numerator / denominator) * 5`. */
  function FractionValue(fraction: string): Num {
    Multiply(Divide(Numerator(fraction), Denominator(fraction)), Finite(false, 5.0))
  }

  /**
    `preprocessFraction(fraction)`: the scaled quotient formatted with `toFixed(1)`.
    Malformed parts or a zero denominator give NaN or an infinity, never an exception.
  */
  function PreprocessFraction(fraction: string): (r: Fixed)
    ensures var n := Numerator(fraction); var d := Denominator(fraction);
      r.Decimal? <==> n.Finite? && (d.Infinite? || (d.Finite? && d.magnitude != 0.0))
    ensures Numerator(fraction).NaN? || Denominator(fraction).NaN? ==> r == Invalid(NotANumber)
    ensures var n := Numerator(fraction); var d := Denominator(fraction);
      n.Finite? && d.Finite? && d.magnitude == 0.0 ==>
        r == (if n.magnitude == 0.0 then Invalid(NotANumber) else Invalid(Infinity(n.negative != d.negative)))
    ensures var n := Numerator(fraction); var d := Denominator(fraction);
      n.Infinite? && d.Infinite? ==> r == Invalid(NotANumber)
    ensures var n := Numerator(fraction); var d := Denominator(fraction);
      n.Infinite? && d.Finite? ==> r == Invalid(Infinity(n.negative != d.negative))
    ensures var n := Numerator(fraction); var d := Denominator(fraction);
      n.Finite? && d.Infinite? ==> r == Decimal(false, 0)
  {
    InfiniteParts(Numerator(fraction), Denominator(fraction));
    ToFixed1(FractionValue(fraction))
  }

  /** `toFixed(1)` of (n / d) * 5 when a part is infinite. */
  lemma {:induction false} InfiniteParts(n: Num, d: Num)
    ensures var r := ToFixed1(Multiply(Divide(n, d), Finite(false, 5.0)));
      && (n.Infinite? && d.Infinite? ==> r == Invalid(NotANumber))
      && (n.Infinite? && d.Finite? ==> r == Invalid(Infinity(n.negative != d.negative)))
      && (n.Finite? && d.Infinite? ==> r == Decimal(false, 0))
  {
    var five := Finite(false, 5.0);
    if n.Infinite? && d.Infinite? {
      assert Divide(n, d) == NaN;
      assert Multiply(NaN, five) == NaN;
    } else if n.Infinite? && d.Finite? {
      var q := Infinite(n.negative != d.negative);
      assert Divide(n, d) == q;
      assert Multiply(q, five) == q;
    } else if n.Finite? && d.Infinite? {
      var q := Finite(n.negative != d.negative, 0.0);
      assert Divide(n, d) == q;
      assert Multiply(q, five) == Finite(q.negative, 0.0);
      assert ToFixed1(Finite(q.negative, 0.0)) == Decimal(false, 0);
    }
  }

  // ---------------------------------------------------------------------------
  // preprocessLetter and preprocessRating

  /** The grades `preprocessRating` recognises, best first. */
  const LetterGrades: seq<string> := ["A+", "A", "A-", "B+", "B", "B-", "C+", "C", "C-", "D+", "D", "D-", "F"]

  /** The `mapping` object of `preprocessLetter`, in tenths; `None` where the object has no such property. */
  function LetterTable(letter: string): Option<nat> {
    if letter == "A+" then Some(50)
    else if letter == "A" then Some(45)
    else if letter == "A-" then Some(40)
    else if letter == "B+" then Some(35)
    else if letter == "B" then Some(30)
    else if letter == "B-" then Some(25)
    else if letter == "C+" then Some(20)
    else if letter == "C" then Some(15)
    else if letter == "C-" then Some(10)
    else if letter == "D+" then Some(5)
    else if letter == "D" then Some(0)
    else if letter == "D-" then Some(0)
    else if letter == "F" then Some(0)
    else None
  }

  /** `mapping[letter] || 0`: the table value, and 0 for a letter the table lacks. */
  function PreprocessLetter(letter: string): (r: nat)
    ensures r <= 50
    ensures LetterTable(letter).None? ==> r == 0
    ensures forall i :: 0 <= i < |LetterGrades| && letter == LetterGrades[i] ==> r == GradeTenths[i]
  {
    LetterTableShape();
    match LetterTable(letter)
    case None => 0
    case Some(v) => v
  }

  /**
    What `preprocessRating` returns. The fraction path yields the string from
    `toFixed(1)`; the letter and default paths yield a number.
  */
  datatype Rating = FromFraction(fixed: Fixed) | FromNumber(tenths: nat)

  function PreprocessRating(rating: string): (r: Rating)
    ensures r.FromFraction? <==> '/' in rating
    ensures r.FromNumber? ==> r.tenths <= 50
    ensures rating in LetterGrades ==> r == FromNumber(LetterTable(rating).value)
    ensures '/' !in rating && rating !in LetterGrades ==> r == FromNumber(0)
  {
    GradesHaveNoSlash(rating);
    if '/' in rating then FromFraction(PreprocessFraction(rating))
    else if rating in LetterGrades then FromNumber(PreprocessLetter(rating))
    else FromNumber(0)
  }

  lemma {:induction false} GradesHaveNoSlash(g: string)
    ensures g in LetterGrades ==> '/' !in g && LetterTable(g).Some?
  {
  }

  /** The text a String-typed field holds once the rating is stored: `toFixed`'s text, or `String(number)`. */
  function StoredText(r: Rating): string {
    match r
    case FromFraction(f) => FixedText(f)
    case FromNumber(t) => TenthsText(t)
  }

  // ---------------------------------------------------------------------------
  // Properties

  /** The coercion table: only "False" (case-sensitive) is false. */
  lemma {:induction false} IsBooleanTable()
    ensures !IsBoolean(Some("False"))
    ensures IsBoolean(Some("True")) && IsBoolean(Some("false")) && IsBoolean(Some("")) && IsBoolean(None)
  {
  }

  /** The table's values along the grade list, in tenths: 5.0, 4.5, 4.0, ... 0.5, 0.0, 0.0, 0.0. */
  const GradeTenths: seq<nat> := [50, 45, 40, 35, 30, 25, 20, 15, 10, 5, 0, 0, 0]

  /** The table has a value for exactly the listed grades. */
  lemma {:induction false} LetterTableKeys()
    ensures forall g :: LetterTable(g).Some? <==> g in LetterGrades
  {
  }

  /** Along the grade list the table reads `GradeTenths`, which stays within 0-5 and never increases. */
  lemma {:induction false} LetterTableShape()
    ensures |GradeTenths| == |LetterGrades|
    ensures forall i :: 0 <= i < |LetterGrades| ==> LetterTable(LetterGrades[i]) == Some(GradeTenths[i])
    ensures forall i :: 0 <= i < |GradeTenths| ==> GradeTenths[i] <= 50
    ensures forall i, j :: 0 <= i < j < |GradeTenths| ==> GradeTenths[j] <= GradeTenths[i]
  {
    forall i, j | 0 <= i < j < |GradeTenths|
      ensures GradeTenths[j] <= GradeTenths[i]
    {
      DescendingStep(i, j);
    }
  }

  lemma {:induction false} DescendingStep(i: nat, j: nat)
    requires i < j < |GradeTenths|
    ensures GradeTenths[j] <= GradeTenths[i]
    decreases j - i
  {
    if j > i + 1 {
      DescendingStep(i + 1, j);
    }
  }

  /** `t` tenths is the nearest multiple of 0.1 to 5 n / d, the larger one on a tie. */
  ghost predicate NearestTenth(t: nat, n: real, d: real) {
    (t as real - 0.5) * d <= 50.0 * n < (t as real + 0.5) * d
  }

  /** The rounding `preprocessFraction` performs: 5 n / d to the nearest tenth, ties rounded away from zero. */
  lemma {:induction false} FractionRounding(fraction: string)
    requires Numerator(fraction).Finite? && Denominator(fraction).Finite?
    requires Denominator(fraction).magnitude > 0.0
    ensures var n := Numerator(fraction); var d := Denominator(fraction); var r := PreprocessFraction(fraction);
      && r.Decimal?
      && (r.negative <==> n.negative != d.negative && n.magnitude > 0.0)
      && NearestTenth(r.tenths, n.magnitude, d.magnitude)
  {
    var n := Numerator(fraction);
    var d := Denominator(fraction);
    ScaledQuotient(n, d);
    assert PreprocessFraction(fraction) == ToFixed1(Multiply(Divide(n, d), Finite(false, 5.0)));
  }

  lemma {:induction false} ScaledQuotient(n: Num, d: Num)
    requires n.Finite? && d.Finite? && d.magnitude > 0.0
    ensures var r := ToFixed1(Multiply(Divide(n, d), Finite(false, 5.0)));
      && r.Decimal?
      && (r.negative <==> n.negative != d.negative && n.magnitude > 0.0)
      && NearestTenth(r.tenths, n.magnitude, d.magnitude)
  {
    var q := Divide(n, d);
    assert q == Finite(n.negative != d.negative, n.magnitude / d.magnitude);
    var x := Multiply(q, Finite(false, 5.0));
    assert x == Finite(q.negative, q.magnitude * 5.0);
    var r := ToFixed1(x);
    RoundedQuotient(r.tenths as real, q.magnitude, d.magnitude, n.magnitude);
  }

  lemma {:induction false} RoundedQuotient(t: real, q: real, d: real, n: real)
    requires d > 0.0 && q * d == n
    requires t - 0.5 <= 50.0 * q < t + 0.5
    ensures (t - 0.5) * d <= 50.0 * n < (t + 0.5) * d
  {
    RoundedBelow(t, q, d, n);
    RoundedAbove(t, q, d, n);
  }

  lemma {:induction false} RoundedBelow(t: real, q: real, d: real, n: real)
    requires d > 0.0 && q * d == n
    requires t - 0.5 <= 50.0 * q
    ensures (t - 0.5) * d <= 50.0 * n
  {
    MulBoth(t - 0.5, 50.0 * q, d);
    assert (t - 0.5) * d <= (50.0 * q) * d;
    assert (50.0 * q) * d == 50.0 * (q * d);
    assert 50.0 * (q * d) == 50.0 * n;
  }

  lemma {:induction false} RoundedAbove(t: real, q: real, d: real, n: real)
    requires d > 0.0 && q * d == n
    requires 50.0 * q < t + 0.5
    ensures 50.0 * n < (t + 0.5) * d
  {
    var lhs := 50.0 * q;
    var rhs := t + 0.5;
    MulStrict(lhs, rhs, d);
    assert lhs * d == 50.0 * n;
  }

  lemma {:induction false} MulBoth(a: real, b: real, c: real)
    requires a <= b && c > 0.0
    ensures a * c <= b * c
  {
  }

  lemma {:induction false} MulStrict(a: real, b: real, c: real)
    requires a < b && c > 0.0
    ensures a * c < b * c
  {
  }

  /** With 0 <= n <= d and d > 0 the result is a non-negative tenth count of at most 50 (0.0 to 5.0). */
  lemma {:induction false} FractionInRange(fraction: string)
    requires Numerator(fraction).Finite? && Denominator(fraction).Finite?
    requires 0.0 <= Value(Numerator(fraction)) <= Value(Denominator(fraction))
    requires Value(Denominator(fraction)) > 0.0
    ensures PreprocessFraction(fraction).Decimal?
    ensures !PreprocessFraction(fraction).negative && PreprocessFraction(fraction).tenths <= 50
  {
    var n := Numerator(fraction);
    var d := Denominator(fraction);
    FractionRounding(fraction);
    assert n.magnitude <= d.magnitude;
    AtMostFifty(PreprocessFraction(fraction).tenths, n.magnitude, d.magnitude);
  }

  lemma {:induction false} AtMostFifty(t: nat, n: real, d: real)
    requires NearestTenth(t, n, d)
    requires 0.0 <= n <= d && d > 0.0
    ensures t <= 50
  {
    var lo := t as real - 0.5;
    assert lo * d <= 50.0 * n;
    assert 50.0 * n <= 50.0 * d;
    DivideBoth(lo, 50.0, d);
  }

  lemma {:induction false} DivideBoth(a: real, b: real, c: real)
    requires a * c <= b * c && c > 0.0
    ensures a <= b
  {
  }

  /** How `split('/')` divides a text whose first `/` follows `a`. */
  lemma {:induction false} SplitAfter(a: string, tail: string)
    requires '/' !in a
    ensures FirstPart(a + "/" + tail) == a
    ensures SecondPart(a + "/" + tail) == Some(FirstPart(tail))
  {
    var s := a + "/" + tail;
    assert s[|a|] == '/' && s[..|a|] == a;
    Keyed.FindIs(s, Self, '/', |a|);
    assert s[|a| + 1..] == tail;
  }

  /** Only the first two `/`-separated parts are consulted. */
  lemma {:induction false} FirstTwoPartsOnly(a: string, b: string, rest: string)
    requires '/' !in a && '/' !in b
    ensures PreprocessFraction(a + "/" + (b + "/" + rest)) == PreprocessFraction(a + "/" + b)
  {
    SameParts(a, b, rest);
    SamePartsSameResult(a + "/" + (b + "/" + rest), a + "/" + b);
  }

  lemma {:induction false} SameParts(a: string, b: string, rest: string)
    requires '/' !in a && '/' !in b
    ensures Numerator(a + "/" + (b + "/" + rest)) == Numerator(a + "/" + b)
    ensures Denominator(a + "/" + (b + "/" + rest)) == Denominator(a + "/" + b)
  {
    SplitAfter(a, b + "/" + rest);
    SplitAfter(a, b);
    SplitAfter(b, rest);
  }

  lemma {:induction false} SamePartsSameResult(f: string, g: string)
    requires Numerator(f) == Numerator(g) && Denominator(f) == Denominator(g)
    ensures PreprocessFraction(f) == PreprocessFraction(g)
  {
    assert FractionValue(f) == FractionValue(g);
  }

  /** Integer reference for the rounding: 50 n / d rounded half up is (100 n + d) / (2 d). */
  function RoundedTenths(n: nat, d: nat): nat
    requires d > 0
  {
    var q := (100 * n + d) / (2 * d);
    assert q >= 0;
    q
  }

  /** For natural n and d > 0 the tenth count is the integer (100 n + d) / (2 d). */
  lemma {:induction false} FractionOfNaturals(n: nat, d: nat)
    requires d > 0
    ensures PreprocessFraction(NatText(n) + "/" + NatText(d)) == Decimal(false, RoundedTenths(n, d))
  {
    var fraction := NatText(n) + "/" + NatText(d);
    NaturalParts(n, d);
    FractionRounding(fraction);
    NearestTenthOfNaturals(PreprocessFraction(fraction).tenths, n, d);
  }

  lemma {:induction false} NaturalParts(n: nat, d: nat)
    ensures Numerator(NatText(n) + "/" + NatText(d)) == Finite(false, n as real)
    ensures Denominator(NatText(n) + "/" + NatText(d)) == Finite(false, d as real)
  {
    SplitAfter(NatText(n), NatText(d));
    WholeTextRoundTrip(n);
    WholeTextRoundTrip(d);
  }

  lemma {:induction false} NearestTenthOfNaturals(t: nat, n: nat, d: nat)
    requires d > 0
    requires NearestTenth(t, n as real, d as real)
    ensures t == RoundedTenths(n, d)
  {
    TenthBounds(t, n, d);
    assert (2 * t - 1) * d == 2 * d * t - d;
    assert (2 * t + 1) * d == 2 * d * t + d;
    QuotientUnique(t, 100 * n + d, 2 * d);
  }

  /** The rounding bounds, multiplied out in integers. */
  lemma {:induction false} TenthBounds(t: nat, n: nat, d: nat)
    requires NearestTenth(t, n as real, d as real)
    ensures (2 * t - 1) * d <= 100 * n < (2 * t + 1) * d
  {
    var lo := t as real - 0.5;
    var hi := t as real + 0.5;
    assert lo * (d as real) * 2.0 == ((2 * t - 1) * d) as real;
    assert hi * (d as real) * 2.0 == ((2 * t + 1) * d) as real;
  }

  /** The only t with b t <= a < b t + b is a / b. */
  lemma {:induction false} QuotientUnique(t: nat, a: nat, b: nat)
    requires b > 0
    requires b * t <= a < b * t + b
    ensures t == a / b
  {
    var q := a / b;
    MulLessCancel(b, t, q + 1);
    MulLessCancel(b, q, t + 1);
  }

  lemma {:induction false} MulLessCancel(b: nat, x: nat, y: nat)
    requires b > 0 && b * x < b * y
    ensures x < y
  {
    if y <= x {
      MulAtLeast(b, x - y + 1);
    }
  }

  lemma {:induction false} MulAtLeast(a: nat, k: int)
    requires k >= 1
    ensures a * k >= a
  {
  }

  /** Worked value: "8/10" is stored as "4.0". */
  lemma {:induction false} EightTenths()
    ensures FixedText(PreprocessFraction("8/10")) == "4.0"
  {
    assert NatText(8) == "8";
    assert NatText(10) == "10";
    assert NatText(8) + "/" + NatText(10) == "8/10";
    FractionOfNaturals(8, 10);
    FortyTenths();
  }

  lemma {:induction false} FortyTenths()
    ensures FixedText(Decimal(false, RoundedTenths(8, 10))) == "4.0"
  {
    assert RoundedTenths(8, 10) == 40;
    assert NatText(4) == "4";
  }

  /** Worked value: there is no clamping, "12/10" is stored as "6.0". */
  lemma {:induction false} TwelveTenths()
    ensures FixedText(PreprocessFraction("12/10")) == "6.0"
  {
    assert NatText(10) == "10";
    assert NatText(12) == "12";
    assert NatText(12) + "/" + NatText(10) == "12/10";
    FractionOfNaturals(12, 10);
    SixtyTenths();
  }

  lemma {:induction false} SixtyTenths()
    ensures FixedText(Decimal(false, RoundedTenths(12, 10))) == "6.0"
  {
    assert RoundedTenths(12, 10) == 60;
    assert NatText(6) == "6";
  }

  /** Worked value: a tie (0.25) is rounded up, "1/20" is stored as "0.3". */
  lemma {:induction false} OneTwentieth()
    ensures FixedText(PreprocessFraction("1/20")) == "0.3"
  {
    assert NatText(1) == "1";
    assert NatText(20) == "20";
    assert NatText(1) + "/" + NatText(20) == "1/20";
    FractionOfNaturals(1, 20);
    ThreeTenths();
  }

  lemma {:induction false} ThreeTenths()
    ensures FixedText(Decimal(false, RoundedTenths(1, 20))) == "0.3"
  {
    assert RoundedTenths(1, 20) == 3;
    assert NatText(0) == "0";
  }

  /** Worked value: a numerator that is not a number makes the whole fraction `NaN`. */
  lemma {:induction false} NotANumberPart()
    ensures PreprocessFraction("abc/10") == Invalid(NotANumber)
  {
    var f := "abc/10";
    assert f[3] == '/';
    var p := FirstPart(f);
    assert |p| == 3 by {
      assert f[0] != '/' && f[1] != '/' && f[2] != '/';
    }
    assert p == "abc";
    AbcNotANumber();
  }

  lemma {:induction false} AbcNotANumber()
    ensures StringToNumber("abc") == NaN
  {
    AbcTrimmed();
    AbcNotUnsigned();
    assert ParseNonDecimal("abc") == None;
    assert ParseSigned("abc") == None;
  }

  lemma {:induction false} AbcTrimmed()
    ensures Trim("abc") == "abc"
  {
    var t := "abc";
    assert !IsWhiteSpace(t[0]) && !IsWhiteSpace(t[2]);
  }

  lemma {:induction false} AbcNotUnsigned()
    ensures ParseUnsigned("abc") == None
  {
    var t := "abc";
    assert !Keyed.Has(t, Self, '.') && !Keyed.Has(t, IsExponentMark, true) by {
      forall i | 0 <= i < |t|
        ensures t[i] != '.' && !IsExponentMark(t[i])
      {
        assert t[i] in "abc";
      }
    }
    assert !IsDigitIn(t[0], 10);
  }

  /** The grade table as listed: A+ 5.0, A 4.5, A- 4.0, ... D+ 0.5, D/D-/F 0.0, and every listed grade takes it. */
  lemma {:induction false} GradeTable()
    ensures LetterTable("A+") == Some(50) && LetterTable("A") == Some(45) && LetterTable("A-") == Some(40)
    ensures LetterTable("B+") == Some(35) && LetterTable("B") == Some(30) && LetterTable("B-") == Some(25)
    ensures LetterTable("C+") == Some(20) && LetterTable("C") == Some(15) && LetterTable("C-") == Some(10)
    ensures LetterTable("D+") == Some(5) && LetterTable("D") == Some(0) && LetterTable("D-") == Some(0)
    ensures LetterTable("F") == Some(0)
    ensures forall g :: g in LetterGrades ==> PreprocessRating(g) == FromNumber(LetterTable(g).value)
  {
  }

  /** A number rating's stored text reads back, with `Number`, as the normalised value. */
  lemma {:induction false} NumberReadsBack(t: nat)
    ensures StringToNumber(StoredText(FromNumber(t))) == Finite(false, t as real / 10.0)
  {
    assert StoredText(FromNumber(t)) == TenthsText(t);
    TenthsTextRoundTrip(t);
  }

  /** A finite fraction rating's stored text reads back, with `Number`, as the rounded value. */
  lemma {:induction false} FractionReadsBack(f: Fixed)
    requires f.Decimal?
    ensures StringToNumber(StoredText(FromFraction(f))) == Finite(f.negative, f.tenths as real / 10.0)
  {
    assert StoredText(FromFraction(f)) == FixedText(f);
    FixedTextRoundTrip(f.negative, f.tenths);
  }

  /** The same score reached by the two paths is stored as two different texts ("4.0" and "4"). */
  lemma {:induction false} PathsStoreDifferently()
    ensures StoredText(FromFraction(Decimal(false, 40))) == "4.0"
    ensures StoredText(FromNumber(LetterTable("A-").value)) == "4"
  {
    assert NatText(4) == "4" && NatText(0) == "0";
  }
}
