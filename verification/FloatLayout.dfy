/** How a double is written (internal/chefjson/chefjson.go:456-510): ECMAScript's Number.prototype.toString
    (section 6.1.6.1.20 of ECMA-262), with ".0" added to an integral value in plain notation. */
module FloatLayout {
  import opened Prelude
  import opened Decimal

  /** A double as strconv gives it: a zero, of either sign, or a sign, the shortest digits that round-trip and the decimal
      exponent of the first of them. */
  datatype Double = Zero | NonZero(neg: bool, digits: string, exp: int)

  predicate WellFormed(d: Double) {
    d.NonZero? ==> d.digits != "" && AllDigits(d.digits) && d.digits[0] != '0'
  }

  // Values

  /** x times 10^e. */
  function Scale(x: real, e: int): real
    decreases if e < 0 then -e else e
  {
    if e == 0 then x else if e > 0 then Scale(x * 10.0, e - 1) else Scale(x / 10.0, e + 1)
  }

  function Pow10(e: int): real {
    Scale(1.0, e)
  }

  lemma {:induction false} ScaleStep(x: real, e: int)
    ensures Scale(x * 10.0, e) == Scale(x, e + 1)
    decreases if e < 0 then -e else e
  {
    if e < 0 {
      assert x * 10.0 / 10.0 == x;
      if e < -1 {
        ScaleStep(x / 10.0, e + 1);
        assert x / 10.0 * 10.0 == x;
      }
    }
  }

  lemma {:induction false} ScaleTwice(x: real, a: int, b: int)
    ensures Scale(Scale(x, a), b) == Scale(x, a + b)
    decreases if a < 0 then -a else a
  {
    if a > 0 {
      ScaleTwice(x * 10.0, a - 1, b);
      ScaleStep(x, a + b - 1);
    } else if a < 0 {
      ScaleTwice(x / 10.0, a + 1, b);
      ScaleStep(x / 10.0, a + b);
      assert x / 10.0 * 10.0 == x;
    }
  }

  lemma {:induction false} ScaleTen(x: real, e: int)
    ensures Scale(x, e) * 10.0 == Scale(x, e + 1)
  {
    ScaleTwice(x, e, 1);
  }

  lemma {:induction false} ScaleMonotone(x: real, y: real, e: int)
    requires x < y
    ensures Scale(x, e) < Scale(y, e)
    decreases if e < 0 then -e else e
  {
    if e > 0 {
      ScaleMonotone(x * 10.0, y * 10.0, e - 1);
    } else if e < 0 {
      ScaleMonotone(x / 10.0, y / 10.0, e + 1);
    }
  }

  lemma {:induction false} Pow10Monotone(a: int, b: int)
    requires a <= b
    ensures 0.0 < Pow10(a) <= Pow10(b)
    decreases b - a
  {
    ScaleMonotone(0.0, 1.0, a);
    ScaleZero(a);
    if a < b {
      ScaleTen(1.0, a);
      Pow10Monotone(a + 1, b);
    }
  }

  lemma {:induction false} ScaleZero(e: int)
    ensures Scale(0.0, e) == 0.0
    decreases if e < 0 then -e else e
  {
    if e > 0 {
      ScaleZero(e - 1);
    } else if e < 0 {
      ScaleZero(e + 1);
    }
  }

  /** The number a digit string denotes, as a real. */
  function DigitsValue(s: string): real
    requires AllDigits(s)
  {
    if s == "" then 0.0 else DigitsValue(s[..|s| - 1]) * 10.0 + DigitValue(s[|s| - 1]) as real
  }

  /** The magnitude of a double: 0.<digits> times 10^(exp + 1). */
  function Abs(d: Double): real
    requires WellFormed(d)
  {
    match d
    case Zero => 0.0
    case NonZero(_, digits, exp) => Scale(DigitsValue(digits), exp + 1 - |digits|)
  }

  function Value(d: Double): real
    requires WellFormed(d)
  {
    if d.NonZero? && d.neg then -Abs(d) else Abs(d)
  }

  function Pow2(e: int): (r: real)
    ensures r > 0.0
    decreases if e < 0 then -e else e
  {
    if e == 0 then 1.0 else if e > 0 then Pow2(e - 1) * 2.0 else Pow2(e + 1) / 2.0
  }

  /** The least positive normal double. */
  const SMALLEST_NORMAL: real := Pow2(-1022)

  /** The least magnitude that rounds to no double. */
  const TOO_LARGE: real := Pow2(1024) - Pow2(970)

  /** The parts of a number literal. */
  datatype Parts = Parts(neg: bool, whole: string, frac: string, exp: int)

  /** The literal's exponent, and the text before it. */
  function CutExponent(lit: string): Option<(string, int)> {
    var at := if IndexOf(lit, 'e').Some? then IndexOf(lit, 'e') else IndexOf(lit, 'E');
    match at
    case None => Some((lit, 0))
    case Some(i) => if SignedInt(lit[i + 1..]).None? then None else Some((lit[..i], SignedInt(lit[i + 1..]).value))
  }

  function CutFraction(s: string): (string, string) {
    match IndexOf(s, '.')
    case None => (s, "")
    case Some(i) => (s[..i], s[i + 1..])
  }

  /** A number literal taken apart (section 6 of RFC 8259, leading zeros aside). */
  function ReadParts(lit: string): (r: Option<Parts>)
    ensures r.Some? ==> r.value.whole != "" && AllDigits(r.value.whole) && AllDigits(r.value.frac)
  {
    var neg := lit != "" && lit[0] == '-';
    var (mantissa, exp) := match CutExponent(if neg then lit[1..] else lit) case Some(p) => p case None => ("", 0);
    var (whole, frac) := CutFraction(mantissa);
    if whole == "" || !AllDigits(whole) || !AllDigits(frac) then None else Some(Parts(neg, whole, frac, exp))
  }

  /** The value the parts of a literal stand for, sign aside. */
  function PartsValue(p: Parts): real
    requires AllDigits(p.whole) && AllDigits(p.frac)
  {
    assert AllDigits(p.whole + p.frac);
    Scale(DigitsValue(p.whole + p.frac), p.exp - |p.frac|)
  }

  /** The number a literal denotes. */
  function Denotes(lit: string): Option<real> {
    match ReadParts(lit)
    case None => None
    case Some(p) => Some(if p.neg then -PartsValue(p) else PartsValue(p))
  }

  // Layout

  function Zeros(n: nat): (s: string)
    ensures |s| == n && AllDigits(s)
  {
    if n == 0 then "" else Zeros(n - 1) + "0"
  }

  predicate IsPlainLayout(n: int) {
    -6 < n <= 21
  }

  /** Exponent notation. */
  function Scientific(first: char, frac: string, exp: int): string {
    Mantissa(first, frac) + "e" + (if exp > 0 then "+" else "") + Itoa(exp)
  }

  /** The literal of a magnitude: `digits`, with the decimal point after the n-th. */
  function Magnitude(digits: string, n: int): string
    requires digits != ""
  {
    var k := |digits|;
    if k <= n <= 21 then digits + Zeros(n - k) + ".0"
    else if 0 < n <= 21 then digits[..n] + "." + digits[n..]
    else if -6 < n <= 0 then "0." + Zeros(-n) + digits
    else Scientific(digits[0], digits[1..], n - 1)
  }

  /** The guard of appendFloat: zero, or below the least normal double. */
  predicate TooSmall(d: Double)
    requires WellFormed(d)
  {
    Abs(d) < SMALLEST_NORMAL || d.Zero?
  }

  /** appendFloat. */
  function Layout(d: Double): string
    requires WellFormed(d)
  {
    if TooSmall(d) then "0.0"
    else (if d.neg then "-" else "") + Magnitude(d.digits, d.exp + 1)
  }

  // What the parts of a layout are

  predicate Unmarked(s: string) {
    'e' !in s && 'E' !in s && '.' !in s && '-' !in s
  }

  lemma {:induction false} DigitsAreUnmarked(s: string)
    requires AllDigits(s)
    ensures Unmarked(s)
  {
  }

  lemma {:induction false} CutPlainFraction(whole: string, frac: string)
    requires AllDigits(whole)
    ensures CutFraction(whole + "." + frac) == (whole, frac)
    ensures CutFraction(whole) == (whole, "")
  {
    DigitsAreUnmarked(whole);
    var s := whole + ['.'] + frac;
    IndexOfFirst(whole, '.', frac);
    assert s[..|whole|] == whole && s[|whole| + 1..] == frac;
  }

  lemma {:induction false} NoExponent(s: string)
    requires 'e' !in s && 'E' !in s
    ensures CutExponent(s) == Some((s, 0))
  {
  }

  lemma {:induction false} CutScientific(mantissa: string, sign: string, exp: int)
    requires 'e' !in mantissa && SignedInt(sign + Itoa(exp)) == Some(exp)
    ensures CutExponent(mantissa + "e" + sign + Itoa(exp)) == Some((mantissa, exp))
  {
    var tail := sign + Itoa(exp);
    var s := mantissa + ['e'] + tail;
    assert mantissa + "e" + sign + Itoa(exp) == s;
    IndexOfFirst(mantissa, 'e', tail);
    assert s[..|mantissa|] == mantissa && s[|mantissa| + 1..] == tail;
  }

  /** A literal without a sign is read from its exponent and its fraction. */
  lemma {:induction false} ReadFrom(lit: string, mantissa: string, whole: string, frac: string, exp: int)
    requires lit != "" && lit[0] != '-' && CutExponent(lit) == Some((mantissa, exp))
    requires CutFraction(mantissa) == (whole, frac) && whole != "" && AllDigits(whole) && AllDigits(frac)
    ensures ReadParts(lit) == Some(Parts(false, whole, frac, exp))
  {
  }

  lemma {:induction false} ReadPlain(whole: string, frac: string)
    requires whole != "" && AllDigits(whole) && AllDigits(frac)
    ensures ReadParts(whole + "." + frac) == Some(Parts(false, whole, frac, 0))
  {
    var lit := whole + "." + frac;
    DigitsAreUnmarked(whole);
    DigitsAreUnmarked(frac);
    NoExponent(lit);
    CutPlainFraction(whole, frac);
    assert lit[0] == whole[0];
    ReadFrom(lit, lit, whole, frac, 0);
  }

  /** The digits before an exponent. */
  function Mantissa(first: char, frac: string): string {
    [first] + (if frac != "" then "." + frac else "")
  }

  lemma {:induction false} MantissaCuts(first: char, frac: string)
    requires IsDigit(first) && AllDigits(frac)
    ensures CutFraction(Mantissa(first, frac)) == ([first], frac) && 'e' !in Mantissa(first, frac)
  {
    DigitsAreUnmarked(frac);
    CutPlainFraction([first], frac);
    assert frac == "" ==> Mantissa(first, frac) == [first];
    assert frac != "" ==> Mantissa(first, frac) == [first] + "." + frac;
  }

  lemma {:induction false} ExponentReads(exp: int)
    ensures SignedInt((if exp > 0 then "+" else "") + Itoa(exp)) == Some(exp)
  {
    if exp > 0 {
      SignedNumeral("+", exp);
    } else {
      SignedItoa(exp);
      assert "" + Itoa(exp) == Itoa(exp);
    }
  }

  lemma {:induction false} ReadScientific(first: char, frac: string, exp: int)
    requires IsDigit(first) && AllDigits(frac)
    ensures ReadParts(Scientific(first, frac, exp)) == Some(Parts(false, [first], frac, exp))
  {
    var mantissa, sign := Mantissa(first, frac), if exp > 0 then "+" else "";
    var lit := mantissa + "e" + sign + Itoa(exp);
    ExponentReads(exp);
    MantissaCuts(first, frac);
    CutScientific(mantissa, sign, exp);
    assert lit[0] == first;
    ReadFrom(lit, mantissa, [first], frac, exp);
  }

  // What the layouts denote

  lemma {:induction false} TrailingZeros(s: string, n: nat)
    requires AllDigits(s)
    ensures AllDigits(s + Zeros(n)) && DigitsValue(s + Zeros(n)) == Scale(DigitsValue(s), n)
  {
    var t := s + Zeros(n);
    if n == 0 {
      assert t == s;
    } else {
      TrailingZeros(s, n - 1);
      ScaleTen(DigitsValue(s), n - 1);
      assert t[..|t| - 1] == s + Zeros(n - 1) && t[|t| - 1] == '0';
    }
  }

  lemma {:induction false} LeadingZeros(n: nat, s: string)
    requires AllDigits(s)
    ensures AllDigits(Zeros(n) + s) && DigitsValue(Zeros(n) + s) == DigitsValue(s)
    decreases n + |s|
  {
    var t := Zeros(n) + s;
    if s != "" {
      LeadingZeros(n, s[..|s| - 1]);
      assert t[..|t| - 1] == Zeros(n) + s[..|s| - 1] && t[|t| - 1] == s[|s| - 1];
    } else if n > 0 {
      LeadingZeros(n - 1, s);
      assert t[..|t| - 1] == Zeros(n - 1) + s && t[|t| - 1] == '0';
    } else {
      assert t == "";
    }
  }

  lemma {:induction false} PartsValueIs(p: Parts, all: string)
    requires AllDigits(p.whole) && AllDigits(p.frac) && p.whole + p.frac == all
    ensures AllDigits(all) && PartsValue(p) == Scale(DigitsValue(all), p.exp - |p.frac|)
  {
  }

  lemma {:induction false} OneMoreZero(digits: string, n: nat)
    ensures digits + Zeros(n) + "0" == digits + Zeros(n + 1)
  {
    assert Zeros(n + 1) == Zeros(n) + "0";
  }

  lemma {:induction false} IntegralValue(digits: string, n: nat)
    requires AllDigits(digits)
    ensures AllDigits(digits + Zeros(n))
    ensures PartsValue(Parts(false, digits + Zeros(n), "0", 0)) == Scale(DigitsValue(digits), n)
  {
    OneMoreZero(digits, n);
    PartsValueIs(Parts(false, digits + Zeros(n), "0", 0), digits + Zeros(n + 1));
    TrailingZeros(digits, n + 1);
    ScaleTwice(DigitsValue(digits), n + 1, -1);
  }

  lemma {:induction false} SmallValue(digits: string, n: nat)
    requires AllDigits(digits)
    ensures AllDigits(Zeros(n) + digits)
    ensures PartsValue(Parts(false, "0", Zeros(n) + digits, 0)) == Scale(DigitsValue(digits), 0 - n - |digits|)
  {
    ZeroThenZeros(n);
    assert "0" + (Zeros(n) + digits) == Zeros(n + 1) + digits;
    PartsValueIs(Parts(false, "0", Zeros(n) + digits, 0), Zeros(n + 1) + digits);
    LeadingZeros(n + 1, digits);
  }

  /** The layout of a magnitude reads as parts with the magnitude's value. */
  predicate ReadsAs(lit: string, v: real) {
    match ReadParts(lit)
    case None => false
    case Some(p) => !p.neg && PartsValue(p) == v
  }

  lemma {:induction false} ReadsParts(lit: string, p: Parts, v: real)
    requires ReadParts(lit) == Some(p) && !p.neg && PartsValue(p) == v
    ensures ReadsAs(lit, v)
  {
  }

  lemma {:induction false} IntegralReads(digits: string, n: int)
    requires digits != "" && AllDigits(digits) && |digits| <= n <= 21
    ensures ReadsAs(Magnitude(digits, n), Scale(DigitsValue(digits), n - |digits|))
  {
    var whole := digits + Zeros(n - |digits|);
    IntegralValue(digits, n - |digits|);
    ReadPlain(whole, "0");
    assert Magnitude(digits, n) == whole + "." + "0";
    ReadsParts(whole + "." + "0", Parts(false, whole, "0", 0), Scale(DigitsValue(digits), n - |digits|));
  }

  lemma {:induction false} PointInsideValue(digits: string, n: nat)
    requires AllDigits(digits) && n <= |digits|
    ensures AllDigits(digits[..n]) && AllDigits(digits[n..])
    ensures PartsValue(Parts(false, digits[..n], digits[n..], 0)) == Scale(DigitsValue(digits), n - |digits|)
  {
    assert digits[..n] + digits[n..] == digits;
    PartsValueIs(Parts(false, digits[..n], digits[n..], 0), digits);
  }

  lemma {:induction false} PointInsideReads(digits: string, n: int)
    requires AllDigits(digits) && 0 < n < |digits| && n <= 21
    ensures ReadsAs(Magnitude(digits, n), Scale(DigitsValue(digits), n - |digits|))
  {
    var whole, frac := digits[..n], digits[n..];
    ReadPlain(whole, frac);
    PointInsideValue(digits, n);
    ReadsParts(whole + "." + frac, Parts(false, whole, frac, 0), Scale(DigitsValue(digits), n - |digits|));
  }

  lemma {:induction false} SmallReads(digits: string, n: int)
    requires digits != "" && AllDigits(digits) && -6 < n <= 0
    ensures ReadsAs(Magnitude(digits, n), Scale(DigitsValue(digits), n - |digits|))
  {
    SmallText(digits, n);
    SmallFraction(digits, -n, Zeros(-n) + digits, Magnitude(digits, n), n - |digits|);
  }

  lemma {:induction false} SmallFraction(digits: string, n: nat, frac: string, lit: string, e: int)
    requires AllDigits(digits) && frac == Zeros(n) + digits && lit == "0" + "." + frac && e == 0 - n - |digits|
    ensures ReadsAs(lit, Scale(DigitsValue(digits), e))
  {
    SmallValue(digits, n);
    ReadPlain("0", frac);
    ReadsParts(lit, Parts(false, "0", frac, 0), Scale(DigitsValue(digits), e));
  }

  lemma {:induction false} SmallText(digits: string, n: int)
    requires digits != "" && -6 < n <= 0
    ensures Magnitude(digits, n) == "0" + "." + (Zeros(-n) + digits)
  {
    assert "0." + Zeros(-n) + digits == "0" + "." + (Zeros(-n) + digits);
  }

  lemma {:induction false} ScientificValue(digits: string, n: int)
    requires digits != "" && AllDigits(digits)
    ensures AllDigits(digits[1..]) && IsDigit(digits[0])
    ensures PartsValue(Parts(false, [digits[0]], digits[1..], n - 1)) == Scale(DigitsValue(digits), n - |digits|)
  {
    assert [digits[0]] + digits[1..] == digits;
    PartsValueIs(Parts(false, [digits[0]], digits[1..], n - 1), digits);
  }

  lemma {:induction false} ScientificReads(digits: string, n: int)
    requires digits != "" && AllDigits(digits) && !IsPlainLayout(n)
    ensures ReadsAs(Magnitude(digits, n), Scale(DigitsValue(digits), n - |digits|))
  {
    var first, frac := digits[0], digits[1..];
    ScientificValue(digits, n);
    ReadScientific(first, frac, n - 1);
    ReadsParts(Scientific(first, frac, n - 1), Parts(false, [first], frac, n - 1), Scale(DigitsValue(digits), n - |digits|));
  }

  lemma {:induction false} MagnitudeReads(digits: string, n: int)
    requires digits != "" && AllDigits(digits)
    ensures ReadsAs(Magnitude(digits, n), Scale(DigitsValue(digits), n - |digits|))
  {
    if |digits| <= n <= 21 {
      IntegralReads(digits, n);
    } else if 0 < n <= 21 {
      PointInsideReads(digits, n);
    } else if -6 < n <= 0 {
      SmallReads(digits, n);
    } else {
      ScientificReads(digits, n);
    }
  }

  lemma {:induction false} ZeroThenZeros(n: nat)
    ensures "0" + Zeros(n) == Zeros(n + 1)
  {
    if n > 0 {
      ZeroThenZeros(n - 1);
    }
  }

  lemma {:induction false} MagnitudeStartsWithDigit(digits: string, n: int)
    requires digits != "" && AllDigits(digits)
    ensures Magnitude(digits, n) != "" && IsDigit(Magnitude(digits, n)[0])
  {
  }

  /** A '-' in front negates what is read. */
  lemma {:induction false} ReadNegative(lit: string)
    requires lit != "" && lit[0] != '-' && ReadParts(lit).Some?
    ensures ReadParts("-" + lit) == Some(ReadParts(lit).value.(neg := true))
  {
    assert ("-" + lit)[1..] == lit;
  }

  lemma {:induction false} PositiveReads(m: string, v: real)
    requires ReadsAs(m, v)
    ensures Denotes(m) == Some(v)
  {
  }

  lemma {:induction false} NegativeReads(m: string, v: real)
    requires m != "" && m[0] != '-' && ReadsAs(m, v)
    ensures Denotes("-" + m) == Some(-v)
  {
    var p := ReadParts(m).value;
    ReadNegative(m);
    SignIsSeparate(p);
  }

  lemma {:induction false} SignIsSeparate(p: Parts)
    requires AllDigits(p.whole) && AllDigits(p.frac)
    ensures PartsValue(p.(neg := true)) == PartsValue(p)
  {
  }

  lemma {:induction false} ZeroReads()
    ensures Denotes("0.0") == Some(0.0)
  {
    var p := Parts(false, "0", "0", 0);
    ReadPlain("0", "0");
    assert "0" + "." + "0" == "0.0" && "0" + "0" == "00";
    PartsValueIs(p, "00");
    NoughtsAreZero();
    ScaleZero(-1);
  }

  lemma {:induction false} NoughtsAreZero()
    ensures AllDigits("00") && DigitsValue("00") == 0.0
  {
    LeadingZeros(2, "");
    assert Zeros(1) == "0" && Zeros(2) == "00" && Zeros(2) + "" == "00";
  }

  lemma {:induction false} ZeroIsTooSmall(d: Double)
    requires WellFormed(d)
    ensures TooSmall(d) <==> Abs(d) < SMALLEST_NORMAL
  {
  }

  lemma {:induction false} TooSmallIsZero(d: Double)
    requires WellFormed(d) && TooSmall(d)
    ensures Denotes(Layout(d)) == Some(0.0)
  {
    ZeroReads();
  }

  lemma {:induction false} SignedReads(lit: string, neg: bool, m: string, abs: real, v: real)
    requires lit == (if neg then "-" + m else m) && v == (if neg then -abs else abs)
    requires m != "" && m[0] != '-' && ReadsAs(m, abs)
    ensures Denotes(lit) == Some(v)
  {
    if neg {
      NegativeReads(m, abs);
    } else {
      PositiveReads(m, abs);
    }
  }

  lemma {:induction false} NormalLayout(d: Double)
    requires WellFormed(d) && !TooSmall(d)
    ensures var m := Magnitude(d.digits, d.exp + 1); Layout(d) == if d.neg then "-" + m else m
    ensures Value(d) == if d.neg then -Abs(d) else Abs(d)
  {
    assert "" + Magnitude(d.digits, d.exp + 1) == Magnitude(d.digits, d.exp + 1);
  }

  lemma {:induction false} AbsReads(d: Double, m: string)
    requires WellFormed(d) && d.NonZero? && m == Magnitude(d.digits, d.exp + 1)
    ensures ReadsAs(m, Abs(d)) && m != "" && m[0] != '-'
  {
    MagnitudeReads(d.digits, d.exp + 1);
    MagnitudeStartsWithDigit(d.digits, d.exp + 1);
  }

  lemma {:induction false} NormalDenotes(d: Double)
    requires WellFormed(d) && !TooSmall(d)
    ensures Denotes(Layout(d)) == Some(Value(d))
  {
    var m := Magnitude(d.digits, d.exp + 1);
    NormalLayout(d);
    AbsReads(d, m);
    SignedReads(Layout(d), d.neg, m, Abs(d), Value(d));
  }

  /** The literal written denotes the double's value if and only if the double is zero or normal: a subnormal is written
      as zero. */
  lemma {:induction false} LayoutDenotesValue(d: Double)
    requires WellFormed(d)
    ensures Denotes(Layout(d)) == Some(Value(d)) <==> Value(d) == 0.0 || Abs(d) >= SMALLEST_NORMAL
  {
    ZeroIsTooSmall(d);
    if TooSmall(d) {
      TooSmallIsZero(d);
    } else {
      NormalDenotes(d);
    }
  }

  lemma {:induction false} ScaleIsProduct(x: real, e: int)
    ensures Scale(x, e) == x * Pow10(e)
    decreases if e < 0 then -e else e
  {
    if e > 0 {
      ScaleIsProduct(x, e - 1);
      ScaleTen(x, e - 1);
      ScaleTen(1.0, e - 1);
    } else if e < 0 {
      ScaleIsProduct(x, e + 1);
      ScaleTen(x, e);
      ScaleTen(1.0, e);
    }
  }

  lemma {:induction false} PowersAdd(a: int, b: int)
    ensures Pow10(a) * Pow10(b) == Pow10(a + b)
  {
    ScaleIsProduct(Pow10(a), b);
    ScaleTwice(1.0, a, b);
  }

  lemma {:induction false} Pow2Step(e: int)
    ensures Pow2(e + 1) == Pow2(e) * 2.0
  {
  }

  lemma {:induction false} Pow2Three(e: int)
    ensures Pow2(e + 3) == Pow2(e) * 8.0
  {
    Pow2Step(e);
    Pow2Step(e + 1);
    Pow2Step(e + 2);
  }

  lemma {:induction false} Pow2Thirteen(e: int)
    ensures Pow2(e + 13) == Pow2(e) * 8192.0
  {
    Pow2Three(e);
    Pow2Three(e + 3);
    Pow2Three(e + 6);
    Pow2Three(e + 9);
    Pow2Step(e + 12);
  }

  lemma {:induction false} Pow2Monotone(a: int, b: int)
    requires a < b
    ensures Pow2(a) < Pow2(b)
    decreases b - a
  {
    Pow2Step(a);
    if a + 1 < b {
      Pow2Monotone(a + 1, b);
    }
  }

  /** 2^13 is below 10^4. */
  lemma {:induction false} TinyPowers(k: nat)
    ensures Pow10(-4 * k) <= Pow2(-13 * k)
  {
    if k > 0 {
      TinyPowers(k - 1);
      Pow2Thirteen(-13 * k);
      PowersAdd(-4, -4 * (k - 1));
      assert Pow10(-4) == 0.0001;
    }
  }

  /** 2^3 is below 10. */
  lemma {:induction false} LargePowers(k: nat)
    ensures Pow2(3 * k) <= Pow10(k)
  {
    if k > 0 {
      LargePowers(k - 1);
      Pow2Three(3 * k - 3);
      ScaleTen(1.0, k - 1);
    }
  }

  /** The failing input: the least double, 5e-324, is written as zero. */
  lemma {:induction false} LeastDoubleIsLost()
    ensures var d := NonZero(false, "5", -324);
            WellFormed(d) && Layout(d) == "0.0" && Value(d) == 5.0 * Pow10(-324) > 0.0 && Denotes(Layout(d)) == Some(0.0)
  {
    var d := NonZero(false, "5", -324);
    FiveIsFive();
    ScaleIsProduct(5.0, -324);
    MagnitudeBounds(d);
    Pow10Monotone(-324, -324);
    Pow10Monotone(-323, -316);
    TinyPowers(79);
    Pow2Monotone(-1027, -1022);
    ZeroReads();
  }

  lemma {:induction false} FiveIsFive()
    ensures DigitsValue("5") == 5.0
  {
    assert "5"[..0] == "" && DigitValue('5') == 5;
  }

  // Which literals a double can hold

  /** Whether strconv.ParseFloat takes a literal: it denotes a number that rounds to a double. */
  predicate FitsDouble(lit: string) {
    match Denotes(lit)
    case None => false
    case Some(v) => -TOO_LARGE < v < TOO_LARGE
  }

  lemma {:induction false} IntegerDenotes(digits: string)
    requires digits != "" && AllDigits(digits)
    ensures Denotes(digits) == Some(DigitsValue(digits))
  {
    DigitsAreUnmarked(digits);
    NoExponent(digits);
    CutPlainFraction(digits, "");
    ReadFrom(digits, digits, digits, "", 0);
    assert digits + "" == digits;
    PartsValueIs(Parts(false, digits, "", 0), digits);
  }

  /** One and n zeros is 10^n. */
  lemma {:induction false} OneAndZeros(n: nat)
    ensures Denotes("1" + Zeros(n)) == Some(Pow10(n))
  {
    TrailingZeros("1", n);
    IntegerDenotes("1" + Zeros(n));
    assert "1"[..0] == "" && DigitValue('1') == 1;
  }

  lemma {:induction false} HugeInteger(n: nat)
    requires n >= 400
    ensures !FitsDouble("1" + Zeros(n))
  {
    OneAndZeros(n);
    LargePowers(n);
    Pow2Monotone(1024, 3 * n);
  }

  // Which notation is used

  lemma {:induction false} DigitsBounds(s: string)
    requires s != "" && AllDigits(s) && s[0] != '0'
    ensures Pow10(|s| - 1) <= DigitsValue(s) <= Pow10(|s|) - 1.0
  {
    var n := |s| - 1;
    assert IsDigit(s[n]) && DigitValue(s[n]) <= 9;
    if n == 0 {
      assert s[..n] == "" && 1 <= DigitValue(s[0]);
      assert Scale(1.0, 1) == Scale(10.0, 0);
    } else {
      DigitsBounds(s[..n]);
      ScaleTen(1.0, n - 1);
      ScaleTen(1.0, n);
    }
  }

  /** The magnitude of a double lies in [10^exp, 10^(exp + 1)). */
  lemma {:induction false} MagnitudeBounds(d: Double)
    requires WellFormed(d) && d.NonZero?
    ensures Pow10(d.exp) <= Abs(d) < Pow10(d.exp + 1)
  {
    var k := |d.digits|;
    var e, v := d.exp + 1 - k, DigitsValue(d.digits);
    DigitsBounds(d.digits);
    ScaleTwice(1.0, k - 1, e);
    ScaleTwice(1.0, k, e);
    ScaleMonotone(v, Pow10(k), e);
    if Pow10(k - 1) < v {
      ScaleMonotone(Pow10(k - 1), v, e);
    }
  }

  lemma {:induction false} PlainRange(d: Double)
    requires WellFormed(d) && d.NonZero?
    ensures IsPlainLayout(d.exp + 1) <==> Pow10(-6) <= Abs(d) < Pow10(21)
  {
    MagnitudeBounds(d);
    if d.exp + 1 <= -6 {
      Pow10Monotone(d.exp + 1, -6);
    } else {
      Pow10Monotone(-6, d.exp);
    }
    if d.exp + 1 <= 21 {
      Pow10Monotone(d.exp + 1, 21);
    } else {
      Pow10Monotone(21, d.exp);
    }
  }

  /** Plain notation is used exactly for zero, the subnormals, and magnitudes in [1e-6, 1e21). */
  lemma {:induction false} PlainExactlyInRange(d: Double)
    requires WellFormed(d)
    ensures 'e' !in Layout(d) <==> Abs(d) < SMALLEST_NORMAL || Pow10(-6) <= Abs(d) < Pow10(21)
  {
    if d.NonZero? {
      PlainRange(d);
      NotationShows(d.digits, d.exp + 1);
    }
  }

  lemma {:induction false} NotationShows(digits: string, n: int)
    requires digits != "" && AllDigits(digits)
    ensures IsPlainLayout(n) <==> 'e' !in Magnitude(digits, n)
    ensures IsPlainLayout(n) ==> '.' in Magnitude(digits, n)
  {
    DigitsAreUnmarked(digits);
    var k := |digits|;
    var m := Magnitude(digits, n);
    if k <= n <= 21 {
      DigitsAreUnmarked(Zeros(n - k));
      assert m[n] == '.';
    } else if 0 < n <= 21 {
      assert m[n] == '.';
    } else if -6 < n <= 0 {
      DigitsAreUnmarked(Zeros(-n));
      assert m[1] == '.';
    } else {
      var head := [digits[0]] + (if digits[1..] != "" then "." + digits[1..] else "");
      assert m[|head|] == 'e';
    }
  }

  /** Whether a literal is read back as a float: it has a fraction or an exponent. */
  predicate IsFloatLiteral(lit: string) {
    '.' in lit || 'e' in lit || 'E' in lit
  }

  lemma SignKeepsMark(neg: bool, m: string)
    requires IsFloatLiteral(m)
    ensures IsFloatLiteral((if neg then "-" else "") + m)
  {
    assert forall c :: c in m ==> c in (if neg then "-" else "") + m;
  }

  /** What is written for a double is a float again when re-read. */
  lemma {:induction false} LayoutIsFloat(d: Double)
    requires WellFormed(d)
    ensures IsFloatLiteral(Layout(d))
  {
    if TooSmall(d) {
      assert Layout(d)[1] == '.';
    } else {
      NotationShows(d.digits, d.exp + 1);
      SignKeepsMark(d.neg, Magnitude(d.digits, d.exp + 1));
    }
  }

  /** The loops that pad with zeros. */
  method AppendZeros(dst: string, n: nat) returns (out: string)
    ensures out == dst + Zeros(n)
  {
    out := dst;
    for i := 0 to n
      invariant out == dst + Zeros(i)
    {
      out := out + "0";
    }
  }

  /** appendFloat, appending to a buffer. */
  method AppendFloat(dst: string, d: Double) returns (out: string)
    requires WellFormed(d)
    ensures out == dst + Layout(d)
  {
    if TooSmall(d) {
      return dst + "0.0";
    }
    var m := WriteMagnitude(d.digits, d.exp + 1);
    out := dst + ((if d.neg then "-" else "") + m);
  }

  method WriteMagnitude(digits: string, n: int) returns (m: string)
    requires digits != ""
    ensures m == Magnitude(digits, n)
  {
    var k := |digits|;
    if k <= n <= 21 {
      m := AppendZeros(digits, n - k);
      m := m + ".0";
    } else if 0 < n <= 21 {
      m := digits[..n] + "." + digits[n..];
    } else if -6 < n <= 0 {
      m := AppendZeros("0.", -n);
      m := m + digits;
    } else {
      m := [digits[0]] + (if k > 1 then "." + digits[1..] else "");
      m := m + "e" + (if n - 1 > 0 then "+" else "") + Itoa(n - 1);
    }
  }
}
