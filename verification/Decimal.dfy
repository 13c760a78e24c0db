/** Decimal numerals: digit strings, strconv.Itoa and strconv.Atoi. */
module Decimal {
  import opened Prelude

  predicate IsDigit(c: char) {
    '0' <= c <= '9'
  }

  predicate AllDigits(s: string) {
    forall c :: c in s ==> IsDigit(c)
  }

  function DigitValue(c: char): nat
    requires IsDigit(c)
  {
    (c - '0') as nat
  }

  function DigitChar(n: nat): (c: char)
    requires n < 10
    ensures IsDigit(c) && DigitValue(c) == n
  {
    '0' + n as char
  }

  /** The number a digit string denotes, read from the last digit. */
  function NatOf(s: string): nat
    requires AllDigits(s)
  {
    if s == "" then 0 else NatOf(s[..|s| - 1]) * 10 + DigitValue(s[|s| - 1])
  }

  /** The digits of a number, without leading zeros. */
  function Numeral(n: nat): (s: string)
    ensures s != "" && AllDigits(s)
  {
    if n < 10 then [DigitChar(n)] else Numeral(n / 10) + [DigitChar(n % 10)]
  }

  lemma {:induction false} NumeralRoundTrip(n: nat)
    ensures NatOf(Numeral(n)) == n
  {
    var s := Numeral(n);
    if n < 10 {
      assert s[..|s| - 1] == "";
    } else {
      NumeralRoundTrip(n / 10);
      assert s[..|s| - 1] == Numeral(n / 10);
    }
  }

  /** strconv.Itoa. */
  function Itoa(n: int): (s: string)
    ensures s != ""
  {
    if n < 0 then "-" + Numeral(-n) else Numeral(n)
  }

  /** The integer an optionally signed digit string denotes. */
  function SignedInt(s: string): Option<int> {
    if s == "" then None
    else
      var signed := s[0] == '-' || s[0] == '+';
      var digits := if signed then s[1..] else s;
      if digits == "" || !AllDigits(digits) then None
      else
        var n: int := NatOf(digits);
        Some(if s[0] == '-' then -n else n)
  }

  lemma SignedNumeral(sign: string, n: nat)
    requires sign == "" || sign == "+" || sign == "-"
    ensures SignedInt(sign + Numeral(n)) == Some(if sign == "-" then -(n as int) else n as int)
  {
    NumeralRoundTrip(n);
    var s := sign + Numeral(n);
    if sign == "" {
      assert s == Numeral(n);
      UnsignedInt(s);
    } else {
      assert sign == [sign[0]] && s == [sign[0]] + Numeral(n);
      SignedDigits(sign[0], Numeral(n));
    }
  }

  lemma {:induction false} UnsignedInt(s: string)
    requires s != "" && AllDigits(s)
    ensures SignedInt(s) == Some(NatOf(s) as int)
  {
    assert IsDigit(s[0]);
  }

  lemma {:induction false} SignedDigits(sign: char, digits: string)
    requires digits != "" && AllDigits(digits) && (sign == '-' || sign == '+')
    ensures SignedInt([sign] + digits) == Some(if sign == '-' then -(NatOf(digits) as int) else NatOf(digits) as int)
  {
    assert ([sign] + digits)[1..] == digits;
  }

  lemma SignedItoa(n: int)
    ensures SignedInt(Itoa(n)) == Some(n)
  {
    if n < 0 {
      SignedNumeral("-", -n);
    } else {
      SignedNumeral("", n);
      assert "" + Numeral(n) == Numeral(n);
    }
  }

  const MAX_INT64 := 0x7FFF_FFFF_FFFF_FFFF
  const MIN_INT64 := -0x8000_0000_0000_0000

  /** strconv.Atoi: the same, refused outside the 64-bit range. */
  function Atoi(s: string): (r: Option<int>)
    ensures r.Some? ==> MIN_INT64 <= r.value <= MAX_INT64
  {
    match SignedInt(s)
    case None => None
    case Some(n) => if MIN_INT64 <= n <= MAX_INT64 then Some(n) else None
  }
}
