/** Decimal numerals: the grammar Long.parseLong / Integer.parseInt accept
    (optional sign, ASCII digits, range check), a decimal-fraction subset of
    Double.parseDouble, the matching formatter, and Java's 32-bit narrowing. */
module Numerals {
  import opened Wrappers
  import Text

  const LongMin: int := -0x8000_0000_0000_0000
  const LongMax: int := 0x7FFF_FFFF_FFFF_FFFF
  const IntMin: int := -0x8000_0000
  const IntMax: int := 0x7FFF_FFFF

  predicate InLongRange(n: int) { LongMin <= n <= LongMax }
  predicate InIntRange(n: int) { IntMin <= n <= IntMax }

  predicate IsDigit(c: char) { '0' <= c <= '9' }

  predicate AllDigits(s: string) {
    forall i :: 0 <= i < |s| ==> IsDigit(s[i])
  }

  function DigitValue(c: char): nat
    requires IsDigit(c)
  {
    c as int - '0' as int
  }

  function DigitChar(d: nat): (c: char)
    requires d < 10
    ensures IsDigit(c) && DigitValue(c) == d
  {
    ('0' as int + d) as char
  }

  /** The value of a run of decimal digits, most significant first. */
  function DigitsValue(s: string): nat
    requires AllDigits(s)
  {
    if |s| == 0 then 0 else DigitsValue(s[..|s| - 1]) * 10 + DigitValue(s[|s| - 1])
  }

  function Pow10(n: nat): (r: nat)
    ensures r >= 1
  {
    if n == 0 then 1 else 10 * Pow10(n - 1)
  }

  /** The integer grammar of Long.parseLong(s, 10) before its range check:
      one optional '+' or '-', then at least one digit, nothing else. */
  function ParseInteger(s: string): (r: Option<int>)
  {
    if |s| == 0 then None
    else if s[0] == '-' || s[0] == '+' then
      var body := s[1..];
      if |body| > 0 && AllDigits(body) then
        var v: int := DigitsValue(body);
        Some(if s[0] == '-' then -v else v)
      else None
    else if AllDigits(s) then Some(DigitsValue(s))
    else None
  }

  /** Parsing into a bounded integer type: the grammar, then the range check
      (Long.parseLong with the 64-bit bounds, Integer.parseInt with the 32-bit ones). */
  function ParseBounded(s: string, lo: int, hi: int): (r: Option<int>)
    ensures r.Some? <==> ParseInteger(s).Some? && lo <= ParseInteger(s).value <= hi
    ensures r.Some? ==> r == ParseInteger(s)
  {
    match ParseInteger(s)
    case Some(n) => if lo <= n <= hi then Some(n) else None
    case None => None
  }

  /** Long.toString: the canonical decimal numeral of `n`. */
  function FormatInteger(n: int): (r: string)
    ensures |r| > 0
  {
    if n < 0 then "-" + FormatNat(-n) else FormatNat(n)
  }

  function FormatNat(n: nat): (r: string)
    ensures |r| > 0 && AllDigits(r)
  {
    if n < 10 then [DigitChar(n)] else FormatNat(n / 10) + [DigitChar(n % 10)]
  }

  lemma {:induction false} FormatNatValue(n: nat)
    ensures DigitsValue(FormatNat(n)) == n
  {
    var r := FormatNat(n);
    if n >= 10 {
      FormatNatValue(n / 10);
      assert r[..|r| - 1] == FormatNat(n / 10);
    }
  }

  /** Every integer's canonical numeral parses back to it. */
  lemma ParseFormatInteger(n: int)
    ensures ParseInteger(FormatInteger(n)) == Some(n)
  {
    var s := FormatInteger(n);
    if n < 0 {
      FormatNatValue(-n);
      assert s[1..] == FormatNat(-n);
    } else {
      FormatNatValue(n);
      var d := FormatNat(n);
      assert d[0] != '-' && d[0] != '+' by { assert IsDigit(d[0]); }
    }
  }

  /** A blank string is never a numeral. */
  lemma BlankIsNotInteger(s: string)
    requires Text.IsBlank(s)
    ensures ParseInteger(s).None?
  {
    if |s| > 0 {
      assert Text.IsWhitespace(s[0]);
      if |s| > 1 {
        assert Text.IsWhitespace(s[1]);
        assert !IsDigit(s[1]);
      }
    }
  }

  /** The decimal-fraction subset of Double.parseDouble, applied after
      String.trim: optional sign, digits, an optional '.' and fraction digits,
      with at least one digit on either side of the point. */
  function ParseDecimal(s: string): (r: Option<real>)
  {
    var t := Text.Trim(s);
    if |t| == 0 then None
    else if t[0] == '-' then
      match ParseUnsignedDecimal(t[1..])
      case Some(v) => Some(-v)
      case None => None
    else if t[0] == '+' then ParseUnsignedDecimal(t[1..])
    else ParseUnsignedDecimal(t)
  }

  function ParseUnsignedDecimal(s: string): (r: Option<real>)
    ensures r.Some? ==> r.value >= 0.0
  {
    var k := Text.IndexOf(s, ".");
    if k < 0 then
      if |s| > 0 && AllDigits(s) then Some(DigitsValue(s) as real) else None
    else
      var whole := s[..k];
      var frac := s[k + 1..];
      if (|whole| > 0 || |frac| > 0) && AllDigits(whole) && AllDigits(frac) then
        Some(DigitsValue(whole) as real + DigitsValue(frac) as real / Pow10(|frac|) as real)
      else None
  }

  /** A string of digits contains no '.'. */
  lemma DigitsHaveNoPoint(s: string)
    requires AllDigits(s)
    ensures Text.IndexOf(s, ".") == -1
  {
    forall j | 0 <= j < |s|
      ensures !Text.OccursAt(s, ".", j)
    {
      assert s[j..j + 1] == [s[j]];
    }
  }

  /** No character of a numeral is trimmable, so trimming keeps it. */
  lemma IntegerSurvivesTrim(s: string)
    requires ParseInteger(s).Some?
    ensures Text.Trim(s) == s
  {
    forall i | 0 <= i < |s|
      ensures !Text.IsTrimmable(s[i])
    {
      if i > 0 { assert s[1..][i - 1] == s[i]; }
    }
  }

  /** Wherever the integer grammar accepts a string, the decimal grammar
      accepts it too, with the same value. */
  lemma {:induction false} IntegerIsDecimal(s: string)
    requires ParseInteger(s).Some?
    ensures ParseDecimal(s) == Some(ParseInteger(s).value as real)
  {
    IntegerSurvivesTrim(s);
    var t := Text.Trim(s);
    assert t == s;
    if s[0] == '-' || s[0] == '+' {
      DigitsAreDecimal(s[1..]);
    } else {
      DigitsAreDecimal(s);
    }
  }

  /** A non-empty run of digits reads as the same value under the decimal
      grammar. */
  lemma DigitsAreDecimal(d: string)
    requires |d| > 0 && AllDigits(d)
    ensures ParseUnsignedDecimal(d) == Some(DigitsValue(d) as real)
  {
    DigitsHaveNoPoint(d);
  }

  /** Long.intValue / an (int) cast: keeps the low 32 bits, two's complement. */
  function ToInt32(n: int): (r: int)
    ensures InIntRange(r)
    ensures (r - n) % 0x1_0000_0000 == 0
    ensures InIntRange(n) ==> r == n
  {
    (n + 0x8000_0000) % 0x1_0000_0000 - 0x8000_0000
  }
}
