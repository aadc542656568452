/** The repository's field parsers (RedisDeviceRepository): the single place
    where the string-valued hash fields become typed, nullable values. None of
    them throws; an unusable value becomes null, except in `ParseIntOrZero`. */
module FieldParsers {
  import opened Wrappers
  import opened Numerals
  import opened Text

  /** A present, non-blank field value. */
  predicate Usable(v: Option<string>) {
    v.Some? && !IsBlank(v.value)
  }

  /** parseLongOrNull: null for a missing, blank, malformed or out-of-range
      value, the 64-bit value otherwise. */
  function ParseLongOrNull(v: Option<string>): (r: Option<int>)
    ensures r.Some? ==> InLongRange(r.value)
    ensures !Usable(v) ==> r.None?
    ensures r.Some? <==> v.Some? && ParseInteger(v.value).Some? && InLongRange(ParseInteger(v.value).value)
    ensures r.Some? ==> r == ParseInteger(v.value)
  {
    if v.None? || IsBlank(v.value) then None
    else ParseBounded(v.value, LongMin, LongMax)
  }

  /** parseInt: a missing, blank, malformed or out-of-range value reads as 0,
      never as null. */
  function ParseIntOrZero(v: Option<string>): (r: int)
    ensures InIntRange(r)
    ensures !Usable(v) ==> r == 0
    ensures v.Some? && ParseInteger(v.value).Some? && InIntRange(ParseInteger(v.value).value)
            ==> r == ParseInteger(v.value).value
    ensures r != 0 ==> v.Some? && ParseInteger(v.value) == Some(r)
  {
    if v.None? || IsBlank(v.value) then 0
    else match ParseBounded(v.value, IntMin, IntMax)
      case Some(n) => n
      case None => 0
  }

  /** parseDoubleOrNull: null for a missing, blank or malformed value. */
  function ParseDoubleOrNull(v: Option<string>): (r: Option<real>)
    ensures !Usable(v) ==> r.None?
    ensures Usable(v) ==> r == ParseDecimal(v.value)
  {
    if v.None? || IsBlank(v.value) then None
    else ParseDecimal(v.value)
  }

  const TrueWords: set<string> := {"1", "true", "yes", "on"}
  const FalseWords: set<string> := {"0", "false", "no", "off"}

  /** parseBoolOrNull: the lower-cased value decides; blank and unknown words
      read as null. */
  function ParseBoolOrNull(v: Option<string>): (r: Option<bool>)
    ensures r == Some(true) <==> v.Some? && ToLower(v.value) in TrueWords
    ensures r == Some(false) <==> v.Some? && ToLower(v.value) in FalseWords
  {
    if v.None? || IsBlank(v.value) then
      BlankIsNoWord(if v.None? then "" else v.value);
      None
    else
      var lower := ToLower(v.value);
      if lower in TrueWords then Some(true)
      else if lower in FalseWords then Some(false)
      else None
  }

  /** Lower-casing keeps whitespace, so a blank value is never a boolean word. */
  lemma BlankIsNoWord(s: string)
    requires IsBlank(s)
    ensures ToLower(s) !in TrueWords && ToLower(s) !in FalseWords
  {
    if |s| > 0 {
      assert IsWhitespace(s[0]);
      assert ToLower(s)[0] == s[0];
    }
  }

  /** Upper and lower case are indistinguishable to the boolean parser. */
  lemma ParseBoolCaseInsensitive(a: string, b: string)
    requires ToLower(a) == ToLower(b)
    ensures ParseBoolOrNull(Some(a)) == ParseBoolOrNull(Some(b))
  {
  }

  /** "YES" is read as true, because the value is lower-cased first. */
  lemma ParseBoolUpperYes()
    ensures ParseBoolOrNull(Some("YES")) == Some(true)
  {
    assert ToLower("YES") == "yes";
  }

  /** A 64-bit value written as a numeral reads back unchanged; a numeral
      outside the 64-bit range reads as null. */
  lemma ParseLongRoundTrip(n: int)
    ensures ParseLongOrNull(Some(FormatInteger(n))) == (if InLongRange(n) then Some(n) else None)
  {
    ParseFormatInteger(n);
  }

  /** A 32-bit value written as a numeral reads back unchanged; any other
      integer numeral reads as 0. */
  lemma ParseIntRoundTrip(n: int)
    ensures ParseIntOrZero(Some(FormatInteger(n))) == (if InIntRange(n) then n else 0)
  {
    ParseFormatInteger(n);
  }

  /** The decimal reading of an integer numeral is its integer value. */
  lemma ParseDoubleOfInteger(n: int)
    ensures ParseDoubleOrNull(Some(FormatInteger(n))) == Some(n as real)
  {
    var s := FormatInteger(n);
    ParseFormatInteger(n);
    assert !IsBlank(s) by {
      if n < 0 {
        assert s[0] == '-';
      } else {
        assert IsDigit(s[0]);
      }
    }
    IntegerIsDecimal(s);
    assert ParseDoubleOrNull(Some(s)) == ParseDecimal(s);
  }
}
