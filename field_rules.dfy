/**
 * The single-field tests the converter applies to one CSV row: digit and
 * sign recognition for the id, the id's integer parse, hyphen stripping,
 * the phone pattern and the 15-character truncation of names.
 */
module FieldRules {
  import opened Wrappers

  /** Longest name (first, middle or last) emitted to the JSON output. */
  const MAX_NAME_LENGTH: nat := 15

  /** Number of characters an id must have once its hyphens are removed. */
  const ID_LENGTH: nat := 8

  /** Range of the C# `int` the id is parsed into. */
  const INT32_MIN: int := -0x8000_0000
  const INT32_MAX: int := 0x7FFF_FFFF

  predicate IsAsciiDigit(c: char) {
    '0' <= c <= '9'
  }

  predicate AllDigits(s: string) {
    forall i | 0 <= i < |s| :: IsAsciiDigit(s[i])
  }

  function Pow10(n: nat): (p: nat)
    ensures p >= 1
  {
    if n == 0 then 1 else 10 * Pow10(n - 1)
  }

  /** The decimal value of a string of ASCII digits, most significant first. */
  function DigitsValue(s: string): (v: nat)
    requires AllDigits(s)
    ensures v < Pow10(|s|)
  {
    if s == [] then 0
    else
      var init := DigitsValue(s[..|s| - 1]);
      var d := s[|s| - 1] as int - '0' as int;
      assert init <= Pow10(|s| - 1) - 1;
      assert init * 10 <= Pow10(|s| - 1) * 10 - 10;
      init * 10 + d
  }

  predicate IsSign(c: char) {
    c == '-' || c == '+'
  }

  function ApplySign(sign: char, v: nat): int {
    if sign == '-' then -(v as int) else v
  }

  /**
   * `Int32.TryParse(s, NumberStyles.Any, CultureInfo.InvariantCulture, out id)`,
   * restricted to the part of its grammar made of ASCII digits and signs:
   * one or more digits with an optional leading sign or an optional trailing
   * sign (not both), whose value fits a 32-bit signed integer. `None` is a
   * failed parse.
   */
  function TryParseInt32(s: string): (r: Option<int>)
    ensures r.Some? ==> INT32_MIN <= r.value <= INT32_MAX
    ensures r.Some? ==> exists i | 0 <= i < |s| :: IsAsciiDigit(s[i])
  {
    var unbounded :=
      if |s| >= 2 && IsSign(s[0]) && AllDigits(s[1..]) then
        assert IsAsciiDigit(s[1..][0]);
        Some(ApplySign(s[0], DigitsValue(s[1..])))
      else if |s| >= 2 && IsSign(s[|s| - 1]) && AllDigits(s[..|s| - 1]) then
        assert IsAsciiDigit(s[..|s| - 1][0]);
        Some(ApplySign(s[|s| - 1], DigitsValue(s[..|s| - 1])))
      else if |s| >= 1 && AllDigits(s) then
        assert IsAsciiDigit(s[0]);
        Some(DigitsValue(s))
      else None;
    if unbounded.Some? && INT32_MIN <= unbounded.value <= INT32_MAX then unbounded else None
  }

  /** The value `TryParse` leaves in its out parameter: 0 when the parse fails. */
  function ParsedId(s: string): (id: int)
    ensures TryParseInt32(s).None? ==> id == 0
    ensures TryParseInt32(s).Some? ==> id == TryParseInt32(s).value
  {
    match TryParseInt32(s)
    case Some(v) => v
    case None => 0
  }

  /** Eight ASCII digits always parse, to their decimal value, which is not negative. */
  lemma EightDigitsParse(s: string)
    requires |s| == ID_LENGTH && AllDigits(s)
    ensures TryParseInt32(s) == Some(DigitsValue(s))
    ensures 0 <= ParsedId(s) < 100_000_000
  {
    assert !IsSign(s[0]) && IsAsciiDigit(s[0]);
    assert !IsSign(s[|s| - 1]) && IsAsciiDigit(s[|s| - 1]);
    assert Pow10(8) == 100_000_000;
  }

  /** `s.Replace("-", "")`. */
  function RemoveHyphens(s: string): (r: string)
    ensures '-' !in r
    ensures |r| <= |s|
    ensures '-' !in s ==> r == s
    ensures forall c | c != '-' :: c in r <==> c in s
  {
    if s == [] then []
    else (if s[0] == '-' then [] else [s[0]]) + RemoveHyphens(s[1..])
  }

  lemma DigitsHaveNoHyphen(d: string)
    requires AllDigits(d)
    ensures '-' !in d
  {
  }

  /** Hyphen removal works piecewise. */
  lemma {:induction false} RemoveHyphensAppend(a: string, b: string)
    ensures RemoveHyphens(a + b) == RemoveHyphens(a) + RemoveHyphens(b)
  {
    if a == [] {
      assert a + b == b;
    } else {
      assert (a + b)[0] == a[0];
      assert (a + b)[1..] == a[1..] + b;
      RemoveHyphensAppend(a[1..], b);
    }
  }

  /** A hyphen strictly inside the text is neither a sign nor a digit: the parse fails, leaving 0. */
  lemma InnerHyphenFailsParse(s: string, k: nat)
    requires 0 < k < |s| - 1 && s[k] == '-'
    ensures TryParseInt32(s).None? && ParsedId(s) == 0
  {
    assert !IsAsciiDigit(s[k]);
    assert !IsAsciiDigit(s[1..][k - 1]);
    assert !IsAsciiDigit(s[..|s| - 1][k]);
  }

  /** Digits followed by a minus sign parse to the negated value of the digits. */
  lemma TrailingMinusParses(d: string)
    requires 1 <= |d| <= ID_LENGTH && AllDigits(d)
    ensures TryParseInt32(d + "-") == Some(-(DigitsValue(d) as int))
    ensures ParsedId(d + "-") == -(DigitsValue(d) as int)
  {
    var s := d + "-";
    assert s[0] == d[0] && !IsSign(s[0]);
    assert s[|s| - 1] == '-' && !IsAsciiDigit(s[1..][|s| - 2]);
    assert !AllDigits(s[1..]);
    assert s[..|s| - 1] == d;
    ShortDigitsValue(d);
  }

  /** At most eight digits have a value below 10^8, well inside the 32-bit range. */
  lemma ShortDigitsValue(d: string)
    requires |d| <= ID_LENGTH && AllDigits(d)
    ensures DigitsValue(d) < 100_000_000
  {
    Pow10Grows(|d|, 8);
    assert Pow10(8) == 100_000_000;
  }

  lemma {:induction false} Pow10Grows(m: nat, n: nat)
    requires m <= n
    ensures Pow10(m) <= Pow10(n)
  {
    if m < n {
      Pow10Grows(m, n - 1);
    }
  }

  /** The exact shape `DDD-DDD-DDDD`: twelve characters, ASCII digits around two hyphens. */
  predicate PhoneShape(s: string) {
    |s| == 12 &&
    forall i | 0 <= i < 12 :: if i == 3 || i == 7 then s[i] == '-' else IsAsciiDigit(s[i])
  }

  /**
   * Success of `Regex.Match(s, "^[0-9]{3}-[0-9]{3}-[0-9]{4}$", IgnoreCase)`.
   * In .NET, `$` without the multiline option matches at the end of the input
   * and also just before a final line feed.
   */
  predicate MatchesPhonePattern(s: string)
    ensures PhoneShape(s) ==> MatchesPhonePattern(s)
    ensures MatchesPhonePattern(s) ==> 12 <= |s| <= 13 && s[3] == '-' && s[7] == '-'
  {
    PhoneShape(s) || (|s| == 13 && s[12] == '\n' && PhoneShape(s[..12]))
  }

  /** Away from line feeds, the pattern accepts exactly the `DDD-DDD-DDDD` shape. */
  lemma PhonePatternIsShape(s: string)
    requires '\n' !in s
    ensures MatchesPhonePattern(s) <==> PhoneShape(s)
  {
    if |s| == 13 {
      assert s[12] in s;
    }
  }

  /** `s.Substring(0, 15)` when `s` is longer than 15 characters, else `s`. */
  function Truncate(s: string): (r: string)
    ensures |r| == if |s| > MAX_NAME_LENGTH then MAX_NAME_LENGTH else |s|
    ensures r <= s
  {
    if |s| > MAX_NAME_LENGTH then s[..MAX_NAME_LENGTH] else s
  }
}
