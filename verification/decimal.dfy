/**
 Decimal numerals: Python's `int()` on a plain digit string and `str()` / f-string
 formatting of a non-negative integer.
 */
module Decimal {
  import opened Text

  function DigitValue(c: char): (d: nat)
    requires IsDigit(c)
    ensures d < 10
  {
    c as int - '0' as int
  }

  function DigitChar(d: nat): (c: char)
    requires d < 10
    ensures IsDigit(c) && DigitValue(c) == d
  {
    ('0' as int + d) as char
  }

  /** `int(s)` for a string of ASCII digits; leading zeros carry no value. */
  function ParseDecimal(s: string): nat
    requires AllDigits(s)
  {
    if |s| == 0 then 0 else ParseDecimal(s[..|s| - 1]) * 10 + DigitValue(s[|s| - 1])
  }

  /** A numeral in the form `str(n)` writes: no leading zero unless it is "0" itself. */
  predicate IsCanonical(s: string) {
    IsNumeral(s) && (s[0] == '0' ==> |s| == 1)
  }

  /** `str(n)` for a non-negative integer. */
  function Format(n: nat): (r: string)
    ensures IsCanonical(r)
  {
    if n < 10 then [DigitChar(n)]
    else
      var r := Format(n / 10) + [DigitChar(n % 10)];
      assert r[0] == Format(n / 10)[0];
      r
  }

  /** Reading back what `str(n)` wrote gives `n`. */
  lemma {:induction false} ParseFormat(n: nat)
    ensures ParseDecimal(Format(n)) == n
  {
    if n >= 10 {
      var s := Format(n);
      assert s[..|s| - 1] == Format(n / 10);
      ParseFormat(n / 10);
    }
  }

  /** A canonical numeral with a non-zero first digit has a non-zero value. */
  lemma {:induction false} LeadingDigitPositive(s: string)
    requires IsNumeral(s) && s[0] != '0'
    ensures ParseDecimal(s) > 0
  {
    if |s| > 1 {
      LeadingDigitPositive(s[..|s| - 1]);
    }
  }

  /** Formatting the value of a canonical numeral gives the numeral back. */
  lemma {:induction false} FormatParse(s: string)
    requires IsCanonical(s)
    ensures Format(ParseDecimal(s)) == s
  {
    if |s| > 1 {
      var init := s[..|s| - 1];
      LeadingDigitPositive(init);
      LeadingDigitPositive(s);
      FormatParse(init);
      var n := ParseDecimal(s);
      assert n / 10 == ParseDecimal(init);
      assert n % 10 == DigitValue(s[|s| - 1]);
      assert s == init + [s[|s| - 1]];
    }
  }

  /** A leading zero carries no value, so `str(int(s))` drops it. */
  lemma {:induction false} LeadingZeroIgnored(s: string)
    requires IsNumeral(s) && |s| > 1 && s[0] == '0'
    ensures ParseDecimal(s) == ParseDecimal(s[1..])
    decreases |s|
  {
    if |s| == 2 {
      assert s[..1] == "0";
      assert s[1..] == [s[1]];
      assert ParseDecimal(s[1..]) == ParseDecimal(s[1..][..0]) * 10 + DigitValue(s[1]);
    } else {
      var init := s[..|s| - 1];
      LeadingZeroIgnored(init);
      assert init[1..] == s[1..][..|s| - 2];
    }
  }
}
