/** Python's `str(n)` and `int(s)` on base-10 integers, ASCII digits. */
module PyInt {
  import opened Outcome
  import opened Text

  predicate IsDigit(c: char) {
    '0' <= c <= '9'
  }

  function DigitChar(d: nat): (c: char)
    requires d < 10
    ensures IsDigit(c)
  {
    ('0' as int + d) as char
  }

  function DigitValue(c: char): (d: nat)
    requires IsDigit(c)
    ensures d < 10
  {
    c as int - '0' as int
  }

  /** `str(n)` for a non-negative `n`: its decimal digits, no leading zero. */
  function NatString(n: nat): (r: string)
    ensures |r| >= 1 && forall i :: 0 <= i < |r| ==> IsDigit(r[i])
  {
    if n < 10 then [DigitChar(n)] else NatString(n / 10) + [DigitChar(n % 10)]
  }

  /** `str(n)`. */
  function DecimalString(n: int): string {
    if n < 0 then "-" + NatString(-n) else NatString(n)
  }

  /** The digit part `int()` accepts: digits, with single underscores allowed
      between two digits. */
  predicate WellFormedDigits(s: string) {
    && |s| > 0 && IsDigit(s[0]) && IsDigit(s[|s| - 1])
    && (forall i :: 0 <= i < |s| ==> IsDigit(s[i]) || s[i] == '_')
    && (forall i :: 0 <= i < |s| - 1 ==> s[i] == '_' ==> s[i + 1] != '_')
  }

  /** The value of a digit string, underscores ignored. */
  function DigitsValue(s: string): nat
    requires forall i :: 0 <= i < |s| ==> IsDigit(s[i]) || s[i] == '_'
  {
    if |s| == 0 then 0
    else if s[|s| - 1] == '_' then DigitsValue(s[..|s| - 1])
    else DigitsValue(s[..|s| - 1]) * 10 + DigitValue(s[|s| - 1])
  }

  /** `int(s)` for a string `s`: surrounding whitespace is ignored, one optional
      sign, then digits; `None` where Python raises ValueError. */
  function ParseInt(s: string): Option<int> {
    var t := Strip(s);
    if |t| > 0 && t[0] == '-' && WellFormedDigits(t[1..]) then Some(-(DigitsValue(t[1..]) as int))
    else if |t| > 0 && t[0] == '+' && WellFormedDigits(t[1..]) then Some(DigitsValue(t[1..]))
    else if WellFormedDigits(t) then Some(DigitsValue(t))
    else None
  }

  /** The digits of `str(n)` are well formed and denote `n`. */
  lemma {:induction false} NatStringValue(n: nat)
    ensures WellFormedDigits(NatString(n)) && DigitsValue(NatString(n)) == n
  {
    if n >= 10 {
      NatStringValue(n / 10);
      var p := NatString(n / 10);
      var s := p + [DigitChar(n % 10)];
      assert s[..|s| - 1] == p;
    }
  }

  /** `str(n)` is made of digits and a leading minus sign only. */
  lemma DecimalStringChars(n: int)
    ensures |DecimalString(n)| >= 1
    ensures forall i :: 0 <= i < |DecimalString(n)| ==>
              IsDigit(DecimalString(n)[i]) || (i == 0 && n < 0 && DecimalString(n)[i] == '-')
  {
  }

  /** Digits and the minus sign are not whitespace. */
  lemma SignOrDigitNotSpace(c: char)
    requires IsDigit(c) || c == '-'
    ensures !IsSpace(c)
  {
  }

  /** `str(n)` neither begins nor ends with whitespace. */
  lemma DecimalStringTrimmed(n: int)
    ensures Strip(DecimalString(n)) == DecimalString(n)
  {
    var d := DecimalString(n);
    DecimalStringChars(n);
    SignOrDigitNotSpace(d[0]);
    SignOrDigitNotSpace(d[|d| - 1]);
    StripKeeps(d);
  }

  /** `int(str(n)) == n`. */
  lemma DecimalRoundTrip(n: int)
    ensures ParseInt(DecimalString(n)) == Some(n)
  {
    var d := DecimalString(n);
    DecimalStringTrimmed(n);
    if n < 0 {
      var m := NatString(-n);
      NatStringValue(-n);
      assert d[1..] == m;
      assert d[0] == '-';
      assert ParseInt(d) == Some(-(DigitsValue(m) as int));
    } else {
      NatStringValue(n);
      assert IsDigit(d[0]);
      assert ParseInt(d) == Some(DigitsValue(d));
    }
  }

  /** `int()` sees only the trimmed text. */
  lemma ParseIntSeesStrip(a: string, b: string)
    requires Strip(a) == Strip(b)
    ensures ParseInt(a) == ParseInt(b)
  {
  }

  /** `int(str(n) + " ") == n`. */
  lemma PaddedRoundTrip(n: int)
    ensures ParseInt(DecimalString(n) + " ") == Some(n)
  {
    var d := DecimalString(n);
    DecimalStringChars(n);
    assert !IsSpace(d[0]) && !IsSpace(d[|d| - 1]);
    StripTrailingSpace(d, ' ');
    StripKeeps(d);
    ParseIntSeesStrip(d + " ", d);
    DecimalRoundTrip(n);
  }

  /** Trimmed text that starts with neither a sign nor a digit is rejected. */
  lemma ParseIntNeedsSignOrDigit(t: string)
    requires Strip(t) == t && |t| > 0 && !IsDigit(t[0]) && t[0] != '-' && t[0] != '+'
    ensures ParseInt(t).None?
  {
  }

  /** Distinct numbers have distinct decimal forms. */
  lemma DecimalStringInjective(a: int, b: int)
    requires DecimalString(a) == DecimalString(b)
    ensures a == b
  {
    DecimalRoundTrip(a);
    DecimalRoundTrip(b);
  }
}
