/** Decimal rendering of integers (Int32/Int64 ToString with the invariant
    culture) and System.Int32.Parse under NumberStyles.Integer. */
module Decimal {
  import opened Wrappers
  import opened Ints
  import opened Text

  /** Why Int32.Parse throws: FormatException or OverflowException. */
  datatype ParseError = FormatError | OverflowError

  predicate IsDigit(c: char)
  {
    '0' <= c <= '9'
  }

  predicate AllDigits(s: string)
  {
    forall i :: 0 <= i < |s| ==> IsDigit(s[i])
  }

  function DigitChar(d: nat): (c: char)
    requires d < 10
    ensures IsDigit(c) && c as int - '0' as int == d
  {
    (d + '0' as int) as char
  }

  /** The value of a string of decimal digits, most significant first. */
  function DigitsValue(s: string): nat
    requires AllDigits(s)
  {
    if |s| == 0 then 0
    else DigitsValue(s[..|s| - 1]) * 10 + (s[|s| - 1] as int - '0' as int)
  }

  /** The shortest decimal digits of `n`: no leading zero except for 0 itself. */
  function NatToString(n: nat): (s: string)
    ensures |s| >= 1 && AllDigits(s)
    ensures |s| > 1 ==> s[0] != '0'
  {
    if n < 10 then [DigitChar(n)] else NatToString(n / 10) + [DigitChar(n % 10)]
  }

  /** Int32.ToString() / Int64.ToString(): a '-' for negatives, then the digits. */
  function IntToString(n: int): (s: string)
    ensures |s| >= 1
    ensures n < 0 <==> s[0] == '-'
  {
    if n < 0 then "-" + NatToString(-n) else NatToString(n)
  }

  /** Reading the rendered digits back gives the number. */
  lemma {:induction false} NatToStringValue(n: nat)
    ensures DigitsValue(NatToString(n)) == n
  {
    if n >= 10 {
      NatToStringValue(n / 10);
      var s := NatToString(n);
      assert s[..|s| - 1] == NatToString(n / 10);
    }
  }

  /** Distinct numbers render as distinct strings. */
  lemma NatToStringInjective(a: nat, b: nat)
    requires NatToString(a) == NatToString(b)
    ensures a == b
  {
    NatToStringValue(a);
    NatToStringValue(b);
  }

  /** The white space Int32.Parse skips around a number: U+0009..U+000D and U+0020. */
  predicate IsNumberWhite(c: char)
  {
    c == ' ' || ('\t' <= c <= '\r')
  }

  /** Int32.Parse without the range check: optional surrounding white space,
      an optional '+' or '-', then one or more ASCII digits and nothing else. */
  function ParseInteger(s: string): (r: Result<int, ParseError>)
    ensures r.Err? ==> r.error == FormatError
  {
    var body := Strip(s, IsNumberWhite);
    if |body| > 0 && (body[0] == '-' || body[0] == '+') then
      var digits := body[1..];
      if |digits| > 0 && AllDigits(digits) then
        var v: int := DigitsValue(digits);
        Ok(if body[0] == '-' then -v else v)
      else Err(FormatError)
    else if |body| > 0 && AllDigits(body) then Ok(DigitsValue(body))
    else Err(FormatError)
  }

  /** System.Int32.Parse(string): a format error wins over an overflow, as in .NET. */
  function ParseInt32(s: string): (r: Result<Int32, ParseError>)
  {
    match ParseInteger(s)
    case Err(e) => Err(e)
    case Ok(v) => if MIN_INT32 <= v <= MAX_INT32 then Ok(v) else Err(OverflowError)
  }

  /** Parsing the digits of a natural number gives the number back. */
  lemma NatToStringParses(n: nat)
    ensures ParseInteger(NatToString(n)) == Ok(n)
  {
    var s := NatToString(n);
    StripUnpadded(s, IsNumberWhite);
    assert !(s[0] == '-' || s[0] == '+');
    NatToStringValue(n);
  }

  /** Parsing the decimal rendering of any integer gives the integer back. */
  lemma IntToStringParses(n: int)
    ensures ParseInteger(IntToString(n)) == Ok(n)
  {
    if n < 0 {
      NegativeParses(-n);
    } else {
      NatToStringParses(n);
    }
  }

  lemma NegativeParses(m: nat)
    requires m > 0
    ensures ParseInteger("-" + NatToString(m)) == Ok(0 - m)
  {
    var d := NatToString(m);
    var s := "-" + d;
    assert s[|s| - 1] == d[|d| - 1];
    StripUnpadded(s, IsNumberWhite);
    var body := Strip(s, IsNumberWhite);
    assert body[0] == '-';
    assert body[1..] == d;
    NatToStringValue(m);
  }

  /** Int32.Parse inverts Int32.ToString. */
  lemma ParseInt32RoundTrip(n: Int32)
    ensures ParseInt32(IntToString(n)) == Ok(n)
  {
    IntToStringParses(n);
  }

  /** A string without a single digit is a FormatException. */
  lemma ParseRejectsDigitless(s: string)
    requires forall i :: 0 <= i < |s| ==> !IsDigit(s[i])
    ensures ParseInt32(s) == Err(FormatError)
  {
    var body := Strip(s, IsNumberWhite);
    var a :| Framed(s, body, a, IsNumberWhite);
    assert forall i :: 0 <= i < |body| ==> body[i] == s[a + i];
    if |body| > 0 {
      assert !IsDigit(body[0]);
      if |body| > 1 {
        assert !IsDigit(body[1..][0]);
      }
    }
  }
}
