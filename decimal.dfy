/** Decimal text of integers, as `strconv.Itoa` renders it, and a reference
    parser that reads such text back. */
module Decimal {
  import opened Wrappers

  predicate IsDigit(c: char) {
    '0' <= c <= '9'
  }

  predicate AllDigits(s: string) {
    forall i :: 0 <= i < |s| ==> IsDigit(s[i])
  }

  function DigitChar(d: nat): (c: char)
    requires d < 10
    ensures IsDigit(c) && c as int - '0' as int == d
  {
    ('0' as int + d) as char
  }

  /** The shortest decimal digit string of n: never empty, no leading zero. */
  function NatToString(n: nat): (s: string)
    ensures |s| >= 1 && AllDigits(s)
    ensures |s| > 1 ==> s[0] != '0'
    ensures n == 0 <==> s == "0"
  {
    if n < 10 then [DigitChar(n)] else NatToString(n / 10) + [DigitChar(n % 10)]
  }

  /** `strconv.Itoa`: an optional minus sign followed by the digits of |n|. */
  function IntToString(n: int): (s: string)
    ensures |s| >= 1
    ensures n < 0 <==> s[0] == '-'
    ensures n < 0 ==> AllDigits(s[1..]) && |s| >= 2 && s[1] != '0'
    ensures n >= 0 ==> AllDigits(s) && (|s| > 1 ==> s[0] != '0')
  {
    if n < 0 then "-" + NatToString(-n) else NatToString(n)
  }

  /** The value of a string of decimal digits (most significant first). */
  function DigitsValue(s: string): (v: nat)
    requires AllDigits(s)
  {
    if s == [] then 0
    else DigitsValue(s[..|s| - 1]) * 10 + (s[|s| - 1] as int - '0' as int)
  }

  /** Reference parser: an optional '-' then one or more digits, nothing else. */
  function ParseInt(s: string): (r: Option<int>)
    ensures r.Some? <==> (|s| >= 1 && AllDigits(s)) || (|s| >= 2 && s[0] == '-' && AllDigits(s[1..]))
  {
    if |s| >= 1 && AllDigits(s) then Some(DigitsValue(s) as int)
    else if |s| >= 2 && s[0] == '-' && AllDigits(s[1..]) then Some(-(DigitsValue(s[1..]) as int))
    else None
  }

  lemma {:induction false} NatRoundTrip(n: nat)
    ensures DigitsValue(NatToString(n)) == n
  {
    if n >= 10 {
      var s := NatToString(n / 10);
      var t := NatToString(n);
      assert t == s + [DigitChar(n % 10)];
      assert t[..|t| - 1] == s;
      NatRoundTrip(n / 10);
    }
  }

  /** Reading back what `strconv.Itoa` wrote yields the number. */
  lemma IntRoundTrip(n: int)
    ensures ParseInt(IntToString(n)) == Some(n)
  {
    if n < 0 {
      var s := IntToString(n);
      assert s[1..] == NatToString(-n);
      NatRoundTrip(-n);
    } else {
      NatRoundTrip(n);
    }
  }

  /** Distinct numbers render as distinct strings. */
  lemma IntToStringInjective(a: int, b: int)
    requires IntToString(a) == IntToString(b)
    ensures a == b
  {
    IntRoundTrip(a);
    IntRoundTrip(b);
  }
}
