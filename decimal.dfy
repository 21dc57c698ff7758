/** The decimal text JavaScript produces when a whole number meets a string
    (`pos + 'th'`, `championshipYears.join(', ')`, `{championCount}x ...`), and
    the reading of such text back into the number. */
module Decimal {
  import opened Optional

  predicate IsDigit(c: char)
  {
    '0' <= c <= '9'
  }

  predicate AllDigits(s: string)
  {
    forall i :: 0 <= i < |s| ==> IsDigit(s[i])
  }

  function DigitChar(d: nat): (c: char)
    requires d < 10
    ensures IsDigit(c) && c as int - '0' as int == d
  {
    ('0' as int + d) as char
  }

  /** The value of a run of decimal digits, most significant first. */
  function DigitsValue(s: string): nat
    requires AllDigits(s)
    decreases |s|
  {
    if s == [] then 0
    else DigitsValue(s[..|s| - 1]) * 10 + (s[|s| - 1] as int - '0' as int)
  }

  /** `String(n)` for a non-negative whole number: at least one digit, and no
      leading zero unless the number is zero itself. */
  function NatToString(n: nat): (s: string)
    ensures 1 <= |s| && AllDigits(s)
    ensures s[0] == '0' <==> n == 0
    decreases n
  {
    if n < 10 then [DigitChar(n)]
    else NatToString(n / 10) + [DigitChar(n % 10)]
  }

  /** `String(n)` for any whole number. */
  function IntToString(n: int): (s: string)
    ensures 1 <= |s|
    ensures s[0] == '-' <==> n < 0
    ensures n < 0 ==> AllDigits(s[1..])
    ensures n >= 0 ==> AllDigits(s)
  {
    if n < 0 then "-" + NatToString(-n) else NatToString(n)
  }

  /** Reading the digits back gives the number. */
  lemma {:induction false} NatToStringRoundTrip(n: nat)
    ensures DigitsValue(NatToString(n)) == n
    decreases n
  {
    if n >= 10 {
      var s := NatToString(n);
      assert s[..|s| - 1] == NatToString(n / 10);
      NatToStringRoundTrip(n / 10);
    }
  }

  /** Distinct numbers are written differently. */
  lemma NatToStringInjective(m: nat, n: nat)
    ensures NatToString(m) == NatToString(n) ==> m == n
  {
    NatToStringRoundTrip(m);
    NatToStringRoundTrip(n);
  }

  /** The length of the longest run of digits at the start of `s`. */
  function DigitRun(s: string): (k: nat)
    ensures k <= |s|
    ensures AllDigits(s[..k])
    ensures k < |s| ==> !IsDigit(s[k])
    decreases |s|
  {
    if s == [] || !IsDigit(s[0]) then 0
    else
      var k := 1 + DigitRun(s[1..]);
      assert s[..k] == [s[0]] + s[1..][..k - 1];
      k
  }

  /** A digit string followed by a non-digit (or nothing) is read as a whole. */
  lemma {:induction false} DigitRunOfDigits(a: string, t: string)
    requires AllDigits(a)
    requires t == [] || !IsDigit(t[0])
    ensures DigitRun(a + t) == |a|
    decreases |a|
  {
    if a != [] {
      assert (a + t)[1..] == a[1..] + t;
      DigitRunOfDigits(a[1..], t);
    }
  }

  /** Reads a maximal non-empty run of digits from the front of `s`; gives its
      value and the rest of the text. */
  function ParseDigits(s: string): (r: Option<(int, string)>)
    ensures r.Some? ==> r.value.0 >= 0 && |r.value.1| < |s|
  {
    var k := DigitRun(s);
    if k == 0 then None else Some((DigitsValue(s[..k]), s[k..]))
  }

  /** Reads an optional minus sign and a maximal non-empty run of digits from
      the front of `s`; gives the number and the rest of the text. */
  function ParseInt(s: string): (r: Option<(int, string)>)
    ensures r.Some? ==> |r.value.1| < |s|
  {
    if |s| > 0 && s[0] == '-' then
      match ParseDigits(s[1..])
      case None => None
      case Some((magnitude, rest)) => Some((-magnitude, rest))
    else ParseDigits(s)
  }

  /** Digits followed by a non-digit (or nothing) are read as their value,
      and the text after them is left over. */
  lemma ParseDigitsFollowedBy(d: string, t: string)
    requires d != [] && AllDigits(d)
    requires t == [] || !IsDigit(t[0])
    ensures ParseDigits(d + t) == Some((DigitsValue(d), t))
  {
    DigitRunOfDigits(d, t);
    assert (d + t)[..|d|] == d && (d + t)[|d|..] == t;
  }

  /** An unsigned digit text followed by a non-digit (or nothing). */
  lemma ParseUnsigned(d: string, t: string)
    requires d != [] && AllDigits(d)
    requires t == [] || !IsDigit(t[0])
    ensures ParseInt(d + t) == Some((DigitsValue(d), t))
  {
    assert (d + t)[0] == d[0];
    ParseDigitsFollowedBy(d, t);
  }

  /** A minus sign, then digits, then a non-digit (or nothing). */
  lemma ParseNegated(d: string, t: string)
    requires d != [] && AllDigits(d)
    requires t == [] || !IsDigit(t[0])
    ensures ParseInt("-" + (d + t)) == Some((-(DigitsValue(d) as int), t))
  {
    var s := "-" + (d + t);
    assert s[0] == '-' && s[1..] == d + t;
    ParseDigitsFollowedBy(d, t);
  }

  /** `IntToString` is read back by `ParseInt`, whatever non-digit text follows. */
  lemma IntToStringRoundTrip(n: int, t: string)
    requires t == [] || !IsDigit(t[0])
    ensures ParseInt(IntToString(n) + t) == Some((n, t))
  {
    if n < 0 {
      NegativeRoundTrip(-n, t);
    } else {
      ParseUnsigned(NatToString(n), t);
      NatToStringRoundTrip(n);
    }
  }

  /** A negative number: the minus sign and the digits of its magnitude. */
  lemma NegativeRoundTrip(m: nat, t: string)
    requires t == [] || !IsDigit(t[0])
    ensures ParseInt("-" + NatToString(m) + t) == Some((-(m as int), t))
  {
    var d := NatToString(m);
    assert "-" + d + t == "-" + (d + t);
    ParseNegated(d, t);
    NatToStringRoundTrip(m);
  }
}
