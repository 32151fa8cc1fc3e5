/** Decimal notation of integers, as Int32.ToString writes it with "-" as the negative sign, and its reading. */
module Numerals {
  import opened Text

  function DigitChar(d: int): char
    requires 0 <= d < 10
  {
    (d + '0' as int) as char
  }

  function DigitValue(c: char): nat
  {
    if IsAsciiDigit(c) then c as int - '0' as int else 0
  }

  /** The decimal digits of n, most significant first, without leading zeros. */
  function NatToString(n: nat): (s: string)
    ensures |s| > 0
    ensures forall i :: 0 <= i < |s| ==> IsAsciiDigit(s[i])
    ensures n == 0 ==> s == "0"
    ensures n > 0 ==> s[0] != '0'
    decreases n
  {
    if n < 10 then [DigitChar(n)] else NatToString(n / 10) + [DigitChar(n % 10)]
  }

  /** Int32.ToString: the digits of |n|, after a "-" sign when n is negative. */
  function IntToString(n: int): (s: string)
    ensures |s| > 0
    ensures s[0] == '-' <==> n < 0
    ensures IsAsciiDigit(s[0]) || s[0] == '-'
    ensures forall i :: 1 <= i < |s| ==> IsAsciiDigit(s[i])
    ensures n == 0 ==> s == "0"
    ensures n > 0 ==> s[0] != '0'
    ensures n < 0 ==> |s| > 1 && s[1] != '0'
  {
    if n < 0 then "-" + NatToString(-n) else NatToString(n)
  }

  /** The value of a string of decimal digits; any other character counts as the digit 0. */
  function ParseNat(s: string): nat
  {
    if |s| == 0 then 0 else 10 * ParseNat(s[..|s| - 1]) + DigitValue(s[|s| - 1])
  }

  /** The value of an optionally "-"-signed string of decimal digits. */
  function ParseInt(s: string): int
  {
    if |s| > 0 && s[0] == '-' then 0 - ParseNat(s[1..]) else ParseNat(s)
  }

  lemma {:induction false} NatToStringRoundTrip(n: nat)
    ensures ParseNat(NatToString(n)) == n
    decreases n
  {
    var s := NatToString(n);
    if n >= 10 {
      NatToStringRoundTrip(n / 10);
      assert s[..|s| - 1] == NatToString(n / 10);
    }
  }

  /** Reading back the decimal notation of any integer gives that integer. */
  lemma IntToStringRoundTrip(n: int)
    ensures ParseInt(IntToString(n)) == n
  {
    if n < 0 {
      NatToStringRoundTrip(-n);
      assert IntToString(n)[1..] == NatToString(-n);
    } else {
      NatToStringRoundTrip(n);
    }
  }

  /** A numeral without leading zeros: "0", or digits whose first is not '0'. */
  predicate Canonical(s: string)
  {
    |s| > 0 && (forall i :: 0 <= i < |s| ==> IsAsciiDigit(s[i])) && (s[0] == '0' ==> |s| == 1)
  }

  lemma {:induction false} ParseNatPositive(s: string)
    requires |s| > 0 && (forall i :: 0 <= i < |s| ==> IsAsciiDigit(s[i])) && s[0] != '0'
    ensures ParseNat(s) > 0
    decreases |s|
  {
    if |s| > 1 {
      ParseNatPositive(s[..|s| - 1]);
    }
  }

  /** NatToString is the only canonical numeral of its value: every canonical numeral is NatToString of what it reads as. */
  lemma {:induction false} NatToStringCanonical(s: string)
    requires Canonical(s)
    ensures NatToString(ParseNat(s)) == s
    decreases |s|
  {
    var d := s[|s| - 1];
    if |s| > 1 {
      var init := s[..|s| - 1];
      ParseNatPositive(init);
      NatToStringCanonical(init);
      var n := ParseNat(s);
      assert n / 10 == ParseNat(init) && n % 10 == DigitValue(d);
      assert DigitChar(DigitValue(d)) == d;
      assert s == init + [d];
    } else {
      assert DigitChar(DigitValue(d)) == d;
    }
  }

  /** The same for signed numerals: IntToString writes each integer in its one canonical form. */
  lemma IntToStringCanonical(s: string)
    requires Canonical(s) || (|s| > 1 && s[0] == '-' && Canonical(s[1..]) && s[1] != '0')
    ensures IntToString(ParseInt(s)) == s
  {
    if s[0] == '-' {
      NatToStringCanonical(s[1..]);
      ParseNatPositive(s[1..]);
      assert s == "-" + s[1..];
    } else {
      NatToStringCanonical(s);
    }
  }
}
