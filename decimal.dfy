// Decimal text of integers, as `std::ostream` writes an `int`: an optional
// minus sign followed by the digits, most significant first, with no
// leading zeros.
module Decimal {
  import opened Wrappers

  /** The character of a decimal digit. */
  function Digit(d: nat): (c: char)
    requires d < 10
    ensures '0' <= c <= '9'
    ensures c as int - '0' as int == d
  {
    ('0' as int + d) as char
  }

  predicate IsDigits(s: string)
  {
    forall i :: 0 <= i < |s| ==> '0' <= s[i] <= '9'
  }

  /** The digits of `n`; a single 0 for zero, and no leading zero otherwise. */
  function NatText(n: nat): (s: string)
    ensures |s| >= 1 && IsDigits(s)
    ensures |s| > 1 ==> s[0] != '0'
    decreases n
  {
    if n < 10 then [Digit(n)] else NatText(n / 10) + [Digit(n % 10)]
  }

  /** The text of an integer. */
  function IntText(i: int): (s: string)
    ensures |s| >= 1
    ensures i < 0 <==> s[0] == '-'
  {
    if i < 0 then "-" + NatText(-i) else NatText(i)
  }

  /** The text of an integer holds only a sign and digits. */
  lemma IntTextChars(i: int)
    ensures forall k :: 0 <= k < |IntText(i)| ==> IntText(i)[k] == '-' || '0' <= IntText(i)[k] <= '9'
  {
    if i < 0 {
      var t := NatText(-i);
      forall k | 0 <= k < |"-" + t|
        ensures ("-" + t)[k] == '-' || '0' <= ("-" + t)[k] <= '9'
      {
        if k > 0 {
          assert ("-" + t)[k] == t[k - 1];
        }
      }
    }
  }

  /** The number a string of digits denotes. */
  function DigitsValue(s: string): nat
    requires IsDigits(s)
  {
    if s == [] then 0
    else DigitsValue(s[..|s| - 1]) * 10 + (s[|s| - 1] as int - '0' as int)
  }

  /** Reading an integer back: an optional minus sign and at least one digit. */
  function ParseInt(s: string): Option<int>
  {
    if |s| > 1 && s[0] == '-' && IsDigits(s[1..]) then Some(-(DigitsValue(s[1..]) as int))
    else if |s| > 0 && IsDigits(s) then Some(DigitsValue(s))
    else None
  }

  lemma {:induction false} NatTextValue(n: nat)
    ensures DigitsValue(NatText(n)) == n
    decreases n
  {
    if n >= 10 {
      var s := NatText(n);
      assert s[..|s| - 1] == NatText(n / 10);
      NatTextValue(n / 10);
    }
  }

  /** The text of an integer reads back as that integer. */
  lemma IntTextRoundTrip(i: int)
    ensures ParseInt(IntText(i)) == Some(i)
  {
    if i < 0 {
      NegativeRoundTrip(i);
    } else {
      NatTextValue(i);
      ParseUnsigned(NatText(i));
    }
  }

  lemma NegativeRoundTrip(i: int)
    requires i < 0
    ensures ParseInt(IntText(i)) == Some(i)
  {
    var n: nat := -i;
    var t := NatText(n);
    NatTextValue(n);
    SignedText(t, n);
    assert IntText(i) == "-" + t;
  }

  lemma SignedText(t: string, n: nat)
    requires |t| >= 1 && IsDigits(t) && DigitsValue(t) == n
    ensures ParseInt("-" + t) == Some(-(n as int))
  {
    var s := "-" + t;
    assert s[1..] == t;
  }

  lemma ParseUnsigned(t: string)
    requires |t| >= 1 && IsDigits(t)
    ensures ParseInt(t) == Some(DigitsValue(t))
  {
    assert '0' <= t[0] <= '9';
  }

  /** Different integers have different texts. */
  lemma IntTextInjective(i: int, j: int)
    requires IntText(i) == IntText(j)
    ensures i == j
  {
    IntTextRoundTrip(i);
    IntTextRoundTrip(j);
  }
}
