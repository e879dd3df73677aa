/**
  The numeric arguments of the chat editor: which tokens `isNaN` lets through and what
  `parseInt` makes of them, restricted to optionally negative decimal integers, and the
  decimal rendering of a number inside a reply (`${n}`).
*/
module Numbers {

  predicate IsDigit(c: char) {
    '0' <= c <= '9'
  }

  predicate IsDigits(s: string) {
    |s| > 0 && forall i :: 0 <= i < |s| ==> IsDigit(s[i])
  }

  /** A token that is a number for `isNaN` and `parseInt`: an optional `-` and decimal digits. */
  predicate IsInteger(s: string): (b: bool)
    ensures b <==> |s| > 0 && (IsDigit(s[0]) || (s[0] == '-' && |s| > 1))
                   && forall i :: 1 <= i < |s| ==> IsDigit(s[i])
  {
    IsDigits(s) || (|s| > 1 && s[0] == '-' && IsDigits(s[1..]))
  }

  function DigitValue(c: char): nat
    requires IsDigit(c)
  {
    c as int - '0' as int
  }

  function DigitChar(d: nat): (c: char)
    requires d < 10
    ensures IsDigit(c) && DigitValue(c) == d
  {
    ('0' as int + d) as char
  }

  /** The value of a run of decimal digits, most significant first. */
  function DigitsValue(s: string): nat
    requires forall i :: 0 <= i < |s| ==> IsDigit(s[i])
  {
    if s == [] then 0 else DigitsValue(s[..|s| - 1]) * 10 + DigitValue(s[|s| - 1])
  }

  /** `parseInt(s)` of a token that passed the `isNaN` check. */
  function ParseInt(s: string): (r: int)
    requires IsInteger(s)
    ensures r < 0 ==> s[0] == '-'
    ensures s[0] != '-' ==> r >= 0
  {
    if s[0] == '-' then -(DigitsValue(s[1..]) as int) else DigitsValue(s)
  }

  /** The decimal digits of `n`, without leading zeros. */
  function NatToString(n: nat): (r: string)
    ensures IsDigits(r)
    ensures r[0] == '0' ==> n == 0
  {
    if n < 10 then [DigitChar(n)] else NatToString(n / 10) + [DigitChar(n % 10)]
  }

  /** `${n}` for an integer `n`. */
  function IntToString(n: int): (r: string)
    ensures IsInteger(r)
    ensures r[0] == '-' <==> n < 0
  {
    if n < 0 then "-" + NatToString(-n) else NatToString(n)
  }

  lemma {:induction false} DigitsValueOfNatToString(n: nat)
    ensures DigitsValue(NatToString(n)) == n
  {
    if n >= 10 {
      DigitsValueOfNatToString(n / 10);
      var r := NatToString(n);
      assert r[..|r| - 1] == NatToString(n / 10);
    }
  }

  /** A number written into a reply reads back as the same number. */
  lemma ParseIntOfIntToString(n: int)
    ensures IsInteger(IntToString(n))
    ensures ParseInt(IntToString(n)) == n
  {
    if n < 0 {
      DigitsValueOfNatToString(-n);
      assert IntToString(n)[1..] == NatToString(-n);
    } else {
      DigitsValueOfNatToString(n);
    }
  }
}
