/** Go's `%d` verb: the decimal text of an integer, with a leading '-' when negative. */
module Decimal {
  predicate IsDigit(c: char)
  {
    '0' <= c <= '9'
  }

  function DigitChar(n: int): (c: char)
    requires 0 <= n < 10
    ensures IsDigit(c) && c as int - '0' as int == n
  {
    ['0', '1', '2', '3', '4', '5', '6', '7', '8', '9'][n]
  }

  /** The digits of `n`, most significant first, with no leading zero. */
  function NatDigits(n: nat): (s: string)
    ensures |s| > 0
    ensures forall i :: 0 <= i < |s| ==> IsDigit(s[i])
    ensures s[0] == '0' <==> n == 0
  {
    if n < 10 then [DigitChar(n)] else NatDigits(n / 10) + [DigitChar(n % 10)]
  }

  /** An optional '-' followed by at least one decimal digit. */
  predicate IsDecimalText(s: string)
  {
    && |s| > 0
    && (s[0] == '-' ==> |s| > 1)
    && forall i :: (if s[0] == '-' then 1 else 0) <= i < |s| ==> IsDigit(s[i])
  }

  /** `fmt.Sprintf("%d", n)`. */
  function FormatInt(n: int): (s: string)
    ensures IsDecimalText(s)
    ensures s[0] == '-' <==> n < 0
    ensures s[if n < 0 then 1 else 0] == '0' ==> n == 0
  {
    if n < 0 then
      var digits := NatDigits(-n);
      assert forall i :: 1 <= i < |digits| + 1 ==> ("-" + digits)[i] == digits[i - 1];
      "-" + digits
    else NatDigits(n)
  }

  /** The value a string of decimal digits denotes. */
  function DigitsValue(s: string): nat
    requires forall i :: 0 <= i < |s| ==> IsDigit(s[i])
  {
    if s == [] then 0
    else
      assert IsDigit(s[|s| - 1]);
      DigitsValue(s[..|s| - 1]) * 10 + (s[|s| - 1] as int - '0' as int)
  }

  /** Reads back what `FormatInt` writes. */
  function ParseInt(s: string): int
    requires IsDecimalText(s)
  {
    if s[0] == '-' then -(DigitsValue(s[1..]) as int) else DigitsValue(s)
  }

  lemma {:induction false} NatDigitsValue(n: nat)
    ensures DigitsValue(NatDigits(n)) == n
  {
    if n >= 10 {
      var s := NatDigits(n);
      var prefix := NatDigits(n / 10);
      assert s[..|s| - 1] == prefix;
      NatDigitsValue(n / 10);
    }
  }

  /** The rendering is the decimal representation: it parses back to the same integer. */
  lemma FormatIntRoundTrip(n: int)
    ensures ParseInt(FormatInt(n)) == n
  {
    if n < 0 {
      assert FormatInt(n)[1..] == NatDigits(-n);
      NatDigitsValue(-n);
    } else {
      NatDigitsValue(n);
    }
  }
}
