/**
 * Fixed-width decimal rendering, as done by Python's `"%02d"`, `"%04d"` and
 * `"%06d"` formats for numbers that fit the width, together with its inverse.
 */
module Digits {

  function Pow10(n: nat): (p: nat)
    ensures p >= 1
  {
    if n == 0 then 1 else 10 * Pow10(n - 1)
  }

  predicate IsDigit(c: char) {
    '0' <= c <= '9'
  }

  predicate AllDigits(s: string) {
    forall i :: 0 <= i < |s| ==> IsDigit(s[i])
  }

  /** The ASCII digit for `d`. */
  function DigitChar(d: nat): (c: char)
    requires d < 10
    ensures IsDigit(c) && c as int - '0' as int == d
  {
    ('0' as int + d) as char
  }

  /** `n` written in exactly `width` decimal digits, with leading zeros. */
  function ZeroPad(n: nat, width: nat): (s: string)
    requires n < Pow10(width)
    ensures |s| == width && AllDigits(s)
  {
    if width == 0 then []
    else
      assert n / 10 < Pow10(width - 1);
      ZeroPad(n / 10, width - 1) + [DigitChar(n % 10)]
  }

  /** The number a string of decimal digits denotes. */
  function DigitsValue(s: string): (v: nat)
    requires AllDigits(s)
    ensures v < Pow10(|s|)
  {
    if s == [] then 0
    else
      var init := s[..|s| - 1];
      var d := s[|s| - 1] as int - '0' as int;
      var w := DigitsValue(init);
      assert w <= Pow10(|init|) - 1;
      assert 10 * w + d <= 10 * (Pow10(|init|) - 1) + 9;
      10 * w + d
  }

  /** Reading back a zero-padded number gives the number. */
  lemma {:induction false} ZeroPadRoundTrip(n: nat, width: nat)
    requires n < Pow10(width)
    ensures DigitsValue(ZeroPad(n, width)) == n
  {
    if width > 0 {
      var s := ZeroPad(n, width);
      ZeroPadRoundTrip(n / 10, width - 1);
      assert s[..|s| - 1] == ZeroPad(n / 10, width - 1);
    }
  }
}
