/**
 * Decimal digit strings: the rendering of naturals that Java's number and date
 * formatting produces, and the reading back that the parsers perform.
 */
module Digits {
  import opened Wrappers

  predicate IsDigit(c: char) {
    '0' <= c <= '9'
  }

  predicate AllDigits(s: string) {
    forall i :: 0 <= i < |s| ==> IsDigit(s[i])
  }

  function DigitChar(d: nat): (c: char)
    requires d < 10
    ensures IsDigit(c)
  {
    (d + '0' as int) as char
  }

  function DigitValue(c: char): (d: nat)
    requires IsDigit(c)
    ensures d < 10
  {
    c as int - '0' as int
  }

  /** The natural number a string of decimal digits denotes (leading zeros allowed). */
  function DigitsValue(s: string): nat
    requires AllDigits(s)
    decreases |s|
  {
    if |s| == 0 then 0 else DigitsValue(s[..|s| - 1]) * 10 + DigitValue(s[|s| - 1])
  }

  /** The shortest decimal rendering of `n`, as `Integer.toString` writes it. */
  function NatText(n: nat): (s: string)
    ensures 1 <= |s|
    ensures AllDigits(s)
    decreases n
  {
    if n < 10 then [DigitChar(n)] else NatText(n / 10) + [DigitChar(n % 10)]
  }

  function Zeros(k: nat): (s: string)
    ensures |s| == k && AllDigits(s)
  {
    seq(k, _ => '0')
  }

  /** `n` rendered with at least `width` digits, padded with leading zeros. */
  function ZeroPad(n: nat, width: nat): (s: string)
    ensures AllDigits(s)
    ensures |s| == Max(width, |NatText(n)|)
  {
    if |NatText(n)| < width then Zeros(width - |NatText(n)|) + NatText(n) else NatText(n)
  }

  /** The decimal rendering of any integer, with a leading minus for negatives. */
  function IntText(i: int): (s: string)
    ensures 1 <= |s|
  {
    if i < 0 then "-" + NatText(-i) else NatText(i)
  }

  function Pow10(k: nat): (p: nat)
    ensures 1 <= p
  {
    if k == 0 then 1 else 10 * Pow10(k - 1)
  }

  lemma DigitRoundTrip(d: nat)
    requires d < 10
    ensures DigitValue(DigitChar(d)) == d
  {
  }

  /** Reading back the shortest rendering gives the number again. */
  lemma {:induction false} NatTextValue(n: nat)
    ensures DigitsValue(NatText(n)) == n
    decreases n
  {
    if n >= 10 {
      var s := NatText(n);
      NatTextValue(n / 10);
      assert s[..|s| - 1] == NatText(n / 10);
    }
  }

  /** The shortest rendering has no leading zero, except for zero itself. */
  lemma {:induction false} NatTextNoLeadingZero(n: nat)
    ensures n > 0 ==> NatText(n)[0] != '0'
    decreases n
  {
    if n >= 10 {
      NatTextNoLeadingZero(n / 10);
    }
  }

  /** A number below `10^k` takes at most `k` digits. */
  lemma {:induction false} NatTextLength(n: nat, k: nat)
    requires 1 <= k && n < Pow10(k)
    ensures |NatText(n)| <= k
    decreases k
  {
    if n >= 10 {
      assert n / 10 < Pow10(k - 1);
      NatTextLength(n / 10, k - 1);
    }
  }

  /** A number at or above `10^(k-1)` takes at least `k` digits. */
  lemma {:induction false} NatTextLengthAtLeast(n: nat, k: nat)
    requires 1 <= k && Pow10(k - 1) <= n
    ensures k <= |NatText(n)|
    decreases k
  {
    if k > 1 {
      assert Pow10(k - 2) <= n / 10;
      NatTextLengthAtLeast(n / 10, k - 1);
    }
  }

  lemma {:induction false} ZerosValue(k: nat)
    ensures DigitsValue(Zeros(k)) == 0
    decreases k
  {
    if k > 0 {
      assert Zeros(k)[..k - 1] == Zeros(k - 1);
      ZerosValue(k - 1);
    }
  }

  /** Leading zeros do not change the value of a digit string. */
  lemma {:induction false} LeadingZerosValue(k: nat, s: string)
    requires AllDigits(s)
    ensures AllDigits(Zeros(k) + s)
    ensures DigitsValue(Zeros(k) + s) == DigitsValue(s)
    decreases |s|
  {
    var t := Zeros(k) + s;
    assert AllDigits(t) by {
      forall i | 0 <= i < |t| ensures IsDigit(t[i]) {
        if i < k {
          assert t[i] == Zeros(k)[i];
        } else {
          assert t[i] == s[i - k];
        }
      }
    }
    if |s| == 0 {
      assert t == Zeros(k);
      ZerosValue(k);
    } else {
      assert t[..|t| - 1] == Zeros(k) + s[..|s| - 1];
      LeadingZerosValue(k, s[..|s| - 1]);
    }
  }

  /** Reading back a zero-padded rendering gives the number again. */
  lemma ZeroPadValue(n: nat, width: nat)
    ensures DigitsValue(ZeroPad(n, width)) == n
  {
    NatTextValue(n);
    if |NatText(n)| < width {
      LeadingZerosValue(width - |NatText(n)|, NatText(n));
    }
  }

  /** A number below `10^width` zero-pads to exactly `width` digits. */
  lemma ZeroPadLength(n: nat, width: nat)
    requires 1 <= width && n < Pow10(width)
    ensures |ZeroPad(n, width)| == width
  {
    NatTextLength(n, width);
  }
}
