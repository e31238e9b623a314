/** Decimal rendering of the non-negative integers the downloader uses as chapter
    and page indices: what JavaScript's Number#toString (and template interpolation)
    produces for them below 10^21, where it would switch to exponent notation. */
module Decimal {

  function Digit(d: nat): (c: char)
    requires d < 10
    ensures '0' <= c <= '9'
  {
    "0123456789"[d]
  }

  predicate IsDigits(s: string) {
    forall i :: 0 <= i < |s| ==> '0' <= s[i] <= '9'
  }

  /** Decimal digits of n, most significant first, no leading zeros. */
  function Dec(n: nat): (s: string)
    ensures |s| >= 1 && IsDigits(s)
    ensures n >= 10 ==> |s| >= 2
    decreases n
  {
    if n < 10 then [Digit(n)] else Dec(n / 10) + [Digit(n % 10)]
  }

  lemma DigitInjective(a: nat, b: nat)
    requires a < 10 && b < 10 && Digit(a) == Digit(b)
    ensures a == b
  {
  }

  /** Different indices are rendered differently, so the chapter directory and the
      picture file name identify their index. */
  lemma {:induction false} DecInjective(a: nat, b: nat)
    requires Dec(a) == Dec(b)
    ensures a == b
    decreases a
  {
    if a < 10 && b < 10 {
      DigitInjective(a, b);
    } else if a >= 10 && b >= 10 {
      var sa, sb := Dec(a), Dec(b);
      assert sa[|sa| - 1] == sb[|sb| - 1];
      DigitInjective(a % 10, b % 10);
      assert Dec(a / 10) == sa[..|sa| - 1] == sb[..|sb| - 1] == Dec(b / 10);
      DecInjective(a / 10, b / 10);
    }
  }

  function Pow10(k: nat): (r: nat)
    ensures r >= 1
  {
    if k == 0 then 1 else 10 * Pow10(k - 1)
  }

  /** Large indices have long renderings: at least 10^k needs more than k digits. */
  lemma {:induction false} DecLength(n: nat, k: nat)
    requires n >= Pow10(k)
    ensures |Dec(n)| > k
    decreases k
  {
    if k > 0 {
      assert n >= 10;
      assert n / 10 >= Pow10(k - 1);
      DecLength(n / 10, k - 1);
    }
  }
}
