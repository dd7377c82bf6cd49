/**
 * The decimal rendering of a line count. The gutter is sized by the number of
 * characters of the string interpolation "\(count)", which for a non-negative
 * count is its decimal digits without sign or leading zeros.
 */
module Decimal {

  function Pow10(k: nat): (r: nat)
    ensures r >= 1
  {
    if k == 0 then 1 else 10 * Pow10(k - 1)
  }

  function DigitChar(d: nat): (c: char)
    requires d < 10
    ensures '0' <= c <= '9'
    ensures c as int - '0' as int == d
  {
    (48 + d) as char
  }

  /** The decimal digits of `n`, most significant first. */
  function DecimalString(n: nat): (s: string)
    ensures |s| >= 1
    ensures forall i :: 0 <= i < |s| ==> '0' <= s[i] <= '9'
    ensures n > 0 ==> s[0] != '0'
    decreases n
  {
    if n < 10 then [DigitChar(n)] else DecimalString(n / 10) + [DigitChar(n % 10)]
  }

  /** Reads a string of decimal digits back as a number. */
  function ParseDecimal(s: string): (n: nat)
    requires forall i :: 0 <= i < |s| ==> '0' <= s[i] <= '9'
  {
    if |s| == 0 then 0
    else ParseDecimal(s[..|s| - 1]) * 10 + (s[|s| - 1] as int - '0' as int)
  }

  /**
   * The number of characters of "\(n)": the d with n in [10^(d-1), 10^d)
   * (0 has one digit).
   */
  function DigitCount(n: nat): (d: nat)
    ensures d >= 1
    ensures n < Pow10(d)
    ensures n > 0 ==> Pow10(d - 1) <= n
  {
    DecimalLengthBounds(n);
    |DecimalString(n)|
  }

  /** Reading the rendering back gives the number: no digit is lost or added. */
  lemma {:induction false} ParseDecimalString(n: nat)
    ensures ParseDecimal(DecimalString(n)) == n
    decreases n
  {
    if n >= 10 {
      var s := DecimalString(n);
      assert s[..|s| - 1] == DecimalString(n / 10);
      ParseDecimalString(n / 10);
    }
  }

  lemma {:induction false} Pow10Monotone(a: nat, b: nat)
    requires a <= b
    ensures Pow10(a) <= Pow10(b)
    decreases b
  {
    if a < b {
      Pow10Monotone(a, b - 1);
    }
  }

  /** A number whose rendering has d characters lies in [10^(d-1), 10^d). */
  lemma {:induction false} DecimalLengthBounds(n: nat)
    ensures n < Pow10(|DecimalString(n)|)
    ensures n > 0 ==> Pow10(|DecimalString(n)| - 1) <= n
    decreases n
  {
    if n >= 10 {
      var q := n / 10;
      DecimalLengthBounds(q);
      var d := |DecimalString(q)|;
      assert |DecimalString(n)| == d + 1;
      assert n < 10 * (q + 1);
      assert q + 1 <= Pow10(d);
      assert Pow10(d + 1) == 10 * Pow10(d);
      assert Pow10(d) == 10 * Pow10(d - 1);
      assert Pow10(d - 1) <= q;
      assert 10 * q <= n;
    }
  }

  /** The digit count is determined by the power-of-ten interval the number lies in. */
  lemma DigitCountFromBounds(n: nat, k: nat)
    requires k >= 1
    requires Pow10(k - 1) <= n < Pow10(k)
    ensures DigitCount(n) == k
  {
    var d := DigitCount(n);
    if d < k {
      Pow10Monotone(d, k - 1);
    } else if d > k {
      Pow10Monotone(k, d - 1);
    }
  }

  /** More lines never need fewer digits. */
  lemma DigitCountMonotone(m: nat, n: nat)
    requires m <= n
    ensures DigitCount(m) <= DigitCount(n)
  {
    if DigitCount(m) > DigitCount(n) {
      Pow10Monotone(DigitCount(n), DigitCount(m) - 1);
    }
  }

  lemma DigitCountExamples()
    ensures DigitCount(9) == 1 && DigitCount(10) == 2
    ensures DigitCount(999) == 3 && DigitCount(1000) == 4
  {
    assert Pow10(1) == 10 && Pow10(2) == 100 && Pow10(3) == 1000 && Pow10(4) == 10000;
    DigitCountFromBounds(9, 1);
    DigitCountFromBounds(10, 2);
    DigitCountFromBounds(999, 3);
    DigitCountFromBounds(1000, 4);
  }
}
