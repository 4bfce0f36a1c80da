/** Decimal text: the rank digits the parser reads and the `%lld` text the renderer writes. */
module Text {

  predicate IsDigit(c: char) {
    '0' <= c <= '9'
  }

  function DigitValue(c: char): (d: nat)
    requires IsDigit(c)
    ensures d < 10
  {
    (c as int) - ('0' as int)
  }

  function DigitChar(d: nat): (c: char)
    requires d < 10
    ensures IsDigit(c) && DigitValue(c) == d
  {
    (('0' as int) + d) as char
  }

  /** The value of a run of digits, read left to right as `rank = 10 * rank + digit` does. */
  function DigitsValue(ds: string): nat
    requires forall k :: 0 <= k < |ds| ==> IsDigit(ds[k])
  {
    if ds == [] then 0 else 10 * DigitsValue(ds[..|ds| - 1]) + DigitValue(ds[|ds| - 1])
  }

  /** Reading a longer run never gives a smaller value (so a prefix above a bound implies the whole is). */
  lemma {:induction false} DigitsValuePrefix(ds: string, k: nat)
    requires forall m :: 0 <= m < |ds| ==> IsDigit(ds[m])
    requires k <= |ds|
    ensures DigitsValue(ds[..k]) <= DigitsValue(ds)
  {
    if k < |ds| {
      assert ds[..|ds|][..|ds| - 1] == ds[..|ds| - 1];
      DigitsValuePrefix(ds[..|ds| - 1], k);
      assert ds[..|ds| - 1][..k] == ds[..k];
      assert ds[..|ds|] == ds;
    } else {
      assert ds[..k] == ds;
    }
  }

  /** Decimal digits of n without leading zeros ("0" for zero). */
  function NatText(n: nat): string {
    if n < 10 then [DigitChar(n)] else NatText(n / 10) + [DigitChar(n % 10)]
  }

  /** NatText writes at least one digit, only digits, no leading zero, and reads back as n. */
  lemma {:induction false} NatTextDigits(n: nat)
    ensures var s := NatText(n);
      |s| >= 1 && (forall k :: 0 <= k < |s| ==> IsDigit(s[k])) && (|s| > 1 ==> s[0] != '0') && DigitsValue(s) == n
  {
    if n >= 10 {
      NatTextDigits(n / 10);
      var s := NatText(n);
      assert s[..|s| - 1] == NatText(n / 10);
    }
  }

  /** `%lld`: signed decimal, a minus sign for negatives, no leading zeros. */
  function IntText(n: int): string {
    if n < 0 then "-" + NatText(-n) else NatText(n)
  }

  /** IntText starts with '-' exactly for negatives, followed by the digits of the magnitude. */
  lemma {:induction false} IntTextSign(n: int)
    ensures var s := IntText(n);
      |s| >= 1 && (n < 0 <==> s[0] == '-') && (n >= 0 ==> s == NatText(n)) && (n < 0 ==> s[1..] == NatText(-n))
  {
    NatTextDigits(if n < 0 then -n else n);
    if n < 0 {
      assert IntText(n)[1..] == NatText(-n);
    }
  }
}
