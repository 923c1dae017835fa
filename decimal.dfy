/**
 * Decimal numerals: powers of ten, the value of a digit string, and the two
 * renderings of a natural number the token formatting is built from.
 */
module Decimal {
  import opened Arithmetic

  function Pow10(k: nat): (p: nat)
    ensures p >= 1
  {
    if k == 0 then 1 else 10 * Pow10(k - 1)
  }

  lemma {:induction false} Pow10Add(a: nat, b: nat)
    ensures Pow10(a + b) == Pow10(a) * Pow10(b)
  {
    if b > 0 {
      Pow10Add(a, b - 1);
      calc {
        Pow10(a + b);
        10 * Pow10(a + (b - 1));
        10 * (Pow10(a) * Pow10(b - 1));
        Pow10(a) * (10 * Pow10(b - 1));
        Pow10(a) * Pow10(b);
      }
    }
  }

  /** 10^n splits at any k <= n into 10^(n - k) * 10^k. */
  lemma Pow10Split(n: nat, k: nat)
    requires k <= n
    ensures Pow10(n) == Pow10(n - k) * Pow10(k)
  {
    Pow10Add(n - k, k);
  }

  predicate IsDigit(c: char) {
    '0' <= c <= '9'
  }

  predicate AllDigits(s: string) {
    forall i :: 0 <= i < |s| ==> IsDigit(s[i])
  }

  function DigitValue(c: char): (d: nat)
    requires IsDigit(c)
    ensures d < 10
  {
    c as int - '0' as int
  }

  function DigitChar(d: nat): (c: char)
    requires d < 10
    ensures IsDigit(c) && DigitValue(c) == d
  {
    ('0' as int + d) as char
  }

  /** A string of `k` zero digits. */
  function Zeros(k: nat): (z: string)
    ensures |z| == k && forall i :: 0 <= i < k ==> z[i] == '0'
  {
    seq(k, _ => '0')
  }

  /** The number a string of decimal digits denotes, most significant digit first. */
  function ValueOf(s: string): (v: nat)
    requires AllDigits(s)
    ensures v < Pow10(|s|)
  {
    if s == [] then 0 else 10 * ValueOf(s[..|s| - 1]) + DigitValue(s[|s| - 1])
  }

  /** Appending digits scales what comes before them by a power of ten. */
  lemma {:induction false} ValueOfConcat(x: string, y: string)
    requires AllDigits(x) && AllDigits(y)
    ensures AllDigits(x + y)
    ensures ValueOf(x + y) == ValueOf(x) * Pow10(|y|) + ValueOf(y)
  {
    if y == [] {
      assert x + y == x;
    } else {
      var y' := y[..|y| - 1];
      assert (x + y)[..|x + y| - 1] == x + y';
      ValueOfConcat(x, y');
      var d := DigitValue(y[|y| - 1]);
      assert (x + y)[|x + y| - 1] == y[|y| - 1];
      assert ValueOf(x + y) == 10 * ValueOf(x + y') + d;
      assert ValueOf(y) == 10 * ValueOf(y') + d;
      assert Pow10(|y|) == 10 * Pow10(|y'|);
      Regroup(ValueOf(x), Pow10(|y'|), ValueOf(y'), d);
    }
  }

  lemma {:induction false} ValueOfZeros(k: nat)
    ensures AllDigits(Zeros(k)) && ValueOf(Zeros(k)) == 0
  {
    if k > 0 {
      ValueOfZeros(k - 1);
      assert Zeros(k)[..k - 1] == Zeros(k - 1);
    }
  }

  /** `n` written with exactly `width` digits, zero-padded on the left (`padStart`). */
  function FixedDigits(n: nat, width: nat): (s: string)
    requires n < Pow10(width)
    ensures |s| == width && AllDigits(s) && ValueOf(s) == n
  {
    if width == 0 then []
    else
      var s := FixedDigits(n / 10, width - 1) + [DigitChar(n % 10)];
      assert s[..width - 1] == FixedDigits(n / 10, width - 1);
      s
  }

  /** The shortest numeral of `n`, as BigInt and Number `toString` give it. */
  function NatToString(n: nat): (s: string)
    ensures |s| >= 1 && AllDigits(s) && ValueOf(s) == n
    ensures n == 0 ==> s == "0"
    ensures n > 0 ==> s[0] != '0'
  {
    if n < 10 then [DigitChar(n)]
    else
      var s := NatToString(n / 10) + [DigitChar(n % 10)];
      assert s[..|s| - 1] == NatToString(n / 10);
      s
  }

  /** Drops the trailing '0' characters, as `replace(/(0+)$/, '')` does. */
  function StripTrailingZeros(s: string): (r: string)
    ensures |r| <= |s| && s == r + Zeros(|s| - |r|)
    ensures r == [] || r[|r| - 1] != '0'
  {
    if s != [] && s[|s| - 1] == '0' then
      var r := StripTrailingZeros(s[..|s| - 1]);
      assert s == s[..|s| - 1] + ['0'];
      assert Zeros(|s| - 1 - |r|) + ['0'] == Zeros(|s| - |r|);
      r
    else
      assert s == s + Zeros(0);
      s
  }

  /** Dropping trailing zeros leaves digits. */
  lemma StrippedDigits(s: string)
    requires AllDigits(s)
    ensures AllDigits(StripTrailingZeros(s))
  {
    var r := StripTrailingZeros(s);
    assert forall i :: 0 <= i < |r| ==> r[i] == s[i];
  }

  /** A string of zeros has no digits left once its trailing zeros are dropped. */
  lemma StripZeros(k: nat)
    ensures StripTrailingZeros(Zeros(k)) == []
  {
    var r := StripTrailingZeros(Zeros(k));
    assert forall i :: 0 <= i < |r| ==> r[i] == Zeros(k)[i] == '0';
  }
}
