/**
 * Decimal rendering of a non-negative integer as .NET's standard numeric
 * format "D<width>" does it ("{0:D6}" in the TOTP code): the shortest
 * decimal representation, left-padded with '0' to at least `width`
 * characters.  ParseDecimal reads such a string back.
 */
module DecimalFormat {

  predicate IsDigit(c: char) {
    '0' <= c <= '9'
  }

  predicate AllDigits(s: string) {
    forall i :: 0 <= i < |s| ==> IsDigit(s[i])
  }

  /** 10^n. */
  function Pow10(n: nat): (p: nat)
    ensures p > 0
  {
    if n == 0 then 1 else 10 * Pow10(n - 1)
  }

  function DigitChar(d: nat): (c: char)
    requires d < 10
    ensures IsDigit(c)
  {
    ('0' as int + d) as char
  }

  function DigitValue(c: char): (d: nat)
    requires IsDigit(c)
    ensures d < 10
  {
    c as int - '0' as int
  }

  /** The decimal representation of `v` without leading zeros ("0" for zero). */
  function Digits(v: nat): (s: string)
    ensures |s| >= 1 && AllDigits(s)
  {
    if v < 10 then [DigitChar(v)] else Digits(v / 10) + [DigitChar(v % 10)]
  }

  /** The string of `k` '0' characters. */
  function Zeros(k: nat): (s: string)
    ensures |s| == k && AllDigits(s)
  {
    seq(k, i => '0')
  }

  /** The value of a string of decimal digits, most significant digit first. */
  function ParseDecimal(s: string): (v: nat)
    requires AllDigits(s)
    ensures v < Pow10(|s|)
  {
    if s == [] then 0
    else
      var high := ParseDecimal(s[..|s| - 1]);
      assert high * 10 + DigitValue(s[|s| - 1]) < Pow10(|s|) by {
        assert high + 1 <= Pow10(|s| - 1);
        assert (high + 1) * 10 <= Pow10(|s| - 1) * 10;
      }
      high * 10 + DigitValue(s[|s| - 1])
  }

  /** "{0:D<width>}" applied to `v`. */
  function FormatD(v: nat, width: nat): (s: string)
    ensures AllDigits(s)
    ensures ParseDecimal(s) == v
    ensures |s| >= width
    ensures width >= 1 && v < Pow10(width) ==> |s| == width
  {
    var digits := Digits(v);
    ParseDigits(v);
    if |digits| < width then
      ParseLeadingZeros(width - |digits|, digits);
      Zeros(width - |digits|) + digits
    else
      if v < Pow10(width) then DigitsLength(v, width); digits else digits
  }

  /** Reading back the decimal representation gives the value. */
  lemma {:induction false} ParseDigits(v: nat)
    ensures ParseDecimal(Digits(v)) == v
  {
    if v >= 10 {
      var s := Digits(v);
      assert s[..|s| - 1] == Digits(v / 10);
      ParseDigits(v / 10);
    }
  }

  /** A value below 10^n has at most n digits (for n >= 1). */
  lemma {:induction false} DigitsLength(v: nat, n: nat)
    requires v < Pow10(n)
    ensures n >= 1 ==> |Digits(v)| <= n
  {
    if v >= 10 {
      assert n >= 2;
      assert v / 10 < Pow10(n - 1);
      DigitsLength(v / 10, n - 1);
    }
  }

  /** Leading zeros do not change the value of a decimal string. */
  lemma {:induction false} ParseLeadingZeros(k: nat, s: string)
    requires AllDigits(s)
    ensures ParseDecimal(Zeros(k) + s) == ParseDecimal(s)
  {
    if s == [] {
      ParseZeros(k);
      assert Zeros(k) + s == Zeros(k);
    } else {
      var t := Zeros(k) + s;
      assert t[..|t| - 1] == Zeros(k) + s[..|s| - 1];
      ParseLeadingZeros(k, s[..|s| - 1]);
    }
  }

  lemma {:induction false} ParseZeros(k: nat)
    ensures ParseDecimal(Zeros(k)) == 0
  {
    if k > 0 {
      assert Zeros(k)[..k - 1] == Zeros(k - 1);
      ParseZeros(k - 1);
    }
  }

  /** Two digit strings of one length with the same value are equal. */
  lemma {:induction false} ParseInjective(s: string, t: string)
    requires AllDigits(s) && AllDigits(t) && |s| == |t|
    requires ParseDecimal(s) == ParseDecimal(t)
    ensures s == t
  {
    if s != [] {
      var n := |s|;
      var hs, ht := ParseDecimal(s[..n - 1]), ParseDecimal(t[..n - 1]);
      var ds, dt := DigitValue(s[n - 1]), DigitValue(t[n - 1]);
      assert hs * 10 + ds == ht * 10 + dt;
      assert ds == dt && hs == ht;
      ParseInjective(s[..n - 1], t[..n - 1]);
      assert s[n - 1] == t[n - 1];
      assert s == s[..n - 1] + [s[n - 1]];
      assert t == t[..n - 1] + [t[n - 1]];
    }
  }
}
