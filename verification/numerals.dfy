/** Decimal numerals: Python's `int()` on a run of ASCII digits, `str(n)` and
    the `{n:04d}` format of a non-negative integer. */
module Numerals {

  predicate IsDigit(c: char) {
    '0' <= c <= '9'
  }

  predicate AllDigits(s: string) {
    forall i :: 0 <= i < |s| ==> IsDigit(s[i])
  }

  function DigitValue(c: char): nat
    requires IsDigit(c)
  {
    c as int - '0' as int
  }

  function DigitChar(d: nat): (c: char)
    requires d < 10
    ensures IsDigit(c) && DigitValue(c) == d
  {
    ('0' as int + d) as char
  }

  /** Digits up to a position, as a prefix. */
  lemma AllDigitsPrefix(s: string, n: nat)
    requires n <= |s|
    requires forall k :: 0 <= k < n ==> IsDigit(s[k])
    ensures AllDigits(s[..n])
  {
    assert forall k :: 0 <= k < n ==> s[..n][k] == s[k];
  }

  /** The number of digits from index `i` on, up to the first other
      character. */
  function DigitsFrom(s: string, i: nat): (n: nat)
    requires i <= |s|
    ensures i + n <= |s|
    decreases |s| - i
  {
    if i < |s| && IsDigit(s[i]) then 1 + DigitsFrom(s, i + 1) else 0
  }

  /** The run `DigitsFrom` counts is all digits and cannot be extended. */
  lemma {:induction false} DigitsFromSpan(s: string, i: nat)
    requires i <= |s|
    ensures var n := DigitsFrom(s, i);
      && (forall k :: i <= k < i + n ==> IsDigit(s[k]))
      && (i + n < |s| ==> !IsDigit(s[i + n]))
    decreases |s| - i
  {
    if i < |s| && IsDigit(s[i]) {
      DigitsFromSpan(s, i + 1);
    }
  }

  /** Length of the longest all-digit prefix. */
  function LeadingDigits(s: string): (n: nat)
    ensures n <= |s|
  {
    DigitsFrom(s, 0)
  }

  /** The leading digit run is all digits and cannot be extended. */
  lemma LeadingDigitsSpan(s: string)
    ensures var n := LeadingDigits(s);
      && (forall k :: 0 <= k < n ==> IsDigit(s[k]))
      && (n < |s| ==> !IsDigit(s[n]))
  {
    DigitsFromSpan(s, 0);
  }

  /** The leading digit run, as a prefix. */
  lemma LeadingDigitsPrefix(s: string)
    ensures AllDigits(s[..LeadingDigits(s)])
  {
    LeadingDigitsSpan(s);
    AllDigitsPrefix(s, LeadingDigits(s));
  }

  /** A run of digits ended by a non-digit, or by the end of the string, is
      the leading digit run. */
  lemma LeadingDigitsUnique(s: string, n: nat)
    requires n <= |s|
    requires forall k :: 0 <= k < n ==> IsDigit(s[k])
    requires n < |s| ==> !IsDigit(s[n])
    ensures LeadingDigits(s) == n
  {
    LeadingDigitsSpan(s);
  }

  function Pow10(k: nat): (p: nat)
    ensures p >= 1
  {
    if k == 0 then 1 else 10 * Pow10(k - 1)
  }

  /** Python's `int(s)` for a string of ASCII digits; leading zeros are allowed. */
  function DecimalValue(s: string): (v: nat)
    requires AllDigits(s)
    ensures v < Pow10(|s|)
  {
    if s == [] then 0
    else 10 * DecimalValue(s[..|s| - 1]) + DigitValue(s[|s| - 1])
  }

  /** Python's `str(n)` for a non-negative integer: the digits of `n` with no
      leading zero, reading back as `n`. */
  function Decimal(n: nat): (r: string)
    ensures |r| >= 1 && AllDigits(r)
    ensures r[0] == '0' ==> r == "0"
    ensures DecimalValue(r) == n
    decreases n
  {
    if n < 10 then [DigitChar(n)]
    else
      var r := Decimal(n / 10) + [DigitChar(n % 10)];
      assert r[..|r| - 1] == Decimal(n / 10);
      r
  }

  /** The value of a concatenation of digit strings. */
  lemma {:induction false} DecimalValueAppend(a: string, b: string)
    requires AllDigits(a) && AllDigits(b)
    ensures AllDigits(a + b)
    ensures DecimalValue(a + b) == DecimalValue(a) * Pow10(|b|) + DecimalValue(b)
    decreases |b|
  {
    if b == [] {
      assert a + b == a;
    } else {
      var b' := b[..|b| - 1];
      var d := DigitValue(b[|b| - 1]);
      assert (a + b)[..|a + b| - 1] == a + b';
      DecimalValueAppend(a, b');
      assert (a + b)[|a + b| - 1] == b[|b| - 1];
      assert DecimalValue(a + b) == 10 * DecimalValue(a + b') + d;
      assert DecimalValue(b) == 10 * DecimalValue(b') + d;
      ShiftDigit(DecimalValue(a), Pow10(|b'|), DecimalValue(b'), d);
    }
  }

  lemma ShiftDigit(x: nat, p: nat, y: nat, d: nat)
    ensures 10 * (x * p + y) + d == x * (10 * p) + (10 * y + d)
  {
  }

  function Zeros(k: nat): (z: string)
    ensures |z| == k && AllDigits(z)
    ensures forall i :: 0 <= i < k ==> z[i] == '0'
  {
    if k == 0 then "" else "0" + Zeros(k - 1)
  }

  lemma {:induction false} ZerosValue(k: nat)
    ensures DecimalValue(Zeros(k)) == 0
    decreases k
  {
    if k > 0 {
      assert Zeros(k) == Zeros(k - 1) + "0";
      assert Zeros(k)[..k - 1] == Zeros(k - 1);
      ZerosValue(k - 1);
    }
  }

  /** A numeral with `k` digits or fewer denotes a number below `10^k`, and
      `str(n)` is that short exactly for those numbers. */
  lemma {:induction false} DecimalLength(n: nat, k: nat)
    requires k >= 1
    ensures |Decimal(n)| <= k <==> n < Pow10(k)
    decreases n
  {
    if n >= 10 {
      if k == 1 {
        assert |Decimal(n)| >= 2;
      } else {
        DecimalLength(n / 10, k - 1);
      }
    }
  }

  /** Python's `f"{n:04d}"` for a non-negative integer: left-padded with zeros
      to at least four digits and never truncated, so it reads back as `n`. */
  function ZeroPad4(n: nat): (r: string)
    ensures AllDigits(r)
    ensures DecimalValue(r) == n
    ensures |r| == if |Decimal(n)| < 4 then 4 else |Decimal(n)|
    ensures |r| > 4 ==> r[0] != '0'
  {
    var d := Decimal(n);
    if |d| < 4 then
      PadValue(4 - |d|, d);
      Zeros(4 - |d|) + d
    else
      d
  }

  /** Leading zeros do not change the value of a numeral. */
  lemma PadValue(k: nat, d: string)
    requires AllDigits(d)
    ensures AllDigits(Zeros(k) + d) && DecimalValue(Zeros(k) + d) == DecimalValue(d)
  {
    DecimalValueAppend(Zeros(k), d);
    ZerosValue(k);
  }

  /** Below 10000 the padded numeral is exactly four digits long. */
  lemma ZeroPad4Width(n: nat)
    ensures |ZeroPad4(n)| == 4 <==> n < 10000
    ensures n >= 10000 ==> ZeroPad4(n) == Decimal(n)
  {
    DecimalLength(n, 4);
    assert Pow10(4) == 10000;
  }

  lemma ZeroPad4Example()
    ensures ZeroPad4(42) == "0042"
  {
    assert Decimal(4) == "4";
    assert Decimal(42) == "42";
  }
}
