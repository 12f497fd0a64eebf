/**
 * Decimal digit strings: the value Integer.parseInt gives a string of ASCII
 * digits, the string Integer.toString gives a non-negative int, zero padding
 * to a fixed width, and the digit count `(int)Math.log10(i) + 1`.
 */
module Decimal {
  import opened Limbs

  predicate IsDigit(c: char) {
    '0' <= c <= '9'
  }

  predicate AllDigits(s: string) {
    forall k :: 0 <= k < |s| ==> IsDigit(s[k])
  }

  function DigitValue(c: char): int {
    c as int - '0' as int
  }

  function DigitChar(d: int): char
    requires 0 <= d < 10
  {
    ('0' as int + d) as char
  }

  /** The value of a digit string, most significant digit first (Integer.parseInt on digits). */
  function Dec(s: string): (r: int)
    ensures AllDigits(s) ==> 0 <= r < Pow(10, |s|)
  {
    assert AllDigits(s) && s != [] ==> AllDigits(s[..|s| - 1]);
    if s == [] then 0 else Dec(s[..|s| - 1]) * 10 + DigitValue(s[|s| - 1])
  }

  /** Concatenating digit strings shifts the left part by the length of the right part. */
  lemma {:induction false} DecAppend(x: string, y: string)
    ensures Dec(x + y) == Dec(x) * Pow(10, |y|) + Dec(y)
  {
    if y == [] {
      assert x + y == x;
    } else {
      var y' := y[..|y| - 1];
      assert (x + y)[..|x + y| - 1] == x + y';
      DecAppend(x, y');
      var a, p, b, d := Dec(x), Pow(10, |y'|), Dec(y'), DigitValue(y[|y| - 1]);
      assert Dec(x + y) == Dec(x + y') * 10 + d;
      assert Dec(y) == b * 10 + d;
      assert Pow(10, |y|) == 10 * p;
      MulShift(a, p, b, d);
    }
  }

  lemma MulShift(a: int, p: int, b: int, d: int)
    ensures (a * p + b) * 10 + d == a * (10 * p) + (b * 10 + d)
  {
  }

  /** k zero characters (none when k <= 0), as the padding loops append them. */
  function Zeros(k: int): (z: string)
    ensures |z| == if k > 0 then k else 0
    ensures forall i :: 0 <= i < |z| ==> z[i] == '0'
  {
    seq(if k > 0 then k else 0, _ => '0')
  }

  lemma {:induction false} DecZeros(k: nat)
    ensures Dec(Zeros(k)) == 0
  {
    if k > 0 {
      assert Zeros(k)[..k - 1] == Zeros(k - 1);
      DecZeros(k - 1);
    }
  }

  /** Leading zeros do not change the value. */
  lemma DecZerosPrefix(k: int, s: string)
    ensures Dec(Zeros(k) + s) == Dec(s)
  {
    DecAppend(Zeros(k), s);
    DecZeros(if k > 0 then k else 0);
  }

  /** Integer.toString of a non-negative int: its digits, most significant first, "0" for zero. */
  function DecimalString(n: nat): (r: string)
    ensures 1 <= |r| && AllDigits(r)
  {
    if n < 10 then [DigitChar(n)] else DecimalString(n / 10) + [DigitChar(n % 10)]
  }

  lemma {:induction false} DecOfDecimalString(n: nat)
    ensures Dec(DecimalString(n)) == n
  {
    var r := DecimalString(n);
    if n < 10 {
      assert r[..0] == [];
    } else {
      assert r[..|r| - 1] == DecimalString(n / 10);
      DecOfDecimalString(n / 10);
    }
  }

  /** A value below 10^k has at most k digits. */
  lemma {:induction false} DecimalStringLength(n: nat, k: nat)
    requires 1 <= k && n < Pow(10, k)
    ensures |DecimalString(n)| <= k
  {
    if n >= 10 {
      assert n / 10 < Pow(10, k - 1);
      DecimalStringLength(n / 10, k - 1);
    }
  }

  /** A limb renders in at most nine digits. */
  lemma LimbDigits(x: int)
    requires IsLimb(x)
    ensures |DecimalString(x)| <= 9
  {
    PowTenNine();
    DecimalStringLength(x, 9);
  }

  lemma PowTenNine()
    ensures Pow(10, 9) == BASE
  {
    assert Pow(10, 3) == 1000;
    PowAdd(10, 3, 3);
    PowAdd(10, 6, 3);
  }

  /** The value n written in a field of k characters, left-padded with '0'. */
  function Padded(n: nat, k: int): string {
    Zeros(k - |DecimalString(n)|) + DecimalString(n)
  }

  lemma Zeros1(k: int)
    requires k >= 1
    ensures Zeros(k - 1) + "0" == Zeros(k)
  {
  }

  /** Padding a digit string's value back to the string's width reproduces the string. */
  lemma {:induction false} PaddedOfDec(w: string)
    requires AllDigits(w) && |w| >= 1
    ensures Padded(Dec(w), |w|) == w
  {
    var w0, c := w[..|w| - 1], w[|w| - 1];
    assert w == w0 + [c];
    DigitsPrefix(w);
    if |w| == 1 {
      PaddedOfDigit(c);
    } else {
      PaddedOfDec(w0);
      PaddedStep(w0, c);
    }
  }

  lemma DigitsPrefix(w: string)
    requires AllDigits(w) && |w| >= 1
    ensures AllDigits(w[..|w| - 1])
  {
  }

  lemma PaddedOfDigit(c: char)
    requires IsDigit(c)
    ensures Padded(Dec([c]), 1) == [c]
  {
    assert [c][..0] == [];
    assert DigitChar(DigitValue(c)) == c;
  }

  /** One more digit on the right of a string that padding reproduces. */
  lemma PaddedStep(w0: string, c: char)
    requires AllDigits(w0) && |w0| >= 1 && IsDigit(c)
    requires Padded(Dec(w0), |w0|) == w0
    ensures Padded(Dec(w0 + [c]), |w0| + 1) == w0 + [c]
  {
    DecSnoc(w0, c);
    if Dec(w0) == 0 {
      PaddedZeroStep(w0, c);
    } else {
      PaddedWideStep(Dec(w0), DigitValue(c), w0, c);
    }
  }

  lemma DecSnoc(w0: string, c: char)
    ensures Dec(w0 + [c]) == Dec(w0) * 10 + DigitValue(c)
  {
    var w := w0 + [c];
    assert w[..|w| - 1] == w0;
  }

  lemma PaddedWideStep(m: nat, d: int, w0: string, c: char)
    requires m >= 1 && 0 <= d < 10 && DigitChar(d) == c
    requires Padded(m, |w0|) == w0
    ensures Padded(m * 10 + d, |w0| + 1) == w0 + [c]
  {
    PaddedSnoc(m, d, |w0|);
  }

  /** Padding a positive value with one more digit appended pads the value and appends the digit. */
  lemma PaddedSnoc(m: nat, d: int, k: int)
    requires m >= 1 && 0 <= d < 10
    ensures Padded(m * 10 + d, k + 1) == Padded(m, k) + [DigitChar(d)]
  {
    var r := DecimalString(m);
    DecimalStringSnoc(m, d);
    var z := Zeros(k - |r|);
    assert Padded(m * 10 + d, k + 1) == z + (r + [DigitChar(d)]);
    assert z + (r + [DigitChar(d)]) == (z + r) + [DigitChar(d)];
  }

  /** Appending the digit d to a positive value appends its character to the rendering. */
  lemma DecimalStringSnoc(m: nat, d: int)
    requires m >= 1 && 0 <= d < 10
    ensures DecimalString(m * 10 + d) == DecimalString(m) + [DigitChar(d)]
  {
    var n := m * 10 + d;
    DivTen(m, d);
    assert n >= 10;
  }

  lemma DivTen(m: int, d: int)
    requires 0 <= d < 10
    ensures (m * 10 + d) / 10 == m && (m * 10 + d) % 10 == d
  {
  }

  lemma PaddedZeroStep(w0: string, c: char)
    requires |w0| >= 1 && IsDigit(c) && Dec(w0) == 0
    requires Padded(0, |w0|) == w0
    requires Dec(w0 + [c]) == DigitValue(c)
    ensures Padded(Dec(w0 + [c]), |w0| + 1) == w0 + [c]
  {
    var d := DigitValue(c);
    assert DigitChar(d) == c;
    assert DecimalString(d) == [c];
    PaddedZero(|w0|);
  }

  /** Zero padded to k digits is k zeros. */
  lemma PaddedZero(k: int)
    requires k >= 1
    ensures Padded(0, k) == Zeros(k)
  {
    assert DecimalString(0) == "0";
    Zeros1(k);
  }

  /** A digit string with no superfluous leading zero is the rendering of its value. */
  lemma CanonicalOfDec(w: string)
    requires AllDigits(w) && |w| >= 1
    requires |w| == 1 || w[0] != '0'
    ensures DecimalString(Dec(w)) == w
  {
    PaddedOfDec(w);
    var r := DecimalString(Dec(w));
    var z := Zeros(|w| - |r|);
    assert z + r == w;
    NoLeadingZeros(z, r, w);
    assert w == r;
  }

  /** Zeros in front of a non-empty string leave no leading zero only when there are none. */
  lemma NoLeadingZeros(z: string, r: string, w: string)
    requires z + r == w && |r| >= 1 && (|w| == 1 || w[0] != '0')
    requires forall i :: 0 <= i < |z| ==> z[i] == '0'
    ensures z == []
  {
  }

  /** What `(int)Math.log10(0) + 1` evaluates to: (int) of -Infinity is Integer.MIN_VALUE. */
  const LOG10_ZERO_DIGITS: int := -0x8000_0000 + 1

  /** `(int)Math.log10(i) + 1` for 0 <= i < 10^9: the digit count of i, or the value above for 0. */
  function Log10Digits(i: int): int
    requires 0 <= i
  {
    if i == 0 then LOG10_ZERO_DIGITS else |DecimalString(i)|
  }

  /** For i >= 1 the count d brackets i as 10^(d-1) <= i < 10^d, which is floor(log10 i) + 1. */
  lemma {:induction false} Log10DigitsBracket(i: int)
    requires 1 <= i
    ensures 1 <= Log10Digits(i)
    ensures Pow(10, Log10Digits(i) - 1) <= i < Pow(10, Log10Digits(i))
  {
    if i >= 10 {
      Log10DigitsBracket(i / 10);
      var d := |DecimalString(i / 10)|;
      assert |DecimalString(i)| == d + 1;
      assert Pow(10, d) == 10 * Pow(10, d - 1);
    }
  }
}
