/**
 * The abstract value of a limb sequence. A BigInt keeps its magnitude as
 * limbs in base 10^9, most significant limb first; `Digit(s, p)` reads the
 * limb of significance p (0 = least significant) and is 0 outside the
 * sequence, as the class's `get` accessor is.
 */
module Limbs {

  /** One limb holds a value in [0, BASE). */
  const BASE: nat := 1_000_000_000

  /** Java's int and long ranges. */
  const INT_MAX: int := 0x7fff_ffff
  const LONG_MAX: int := 0x7fff_ffff_ffff_ffff

  newtype Int32 = x: int | -0x8000_0000 <= x < 0x8000_0000
  newtype Int64 = x: int | -0x8000_0000_0000_0000 <= x < 0x8000_0000_0000_0000

  function Pow(b: nat, e: nat): (r: nat)
    ensures b > 0 ==> r > 0
  {
    if e == 0 then 1 else b * Pow(b, e - 1)
  }

  lemma {:induction false} PowAdd(b: nat, e1: nat, e2: nat)
    ensures Pow(b, e1 + e2) == Pow(b, e1) * Pow(b, e2)
  {
    if e2 > 0 {
      PowAdd(b, e1, e2 - 1);
      calc {
        Pow(b, e1 + e2);
        b * Pow(b, e1 + e2 - 1);
        b * (Pow(b, e1) * Pow(b, e2 - 1));
        Pow(b, e1) * (b * Pow(b, e2 - 1));
        Pow(b, e1) * Pow(b, e2);
      }
    }
  }

  predicate IsLimb(x: int) {
    0 <= x < BASE
  }

  predicate AllLimbs(s: seq<int>) {
    forall k :: 0 <= k < |s| ==> IsLimb(s[k])
  }

  /** The limb of significance p; 0 for any p outside [0, |s|). */
  function Digit(s: seq<int>, p: int): int {
    if 0 <= p < |s| then s[|s| - 1 - p] else 0
  }

  /** The value of the n least significant limbs, zero-padded beyond |s|. */
  function Sum(s: seq<int>, n: nat): int {
    if n == 0 then 0 else Sum(s, n - 1) + Digit(s, n - 1) * Pow(BASE, n - 1)
  }

  /** The magnitude Σ limb·(10^9)^k that a limb sequence stands for. */
  function Value(s: seq<int>): int {
    Sum(s, |s|)
  }

  /** Sum only looks at the limbs of significance below n. */
  lemma {:induction false} SumAgree(s: seq<int>, t: seq<int>, n: nat)
    requires forall p :: 0 <= p < n ==> Digit(s, p) == Digit(t, p)
    ensures Sum(s, n) == Sum(t, n)
  {
    if n > 0 {
      SumAgree(s, t, n - 1);
    }
  }

  /** Reading past the top limb adds only zeros. */
  lemma {:induction false} SumBeyond(s: seq<int>, n: nat)
    requires n >= |s|
    ensures Sum(s, n) == Value(s)
  {
    if n > |s| {
      SumBeyond(s, n - 1);
    }
  }

  /** Prepending a limb adds it at the next significance. */
  lemma ValuePrepend(x: int, s: seq<int>)
    ensures Value([x] + s) == x * Pow(BASE, |s|) + Value(s)
  {
    var t := [x] + s;
    forall p | 0 <= p < |s|
      ensures Digit(t, p) == Digit(s, p)
    {
      var k := |s| - 1 - p;
      assert |t| - 1 - p == k + 1;
      assert t[k + 1] == s[k];
    }
    SumAgree(t, s, |s|);
    assert Digit(t, |s|) == x;
    assert Value(t) == Sum(t, |s|) + x * Pow(BASE, |s|);
  }

  /** Appending a limb shifts the whole value up by one limb. */
  lemma {:induction false} SumAppend(s: seq<int>, y: int, n: nat)
    ensures Sum(s + [y], n + 1) == Sum(s, n) * BASE + y
  {
    var t := s + [y];
    assert Digit(t, 0) == y;
    if n > 0 {
      SumAppend(s, y, n - 1);
      assert Digit(t, n) == Digit(s, n - 1);
      calc {
        Sum(t, n + 1);
        Sum(t, n) + Digit(t, n) * Pow(BASE, n);
        Sum(s, n - 1) * BASE + y + Digit(s, n - 1) * (BASE * Pow(BASE, n - 1));
        (Sum(s, n - 1) + Digit(s, n - 1) * Pow(BASE, n - 1)) * BASE + y;
        Sum(s, n) * BASE + y;
      }
    }
  }

  lemma ValueAppend(s: seq<int>, y: int)
    ensures Value(s + [y]) == Value(s) * BASE + y
  {
    SumAppend(s, y, |s|);
  }

  /** n limbs in range stand for a value in [0, BASE^n). */
  lemma {:induction false} SumBounds(s: seq<int>, n: nat)
    requires AllLimbs(s)
    ensures 0 <= Sum(s, n) < Pow(BASE, n)
  {
    if n > 0 {
      SumBounds(s, n - 1);
      var d, q := Digit(s, n - 1), Pow(BASE, n - 1);
      assert 0 <= d <= BASE - 1;
      MulLeft(q, d, BASE - 1);
    }
  }

  lemma ValueBounds(s: seq<int>)
    requires AllLimbs(s)
    ensures 0 <= Value(s) < Pow(BASE, |s|)
  {
    SumBounds(s, |s|);
  }

  /** Multiplying by a non-negative factor keeps the order. */
  lemma MulLeft(a: int, b: int, c: int)
    requires 0 <= a && 0 <= b <= c
    ensures 0 <= a * b <= a * c
  {
    assert a * c - a * b == a * (c - b);
  }

  lemma MulAtLeast(d: int, q: int)
    requires d >= 1 && q >= 0
    ensures d * q >= q
  {
  }
}
