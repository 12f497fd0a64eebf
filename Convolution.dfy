/**
 * The schoolbook product that multiply computes. Position p of the product,
 * before carries, is the sum of the limb products whose significances add up
 * to p; weighting position p by (10^9)^p and summing gives the product of the
 * two magnitudes. Also the bounds that keep multiply's 64-bit accumulator and
 * carry in range.
 */
module Convolution {
  import opened Limbs

  /** The largest product of two limbs, (10^9 - 1)^2. */
  const MAX_PRODUCT: int := (BASE - 1) * (BASE - 1)

  /** multiply folds the accumulator once it reaches 8·10^18. */
  const FOLD_THRESHOLD: int := 8_000_000_000_000_000_000

  /**
   * The first k terms of position p: Σ_{b<k} t_{p-b}·o_b, where x_q is the
   * limb of significance q (0 outside the sequence). The inner loop of
   * multiply adds the term b = j - 1 on its round j.
   */
  function PartialConv(t: seq<int>, o: seq<int>, p: int, k: nat): int {
    if k == 0 then 0 else PartialConv(t, o, p, k - 1) + Digit(t, p - (k - 1)) * Digit(o, k - 1)
  }

  /** Position p of the product before carries: all p + 1 terms. */
  function Conv(t: seq<int>, o: seq<int>, p: nat): int {
    PartialConv(t, o, p, p + 1)
  }

  /** The n least significant positions, weighted: Σ_{q<n} Conv(q)·(10^9)^q. */
  function ConvSum(t: seq<int>, o: seq<int>, n: nat): int {
    if n == 0 then 0 else ConvSum(t, o, n - 1) + Conv(t, o, n - 1) * Pow(BASE, n - 1)
  }

  /** Against an empty factor every position is zero. */
  lemma {:induction false} PartialConvEmpty(t: seq<int>, p: int, k: nat)
    ensures PartialConv(t, [], p, k) == 0
  {
    if k > 0 {
      PartialConvEmpty(t, p, k - 1);
    }
  }

  lemma {:induction false} ConvSumEmpty(t: seq<int>, n: nat)
    ensures ConvSum(t, [], n) == 0
  {
    if n > 0 {
      ConvSumEmpty(t, n - 1);
      PartialConvEmpty(t, n - 1, n);
    }
  }

  /**
   * Splitting the least significant limb o0 off the second factor: its term
   * comes first, and the other terms are those of position p - 1 against the rest.
   */
  lemma {:induction false} PartialConvShift(t: seq<int>, o': seq<int>, o0: int, p: int, k: nat)
    ensures PartialConv(t, o' + [o0], p, k + 1) == Digit(t, p) * o0 + PartialConv(t, o', p - 1, k)
  {
    var o := o' + [o0];
    assert Digit(o, 0) == o0;
    if k > 0 {
      PartialConvShift(t, o', o0, p, k - 1);
      assert Digit(o, k) == Digit(o', k - 1);
      assert p - k == (p - 1) - (k - 1);
    }
  }

  lemma ConvShift(t: seq<int>, o': seq<int>, o0: int, p: nat)
    ensures Conv(t, o' + [o0], p + 1) == Digit(t, p + 1) * o0 + Conv(t, o', p)
  {
    PartialConvShift(t, o', o0, p + 1, p + 1);
  }

  /** ConvSum against o' + [o0] is o0 times t plus one limb's shift of ConvSum against o'. */
  lemma {:induction false} ConvSumShift(t: seq<int>, o': seq<int>, o0: int, n: nat)
    ensures ConvSum(t, o' + [o0], n + 1) == o0 * Sum(t, n + 1) + BASE * ConvSum(t, o', n)
  {
    var o := o' + [o0];
    if n == 0 {
      PartialConvShift(t, o', o0, 0, 0);
      assert Conv(t, o, 0) == Digit(t, 0) * o0;
    } else {
      ConvSumShift(t, o', o0, n - 1);
      ConvShift(t, o', o0, n - 1);
      var P := Pow(BASE, n - 1);
      var a, c := Digit(t, n), Conv(t, o', n - 1);
      assert Pow(BASE, n) == BASE * P;
      calc {
        ConvSum(t, o, n + 1);
        ConvSum(t, o, n) + Conv(t, o, n) * Pow(BASE, n);
        o0 * Sum(t, n) + BASE * ConvSum(t, o', n - 1) + (a * o0 + c) * (BASE * P);
        { MulRearrange(o0, Sum(t, n), ConvSum(t, o', n - 1), a, c, P); }
        o0 * (Sum(t, n) + a * (BASE * P)) + BASE * (ConvSum(t, o', n - 1) + c * P);
        o0 * Sum(t, n + 1) + BASE * ConvSum(t, o', n);
      }
    }
  }

  lemma MulRearrange(o0: int, s: int, cs: int, a: int, c: int, P: int)
    ensures o0 * s + BASE * cs + (a * o0 + c) * (BASE * P)
         == o0 * (s + a * (BASE * P)) + BASE * (cs + c * P)
  {
  }

  /**
   * The schoolbook identity: once n covers every position a product term can
   * reach (|t| + |o| - 1 of them), the weighted positions add up to the
   * product of the two values.
   */
  lemma {:induction false} ConvSumProduct(t: seq<int>, o: seq<int>, n: nat)
    requires n + 1 >= |t| + |o|
    ensures ConvSum(t, o, n) == Value(t) * Value(o)
    decreases |o|
  {
    if o == [] {
      ConvSumEmpty(t, n);
    } else {
      var o', o0 := o[..|o| - 1], o[|o| - 1];
      assert o == o' + [o0];
      ValueAppend(o', o0);
      if n == 0 {
        assert t == [];
      } else {
        ConvSumShift(t, o', o0, n - 1);
        ConvSumProduct(t, o', n - 1);
        SumBeyond(t, n);
        ProductShift(Value(t), Value(o'), o0);
      }
    }
  }

  lemma ProductShift(vt: int, vo: int, o0: int)
    ensures o0 * vt + BASE * (vt * vo) == vt * (vo * BASE + o0)
  {
  }

  /** Every limb product lies in [0, MAX_PRODUCT]. */
  lemma LimbProduct(x: int, y: int)
    requires IsLimb(x) && IsLimb(y)
    ensures 0 <= x * y <= MAX_PRODUCT
  {
    MulLeft(x, y, BASE - 1);
    MulLeft(BASE - 1, x, BASE - 1);
  }

  lemma DigitIsLimb(s: seq<int>, p: int)
    requires AllLimbs(s)
    ensures IsLimb(Digit(s, p))
  {
  }

  /** Only the |o| terms with b < |o| can be non-zero, so no position exceeds |o| products. */
  lemma {:induction false} PartialConvBound(t: seq<int>, o: seq<int>, p: int, k: nat)
    requires AllLimbs(t) && AllLimbs(o)
    ensures 0 <= PartialConv(t, o, p, k) <= (if k < |o| then k else |o|) * MAX_PRODUCT
  {
    if k > 0 {
      PartialConvBound(t, o, p, k - 1);
      DigitIsLimb(t, p - (k - 1));
      DigitIsLimb(o, k - 1);
      LimbProduct(Digit(t, p - (k - 1)), Digit(o, k - 1));
    }
  }

  /**
   * The carry multiply passes from position to position never exceeds
   * |o|·(10^9 - 1): if it held for the incoming carry c0, it holds for the
   * carry out of a position that adds at most |o| products to c0.
   */
  lemma CarryBound(m: nat, c0: int, s: int, carry: int, limb: int)
    requires 0 <= c0 <= m * (BASE - 1) && 0 <= s <= m * MAX_PRODUCT
    requires 0 <= limb && carry * BASE + limb == c0 + s
    ensures carry <= m * (BASE - 1)
  {
    assert m * (BASE - 1) + m * MAX_PRODUCT == m * (BASE - 1) * BASE;
    assert carry * BASE <= m * (BASE - 1) * BASE;
  }

  /**
   * The 64-bit safety of the accumulation: below the fold threshold, adding
   * one limb product stays under 9·10^18, which is below 2^63 - 1.
   */
  lemma AccumulatorBound(acc: int, x: int, y: int)
    requires 0 <= acc < FOLD_THRESHOLD && IsLimb(x) && IsLimb(y)
    ensures 0 <= acc + x * y < 9_000_000_000_000_000_000 <= LONG_MAX
  {
    LimbProduct(x, y);
  }

  /** One more limb of a value: the running sum absorbs the digit and the carry moves up a limb. */
  lemma CarryStep(lhs: int, rhs: int, c: int, c': int, s: int, d: int, P: int)
    requires lhs + c * P == rhs
    requires s + c' * BASE == d + c
    ensures lhs + s * P + c' * (BASE * P) == rhs + d * P
  {
    calc {
      lhs + s * P + c' * (BASE * P);
      lhs + (s + c' * BASE) * P;
      lhs + (d + c) * P;
      lhs + c * P + d * P;
    }
  }

  /**
   * How many limbs multiply's last steps prepend for a carry c: one per
   * base-10^9 digit of c, none for c = 0.
   */
  function CarryLimbs(c: int): nat
    decreases c
  {
    if c <= 0 then 0 else 1 + CarryLimbs(c / BASE)
  }

  /** A total of v + c·P with 0 <= v < P leaves c when divided by P. */
  lemma SplitQuotient(v: int, c: int, P: int)
    requires 0 <= v < P && 0 <= c
    ensures (v + c * P) / P == c
  {
    var t := v + c * P;
    var q, r := t / P, t % P;
    assert q * P + r == t;
    assert (q - c) * P == v - r;
    if q > c {
      MulAtLeast(q - c, P);
    } else if q < c {
      MulAtLeast(c - q, P);
    }
  }
}
