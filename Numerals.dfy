/**
 * The decimal numerals BigInt reads and writes: which strings the String
 * constructor accepts, the limbs it builds from one (nine-digit groups peeled
 * off the right end, the leftover one to nine digits first), and the strings
 * toString and printDigits produce from a sign and a limb sequence.
 */
module Numerals {
  import opened Limbs
  import opened Decimal

  /** DIGITS_IN_ONE_BILLION: the decimal width of every limb but the leading one. */
  const GROUP: nat := 9

  /** What StringIsInt accepts: '-' or a digit first, a digit everywhere after. */
  predicate IsNumeral(s: string) {
    && |s| >= 1
    && (s[0] == '-' || IsDigit(s[0]))
    && forall k :: 1 <= k < |s| ==> IsDigit(s[k])
  }

  /** The digits of a numeral, its '-' removed. */
  function DigitsOf(s: string): (d: string)
    requires IsNumeral(s)
    ensures AllDigits(d)
    ensures |d| == if s[0] == '-' then |s| - 1 else |s|
  {
    if s[0] == '-' then s[1..] else s
  }

  /** The limbs the String constructor builds from a digit string, most significant first. */
  function Chunks(d: string): seq<int>
    decreases |d|
  {
    if |d| == 0 then []
    else if |d| <= GROUP then [Dec(d)]
    else Chunks(d[..|d| - GROUP]) + [Dec(d[|d| - GROUP..])]
  }

  /** The digit count the String constructor stores as firstComplete. */
  function LeadingLength(d: string): (n: int)
    ensures |d| == 0 ==> n == 0
    ensures |d| > 0 ==> 1 <= n <= GROUP && n <= |d|
  {
    if |d| == 0 then 0 else (|d| - 1) % GROUP + 1
  }

  /** A whole number of trailing groups splits off as their own limbs. */
  lemma {:induction false} ChunksSplit(x: string, y: string)
    requires |y| % GROUP == 0
    ensures Chunks(x + y) == Chunks(x) + Chunks(y)
    decreases |y|
  {
    if y == [] {
      assert x + y == x;
    } else if x == [] {
      assert x + y == y;
    } else {
      var y' := y[..|y| - GROUP];
      var w := y[|y| - GROUP..];
      assert (x + y)[..|x + y| - GROUP] == x + y';
      assert (x + y)[|x + y| - GROUP..] == w;
      ChunksSplit(x, y');
      if |y| == GROUP {
        assert y' == [];
        assert y == w;
      }
    }
  }

  /** Parsing gives ceil(d/9) limbs in range whose base-10^9 value is the numeral's value. */
  lemma {:induction false} ChunksValue(d: string)
    requires AllDigits(d)
    ensures AllLimbs(Chunks(d))
    ensures |Chunks(d)| == (|d| + GROUP - 1) / GROUP
    ensures Value(Chunks(d)) == Dec(d)
    decreases |d|
  {
    PowTenNine();
    if |d| == 0 {
    } else if |d| <= GROUP {
      assert Pow(10, |d|) <= Pow(10, GROUP) by { PowMono(|d|, GROUP); }
      ValuePrepend(Dec(d), []);
      assert [Dec(d)] + [] == [Dec(d)];
    } else {
      var d', w := d[..|d| - GROUP], d[|d| - GROUP..];
      assert AllDigits(d') by {
        forall k | 0 <= k < |d'| ensures IsDigit(d'[k]) { assert d'[k] == d[k]; }
      }
      assert AllDigits(w) by {
        forall k | 0 <= k < |w| ensures IsDigit(w[k]) { assert w[k] == d[|d| - GROUP + k]; }
      }
      ChunksValue(d');
      assert d == d' + w;
      DecAppend(d', w);
      ValueAppend(Chunks(d'), Dec(w));
    }
  }

  lemma {:induction false} PowMono(e1: nat, e2: nat)
    requires e1 <= e2
    ensures Pow(10, e1) <= Pow(10, e2)
  {
    if e1 < e2 {
      PowMono(e1, e2 - 1);
    }
  }

  /** The limbs of a parsed numeral, with its leading group split off. */
  lemma LeadingSplit(d: string)
    requires AllDigits(d) && |d| >= 1
    ensures Chunks(d) == [Dec(d[..LeadingLength(d)])] + Chunks(d[LeadingLength(d)..])
    ensures |d[LeadingLength(d)..]| % GROUP == 0
  {
    var n := LeadingLength(d);
    var g, rest := d[..n], d[n..];
    assert d == g + rest;
    LeadingRemainder(|d|);
    ChunksSplit(g, rest);
    assert Chunks(g) == [Dec(g)];
  }

  lemma LeadingRemainder(m: int)
    requires m >= 1
    ensures (m - ((m - 1) % GROUP + 1)) % GROUP == 0
  {
  }

  /** A limb written as exactly nine digits (toString's inner padding loop). */
  function Pad9(x: int): string
    requires IsLimb(x)
  {
    Padded(x, GROUP)
  }

  /** The non-leading limbs rendered one after the other. */
  function PaddedLimbs(s: seq<int>): string
    requires AllLimbs(s)
  {
    if s == [] then [] else PaddedLimbs(s[..|s| - 1]) + Pad9(s[|s| - 1])
  }

  /** The unsigned rendering: the leading limb as Integer.toString gives it, then nine digits per limb. */
  function Digits(s: seq<int>): string
    requires AllLimbs(s)
  {
    if s == [] then "0" else DecimalString(s[0]) + PaddedLimbs(s[1..])
  }

  /** What toString returns for a sign and a limb sequence. */
  function Render(sign: bool, s: seq<int>): string
    requires AllLimbs(s)
  {
    if s == [] then "0" else (if sign then "" else "-") + Digits(s)
  }

  /** What printDigits(n) returns when it does not throw. */
  function FixedWidth(sign: bool, s: seq<int>, n: int): string
    requires AllLimbs(s)
  {
    [if sign then ' ' else '-'] + Zeros(n - |Digits(s)|) + Digits(s)
  }

  lemma Pad9Digits(x: int)
    requires IsLimb(x)
    ensures |Pad9(x)| == GROUP && AllDigits(Pad9(x))
    ensures Dec(Pad9(x)) == x
    ensures Chunks(Pad9(x)) == [x]
  {
    LimbDigits(x);
    DecZerosPrefix(GROUP - |DecimalString(x)|, DecimalString(x));
    DecOfDecimalString(x);
  }

  lemma {:induction false} PaddedLimbsProps(s: seq<int>)
    requires AllLimbs(s)
    ensures |PaddedLimbs(s)| == GROUP * |s| && AllDigits(PaddedLimbs(s))
    ensures Dec(PaddedLimbs(s)) == Value(s)
    ensures Chunks(PaddedLimbs(s)) == s
  {
    if s != [] {
      var s', x := s[..|s| - 1], s[|s| - 1];
      assert s == s' + [x];
      PaddedLimbsProps(s');
      Pad9Digits(x);
      var p', w := PaddedLimbs(s'), Pad9(x);
      PowTenNine();
      DecAppend(p', w);
      ValueAppend(s', x);
      ChunksSplit(p', w);
    }
  }

  /** toString's digits have 9·(size-1) + (digits of the leading limb) characters and denote the magnitude. */
  lemma DigitsProps(s: seq<int>)
    requires AllLimbs(s) && |s| >= 1
    ensures AllDigits(Digits(s))
    ensures |Digits(s)| == GROUP * (|s| - 1) + |DecimalString(s[0])|
    ensures Dec(Digits(s)) == Value(s)
    ensures Chunks(Digits(s)) == s
  {
    DigitsValue(s);
    DigitsChunks(s);
  }

  lemma DigitsValue(s: seq<int>)
    requires AllLimbs(s) && |s| >= 1
    ensures AllDigits(Digits(s))
    ensures |Digits(s)| == GROUP * (|s| - 1) + |DecimalString(s[0])|
    ensures Dec(Digits(s)) == Value(s)
  {
    var first, rest := DecimalString(s[0]), PaddedLimbs(s[1..]);
    PaddedLimbsProps(s[1..]);
    DecAppend(first, rest);
    DecOfDecimalString(s[0]);
    ValuePrepend(s[0], s[1..]);
    PowNine(|s| - 1);
    calc {
      Dec(Digits(s));
      Dec(first) * Pow(10, |rest|) + Dec(rest);
      s[0] * Pow(BASE, |s| - 1) + Value(s[1..]);
      Value([s[0]] + s[1..]);
      { assert [s[0]] + s[1..] == s; }
      Value(s);
    }
  }

  /** Re-parsing the unsigned rendering of a limb sequence gives back exactly that sequence. */
  lemma DigitsChunks(s: seq<int>)
    requires AllLimbs(s) && |s| >= 1
    ensures Chunks(Digits(s)) == s
  {
    var first, rest := DecimalString(s[0]), PaddedLimbs(s[1..]);
    PaddedLimbsProps(s[1..]);
    MultipleOfGroup(|s| - 1);
    ChunksSplit(first, rest);
    LeadingChunk(s[0]);
    calc {
      Chunks(Digits(s));
      Chunks(first + rest);
      [s[0]] + s[1..];
      s;
    }
  }

  /** A leading limb rendered by Integer.toString parses back as one limb. */
  lemma LeadingChunk(x: int)
    requires IsLimb(x)
    ensures Chunks(DecimalString(x)) == [x]
  {
    LimbDigits(x);
    DecOfDecimalString(x);
  }

  lemma MultipleOfGroup(groups: nat)
    ensures (GROUP * groups) % GROUP == 0
  {
  }

  lemma {:induction false} PowNine(k: nat)
    ensures Pow(10, GROUP * k) == Pow(BASE, k)
  {
    if k > 0 {
      PowNine(k - 1);
      PowAdd(10, GROUP * (k - 1), GROUP);
      PowTenNine();
    }
  }

  lemma ChunksLast(r: string)
    requires |r| >= GROUP
    ensures Chunks(r) == Chunks(r[..|r| - GROUP]) + [Dec(r[|r| - GROUP..])]
  {
    if |r| == GROUP {
      assert r[..0] == [] && r[0..] == r;
    }
  }

  lemma PaddedLimbsLast(c: seq<int>, x: int)
    requires AllLimbs(c) && IsLimb(x)
    ensures AllLimbs(c + [x])
    ensures PaddedLimbs(c + [x]) == PaddedLimbs(c) + Pad9(x)
  {
    assert (c + [x])[..|c|] == c;
  }

  /** Nine-digit groups read back as limbs and rendered again give the same digits. */
  lemma {:induction false} PaddedLimbsOfChunks(r: string)
    requires AllDigits(r) && |r| % GROUP == 0
    ensures AllLimbs(Chunks(r))
    ensures PaddedLimbs(Chunks(r)) == r
    decreases |r|
  {
    if r != [] {
      var r', w := r[..|r| - GROUP], r[|r| - GROUP..];
      assert AllDigits(r') by {
        forall k | 0 <= k < |r'| ensures IsDigit(r'[k]) { assert r'[k] == r[k]; }
      }
      assert AllDigits(w) by {
        forall k | 0 <= k < |w| ensures IsDigit(w[k]) { assert w[k] == r[|r| - GROUP + k]; }
      }
      PaddedLimbsOfChunks(r');
      ChunksLast(r);
      PowTenNine();
      assert IsLimb(Dec(w));
      PaddedLimbsLast(Chunks(r'), Dec(w));
      PaddedOfDec(w);
      assert r == r' + w;
    }
  }

  /** A digit string without superfluous leading zeros is what toString renders from its limbs. */
  lemma CanonicalRoundTrip(d: string)
    requires AllDigits(d) && |d| >= 1
    requires |d| == 1 || d[0] != '0'
    ensures AllLimbs(Chunks(d))
    ensures Digits(Chunks(d)) == d
  {
    LeadingSplit(d);
    LeadingPieces(d);
    var n := LeadingLength(d);
    CanonicalParts(d[..n], d[n..]);
  }

  /** The leading group and the rest of a canonical digit string, each a run of digits. */
  lemma LeadingPieces(d: string)
    requires AllDigits(d) && |d| >= 1
    requires |d| == 1 || d[0] != '0'
    ensures var n := LeadingLength(d);
      && AllDigits(d[..n]) && AllDigits(d[n..]) && d == d[..n] + d[n..]
      && (n == 1 || d[..n][0] != '0')
  {
    var n := LeadingLength(d);
    AllDigitsSlice(d, 0, n);
    AllDigitsSlice(d, n, |d|);
    assert n >= 2 ==> d[..n][0] == d[0];
  }

  /** A canonical leading group followed by whole nine-digit groups renders back to itself. */
  lemma CanonicalParts(g: string, rest: string)
    requires AllDigits(g) && 1 <= |g| <= GROUP && (|g| == 1 || g[0] != '0')
    requires AllDigits(rest) && |rest| % GROUP == 0
    ensures AllLimbs([Dec(g)] + Chunks(rest))
    ensures Digits([Dec(g)] + Chunks(rest)) == g + rest
  {
    CanonicalOfDec(g);
    PaddedLimbsOfChunks(rest);
    PowTenNine();
    PowMono(|g|, GROUP);
    DigitsCons(Dec(g), Chunks(rest));
  }

  /** The unsigned rendering splits into the leading limb and the padded others. */
  lemma DigitsCons(x: int, rest: seq<int>)
    requires IsLimb(x) && AllLimbs(rest)
    ensures AllLimbs([x] + rest)
    ensures Digits([x] + rest) == DecimalString(x) + PaddedLimbs(rest)
  {
    var c := [x] + rest;
    assert c[0] == x && c[1..] == rest;
  }

  lemma AllDigitsSlice(d: string, i: int, j: int)
    requires AllDigits(d) && 0 <= i <= j <= |d|
    ensures AllDigits(d[i..j])
  {
    forall k | 0 <= k < j - i ensures IsDigit(d[i..j][k]) {
      assert d[i..j][k] == d[i + k];
    }
  }

  /** The sign-aware form: parsing a canonical numeral and calling toString returns it unchanged. */
  lemma ParseRender(num: string)
    requires IsNumeral(num)
    requires var d := DigitsOf(num); |d| >= 1 && (|d| == 1 || d[0] != '0')
    ensures AllLimbs(Chunks(DigitsOf(num)))
    ensures Render(num[0] != '-', Chunks(DigitsOf(num))) == num
  {
    var d := DigitsOf(num);
    CanonicalRoundTrip(d);
    ChunksValue(d);
    if num[0] == '-' {
      assert num == "-" + d;
    }
  }

  /** For a canonical numeral the stored leading count matches the leading limb, so getNumDigits is |d|. */
  lemma LeadingLengthCanonical(d: string)
    requires AllDigits(d) && |d| >= 1
    requires |d| == 1 || d[0] != '0'
    ensures AllLimbs(Chunks(d)) && |Chunks(d)| >= 1
    ensures LeadingLength(d) == |DecimalString(Chunks(d)[0])|
    ensures GROUP * (|Chunks(d)| - 1) + LeadingLength(d) == |d|
  {
    ChunksValue(d);
    LeadingSplit(d);
    var n := LeadingLength(d);
    var g := d[..n];
    assert AllDigits(g) by {
      forall k | 0 <= k < |g| ensures IsDigit(g[k]) { assert g[k] == d[k]; }
    }
    if |g| >= 2 {
      assert g[0] == d[0];
    }
    CanonicalOfDec(g);
  }

  /** printDigits' result: a sign character, then max(n, |digits|) digits whose value is the magnitude. */
  lemma FixedWidthProps(sign: bool, s: seq<int>, n: int)
    requires AllLimbs(s)
    ensures var r := FixedWidth(sign, s, n);
      && |r| == 1 + (if n > |Digits(s)| then n else |Digits(s)|)
      && r[0] == (if sign then ' ' else '-')
      && AllDigits(r[1..])
      && Dec(r[1..]) == Value(s)
  {
    var r := FixedWidth(sign, s, n);
    var z, ds := Zeros(n - |Digits(s)|), Digits(s);
    assert r[1..] == z + ds;
    DecZerosPrefix(n - |ds|, ds);
    if s == [] {
      assert ds == [DigitChar(0)];
      assert Dec(ds) == 0;
    } else {
      DigitsProps(s);
    }
  }

  /**
   * What copy() relies on: toString's output is always a numeral, its digits
   * are the unsigned rendering, it starts with '-' exactly for a negative
   * non-empty value, and parsing it gives back the limbs ([0] for no limbs).
   */
  lemma RenderNumeral(sign: bool, s: seq<int>)
    requires AllLimbs(s)
    ensures IsNumeral(Render(sign, s))
    ensures DigitsOf(Render(sign, s)) == Digits(s)
    ensures (Render(sign, s)[0] != '-') == (sign || s == [])
    ensures Chunks(Digits(s)) == if s == [] then [0] else s
    ensures LeadingLength(Digits(s)) == if s == [] then 1 else |DecimalString(s[0])|
  {
    if s == [] {
      assert Render(sign, s) == "0" == [DigitChar(0)];
      assert Chunks("0") == [Dec("0")];
    } else {
      DigitsProps(s);
      SignedNumeral(sign, Digits(s));
      LeadingDigits(s);
    }
  }

  /** A run of digits with or without a '-' in front is a numeral, and its digits are that run. */
  lemma SignedNumeral(sign: bool, ds: string)
    requires AllDigits(ds) && |ds| >= 1
    ensures var r := (if sign then "" else "-") + ds;
      IsNumeral(r) && DigitsOf(r) == ds && (r[0] != '-') == sign
  {
    var r := (if sign then "" else "-") + ds;
    if !sign {
      assert r[1..] == ds;
    } else {
      assert r == ds;
    }
  }

  /** The parser's leading group of toString's digits is the leading limb's own digits. */
  lemma LeadingDigits(s: seq<int>)
    requires AllLimbs(s) && |s| >= 1
    ensures LeadingLength(Digits(s)) == |DecimalString(s[0])|
  {
    DigitsProps(s);
    LimbDigits(s[0]);
    LeadingOfGroups(|s| - 1, |DecimalString(s[0])|);
  }

  lemma LeadingOfGroups(k: nat, n: int)
    requires 1 <= n <= GROUP
    ensures (GROUP * k + n - 1) % GROUP + 1 == n
  {
  }

  /** printDigits strips toString's '-', which leaves the unsigned digits. */
  lemma UnsignedRender(sign: bool, s: seq<int>)
    requires AllLimbs(s)
    ensures |Render(sign, s)| >= 1
    ensures var r := Render(sign, s); (if r[0] == '-' then r[1..] else r) == Digits(s)
  {
    RenderNumeral(sign, s);
    var r := Render(sign, s);
    if s != [] && !sign {
      assert r == "-" + Digits(s);
    }
  }

  /** toString's three pieces: the sign, the leading limb, the padded others. */
  lemma RenderParts(sign: bool, s: seq<int>)
    requires AllLimbs(s) && s != []
    ensures Render(sign, s) == ((if sign then "" else "-") + DecimalString(s[0])) + PaddedLimbs(s[1..])
  {
    var p, first, rest := if sign then "" else "-", DecimalString(s[0]), PaddedLimbs(s[1..]);
    assert Render(sign, s) == p + (first + rest);
    assert p + (first + rest) == (p + first) + rest;
  }

  /** One round of toString's outer loop: limb i joins the padded limbs 1..i. */
  lemma PaddedLimbsStep(s0: string, c: seq<int>, i: int)
    requires AllLimbs(c) && 1 <= i < |c|
    ensures s0 + PaddedLimbs(c[1..i + 1]) == (s0 + PaddedLimbs(c[1..i])) + Pad9(c[i])
  {
    assert c[1..i + 1] == c[1..i] + [c[i]];
    PaddedLimbsLast(c[1..i], c[i]);
  }
}
