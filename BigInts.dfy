/**
 * The class BigInt: a sign and a magnitude kept as base-10^9 limbs in the
 * middle of an int array that grows by doubling when a limb is prepended at
 * its front. Java's exceptions become Outcome and Result values; a String
 * argument that may be null is an Option, a BigInt argument a `BigInt?`.
 */
module BigInts {
  import opened Errors
  import opened Limbs
  import opened Decimal
  import opened Numerals
  import opened Convolution

  /** DEFAULT_SIZE: the capacity of a cleared BigInt and the slack the String constructor adds. */
  const DEFAULT_SIZE: int := 10

  /** MAX_IN_SLOT as the 64-bit value multiply divides by. */
  const MAX_IN_SLOT: Int64 := 1_000_000_000

  /** StringIsInt's character test: code minus ASCII_FOR_ZERO must lie in [0, HIGHEST_DIGIT]. */
  const ASCII_FOR_ZERO: int := 48
  const HIGHEST_DIGIT: int := 9

  /** The messages of the exceptions the class throws. */
  const NULL_MESSAGE: string := "String representation must not be null"
  const INVALID_MESSAGE: string := "Invalid BigInt input: "
  const WIDTH_MESSAGE: string := "Num digit representation cannot be less than the actual amount of digits"
  const INSERT_MESSAGE: string := "An error occurred"
  const NULL_ADD_MESSAGE: string := "Can't add with a null BigInt"
  const SIGNS_MESSAGE: string := "Can't add diff signs"
  const NULL_MULTIPLY_MESSAGE: string := "Can't have a null other"

  class BigInt {
    /** true for a non-negative value; false for negative (also Java's default). */
    var sign: bool
    /** The backing array; the live limbs are con[start..start + size], most significant first. */
    var con: array<int>
    var size: int
    var start: int
    /** The digit count recorded for the leading limb. */
    var firstComplete: int

    /** The bookkeeping invariant: the live window lies inside the array and holds limbs. */
    ghost predicate Valid()
      reads this`con, this`start, this`size, con
    {
      && DEFAULT_SIZE <= con.Length
      && 0 <= start && 0 <= size && start + size <= con.Length
      && forall k :: start <= k < start + size ==> IsLimb(con[k])
    }

    /** The live limbs, most significant first. */
    ghost function Contents(): (s: seq<int>)
      reads this`con, this`start, this`size, con
      requires Valid()
      ensures |s| == size && AllLimbs(s)
    {
      con[start..start + size]
    }

    /** The magnitude Σ limb·(10^9)^k. */
    ghost function Magnitude(): int
      reads this`con, this`start, this`size, con
      requires Valid()
    {
      Value(Contents())
    }

    /** The default constructor: the value zero, positive, in an empty buffer of DEFAULT_SIZE slots. */
    constructor ()
      ensures Valid() && fresh(con)
      ensures sign && Contents() == [] && firstComplete == 0
      ensures con.Length == DEFAULT_SIZE && start == DEFAULT_SIZE / 2
    {
      sign := true;
      con := new int[DEFAULT_SIZE](_ => 0);
      start := DEFAULT_SIZE / 2;
      size := 0;
      firstComplete := 0;
    }

    /**
     * The body of the String constructor once the numeral is known to be
     * valid: nine-digit groups are peeled off the right end and prepended,
     * then the leftover leading group.
     */
    constructor FromNumeral(num: string)
      requires IsNumeral(num)
      ensures Valid() && fresh(con)
      ensures sign == (num[0] != '-')
      ensures Contents() == Chunks(DigitsOf(num))
      ensures firstComplete == LeadingLength(DigitsOf(num))
      ensures |Contents()| == (|DigitsOf(num)| + GROUP - 1) / GROUP
      ensures Magnitude() == Dec(DigitsOf(num))
    {
      var numSize := |num| - 1;
      var shift := 1;
      sign := false;
      if num[0] != '-' {
        sign := true;
        numSize := numSize + 1;
        shift := shift - 1;
      }
      var estimate := numSize / GROUP;
      size := estimate;
      start := DEFAULT_SIZE / 2;
      con := new int[estimate + DEFAULT_SIZE](_ => 0);
      firstComplete := 0;
      size := 0;
      new;
      PrependDigits(num, shift);
      ChunksValue(DigitsOf(num));
    }

    /**
     * The String constructor's prepending: while at least nine digits are
     * left, the rightmost nine become a limb in front of the others; then the
     * leftover one to nine digits become the leading limb.
     */
    method PrependDigits(num: string, shift: int)
      requires IsNumeral(num) && shift == (if num[0] == '-' then 1 else 0)
      requires Valid() && Contents() == [] && firstComplete == 0
      modifies this, con
      ensures Valid() && (con == old(con) || fresh(con)) && sign == old(sign)
      ensures Contents() == Chunks(DigitsOf(num))
      ensures firstComplete == LeadingLength(DigitsOf(num))
    {
      ghost var d := DigitsOf(num);
      assert d == num[shift..];
      var current, groups := PrependGroups(num, shift);
      if current != shift {
        PrependChunk(num, shift, shift, current, groups);
        firstComplete := current - shift;
      } else {
        assert d == num[current..];
      }
      LeadingGroups(d, groups);
    }

    /** The String constructor's loop over the whole nine-digit groups, right to left. */
    method PrependGroups(num: string, shift: int) returns (current: int, ghost groups: nat)
      requires IsNumeral(num) && shift == (if num[0] == '-' then 1 else 0)
      requires Valid() && Contents() == [] && firstComplete == 0
      modifies this, con
      ensures Valid() && (con == old(con) || fresh(con)) && sign == old(sign)
      ensures shift <= current < shift + GROUP && |num| - current == GROUP * groups
      ensures Contents() == Chunks(num[current..])
      ensures firstComplete == if current == |num| then 0 else GROUP
    {
      current := |num|;
      assert num[current..] == [];
      groups := 0;
      while current - GROUP - shift >= 0
        invariant shift <= current <= |num|
        invariant |num| - current == GROUP * groups
        invariant Valid() && (con == old(con) || fresh(con)) && sign == old(sign)
        invariant Contents() == Chunks(num[current..])
        invariant firstComplete == if current == |num| then 0 else GROUP
      {
        PrependChunk(num, shift, current - GROUP, current, groups);
        current := current - GROUP;
        groups := groups + 1;
        firstComplete := GROUP;
      }
    }

    /** One round of the String constructor: the digits num[i..j] parsed and prepended as a limb. */
    method PrependChunk(num: string, shift: int, i: int, j: int, ghost groups: nat)
      requires IsNumeral(num) && shift == (if num[0] == '-' then 1 else 0)
      requires shift <= i < j <= |num| && j - i <= GROUP && |num| - j == GROUP * groups
      requires Valid() && Contents() == Chunks(num[j..])
      modifies this, con
      ensures Valid() && (con == old(con) || fresh(con)) && sign == old(sign)
      ensures Contents() == Chunks(num[i..])
    {
      var w := num[i..j];
      PrependGroup(num, shift, i, j, groups);
      var ok := InsertStart(Dec(w));
    }

    /**
     * get(num, index): the limb at position index, counting from the most
     * significant, and 0 for every index outside [0, size).
     */
    static function Get(num: BigInt, index: int): (r: int)
      reads num, num.con
      requires num.Valid()
      ensures IsLimb(r)
      ensures r == Digit(num.Contents(), num.size - 1 - index)
    {
      if index >= num.size then 0
      else if index < 0 then 0
      else num.con[index + num.start]
    }

    /**
     * insertStart(i): prepends a limb. Fails, changing nothing, when i is not
     * a limb; otherwise grows the array first when no slot is free at the
     * front, and records (int)Math.log10(i) + 1 as firstComplete.
     */
    method InsertStart(i: int) returns (o: Outcome)
      requires Valid()
      modifies this, con
      ensures Valid()
      ensures o.Fail? <==> !IsLimb(i)
      ensures o.Fail? ==> unchanged(this) && unchanged(con)
      ensures o.Pass? ==> Contents() == [i] + old(Contents()) && firstComplete == Log10Digits(i)
      ensures o.Pass? && old(start) > 0 ==> con == old(con) && start == old(start) - 1
      ensures o.Pass? && old(start) == 0 ==> fresh(con) && con.Length == 2 * old(con.Length)
      ensures con == old(con) || fresh(con)
      ensures sign == old(sign)
    {
      if i < 0 || i >= BASE {
        return Fail(IllegalArgument(INSERT_MESSAGE));
      }
      if start == 0 {
        Resize();
      }
      PushFront(i);
      firstComplete := Log10Digits(i);
      o := Pass;
    }

    /** The in-place half of insertStart: with a free slot in front, the limb goes there. */
    method PushFront(i: int)
      requires Valid() && IsLimb(i) && start > 0
      modifies this, con
      ensures Valid() && con == old(con) && start == old(start) - 1
      ensures Contents() == [i] + old(Contents())
      ensures sign == old(sign) && firstComplete == old(firstComplete)
    {
      ghost var before := Contents();
      start := start - 1;
      con[start] := i;
      size := size + 1;
      assert con[start + 1..start + size] == before;
    }

    /**
     * resize(): a fresh array twice as long, the live limbs copied (as by
     * System.arraycopy) to offset length/4 of it, which becomes the new start.
     */
    method Resize()
      requires Valid()
      modifies this
      ensures Valid() && fresh(con)
      ensures con.Length == 2 * old(con.Length) && start == con.Length / 4 && start > 0
      ensures Contents() == old(Contents())
      ensures size == old(size) && sign == old(sign) && firstComplete == old(firstComplete)
    {
      ghost var live := Contents();
      var biggerCon := new int[con.Length * 2](_ => 0);
      var index := biggerCon.Length / 4;
      if size >= 0 {
        forall k | 0 <= k < size {
          biggerCon[index + k] := con[start + k];
        }
      }
      assert forall k :: 0 <= k < size ==> biggerCon[index + k] == live[k];
      assert biggerCon[index..index + size] == live;
      con := biggerCon;
      start := con.Length / 4;
    }

    /** clear(): back to the default constructor's state, in a fresh array. */
    method Clear()
      modifies this
      ensures Valid() && fresh(con)
      ensures sign && Contents() == [] && firstComplete == 0
      ensures con.Length == DEFAULT_SIZE && start == DEFAULT_SIZE / 2
    {
      sign := true;
      con := new int[DEFAULT_SIZE](_ => 0);
      start := con.Length / 2;
      size := 0;
      firstComplete := 0;
    }

    /**
     * The String constructor with its checks: null or empty and malformed
     * input are rejected with the constructor's messages; otherwise the
     * numeral is parsed.
     */
    static method Parse(num: Option<string>) returns (r: Result<BigInt>)
      ensures r.Ok? <==> num.Some? && |num.value| >= 1 && IsNumeral(num.value)
      ensures (num.None? || num.value == []) ==> r == Err(IllegalArgument(NULL_MESSAGE))
      ensures num.Some? && num.value != [] && !IsNumeral(num.value)
        ==> r == Err(IllegalArgument(INVALID_MESSAGE + num.value))
      ensures r.Ok? ==> var b := r.value;
        && fresh(b) && fresh(b.con) && b.Valid()
        && b.sign == (num.value[0] != '-')
        && b.Contents() == Chunks(DigitsOf(num.value))
        && b.firstComplete == LeadingLength(DigitsOf(num.value))
        && b.Magnitude() == Dec(DigitsOf(num.value))
    {
      if num.None? || num.value == [] {
        return Err(IllegalArgument(NULL_MESSAGE));
      }
      var ok := StringIsInt(num.value);
      if !ok {
        return Err(IllegalArgument(INVALID_MESSAGE + num.value));
      }
      var b := new BigInt.FromNumeral(num.value);
      r := Ok(b);
    }

    /**
     * StringIsInt(num): the first character may be '-' or a digit, every
     * other one must be a digit (its code minus 48 within [0, 9]).
     */
    static method StringIsInt(num: string) returns (b: bool)
      requires |num| >= 1
      ensures b == IsNumeral(num)
    {
      var c := num[0];
      if c != '-' && (c as int - ASCII_FOR_ZERO < 0 || c as int - ASCII_FOR_ZERO > HIGHEST_DIGIT) {
        return false;
      }
      var i := 1;
      while i < |num|
        invariant 1 <= i <= |num|
        invariant forall k :: 1 <= k < i ==> IsDigit(num[k])
      {
        c := num[i];
        if c as int - ASCII_FOR_ZERO < 0 || c as int - ASCII_FOR_ZERO > HIGHEST_DIGIT {
          return false;
        }
        i := i + 1;
      }
      return true;
    }

    /**
     * toString(): "0" for no limbs (whatever the sign); otherwise a '-' for a
     * negative value, the leading limb as Integer.toString writes it, and each
     * further limb left-padded with zeros to nine digits.
     */
    method ToString() returns (s: string)
      requires Valid()
      ensures s == Render(sign, Contents())
    {
      s := "";
      if !sign {
        s := s + "-";
      }
      if size == 0 {
        assert Contents() == [];
        return "0";
      }
      ghost var c := Contents();
      assert s == (if sign then "" else "-") && c[0] == con[start];
      s := s + DecimalString(con[start]);
      s := AppendLimbs(s);
      RenderParts(sign, c);
    }

    /** toString's outer loop: every limb after the leading one, padded to nine digits. */
    method AppendLimbs(s0: string) returns (s: string)
      requires Valid() && size >= 1
      ensures s == s0 + PaddedLimbs(Contents()[1..])
    {
      ghost var c := Contents();
      s := s0;
      assert s == s0 + PaddedLimbs(c[1..1]);
      var i := 1;
      while i < size
        invariant 1 <= i <= size
        invariant s == s0 + PaddedLimbs(c[1..i])
      {
        s := AppendPadded(s, con[start + i]);
        PaddedLimbsStep(s0, c, i);
        i := i + 1;
      }
      assert c[1..] == c[1..size];
    }

    /**
     * toString's inner loop: p = Integer.toString(x), then zeros while the
     * nine-digit field is not full, then p.
     */
    static method AppendPadded(s: string, x: int) returns (t: string)
      requires IsLimb(x)
      ensures t == s + Pad9(x)
    {
      var p := DecimalString(x);
      LimbDigits(x);
      t := s;
      var j := GROUP;
      while j > |p|
        invariant |p| <= j <= GROUP
        invariant t == s + Zeros(GROUP - j)
      {
        Zeros1(GROUP - j + 1);
        t := t + "0";
        j := j - 1;
      }
      t := t + p;
    }

    /**
     * printDigits(numDigits): rejects a width not above getNumDigits();
     * otherwise ' ' or '-', zeros up to the width, then the unsigned digits.
     */
    method PrintDigits(numDigits: int) returns (r: Result<string>)
      requires Valid()
      ensures r.Err? <==> numDigits <= NumDigits()
      ensures r.Err? ==> r.error == IllegalArgument(WIDTH_MESSAGE)
      ensures r.Ok? ==> r.value == FixedWidth(sign, Contents(), numDigits)
    {
      if numDigits <= NumDigits() {
        return Err(IllegalArgument(WIDTH_MESSAGE));
      }
      var toReturn := if sign then " " else "-";
      var num := ToString();
      if num[0] == '-' {
        num := num[1..];
      }
      UnsignedRender(sign, Contents());
      toReturn := AppendZeros(toReturn, numDigits, |num|);
      r := Ok(toReturn + num);
    }

    /** printDigits' loop: one '0' for each i from numDigits down to just above len. */
    static method AppendZeros(t: string, numDigits: int, len: int) returns (u: string)
      ensures u == t + Zeros(numDigits - len)
    {
      u := t;
      var i := numDigits;
      while i > len
        invariant i <= numDigits && (i >= len || i == numDigits)
        invariant u == t + Zeros(numDigits - (if i > len then i else len))
      {
        Zeros1(numDigits - i + 1);
        u := u + "0";
        i := i - 1;
      }
    }

    /**
     * copy(): a new BigInt built from toString(). The rendering of no limbs is
     * "0", so the copy of an empty BigInt holds the limb 0 and is positive.
     */
    method Copy() returns (b: BigInt)
      requires Valid()
      ensures fresh(b) && fresh(b.con) && b.Valid()
      ensures b.sign == (sign || size == 0)
      ensures b.Contents() == if size == 0 then [0] else Contents()
      ensures b.Magnitude() == Magnitude()
      ensures b.firstComplete == if size == 0 then 1 else |DecimalString(Contents()[0])|
    {
      var s := ToString();
      RenderNumeral(sign, Contents());
      b := new BigInt.FromNumeral(s);
      if size == 0 {
        assert Value([0]) == 0 == Value([]);
      }
    }

    /**
     * add(other): the magnitudes are added in place; fails, changing nothing,
     * on a null argument or differing signs. A final carry becomes a new
     * leading limb. Only prepending records a new firstComplete.
     */
    method Add(other: BigInt?) returns (o: Outcome)
      requires Valid()
      requires other != null ==> other.Valid() && (other == this || other.con != con)
      modifies this, con
      ensures o.Fail? <==> other == null || old(sign) != old(other.sign)
      ensures other == null ==> o == Fail(IllegalArgument(NULL_ADD_MESSAGE))
      ensures other != null && o.Fail? ==> o == Fail(IllegalArgument(SIGNS_MESSAGE))
      ensures o.Fail? ==> unchanged(this) && unchanged(con)
      ensures Valid() && sign == old(sign)
      ensures o.Pass? ==> Magnitude() == old(Magnitude()) + old(other.Magnitude())
      ensures o.Pass? ==> var m := if old(size) < old(other.size) then old(other.size) else old(size);
        size == if Magnitude() >= Pow(BASE, m) then m + 1 else m
      ensures o.Pass? ==> firstComplete == if size == old(size) then old(firstComplete) else Log10Digits(Contents()[0])
    {
      if other == null {
        return Fail(IllegalArgument(NULL_ADD_MESSAGE));
      }
      if sign != other.sign {
        return Fail(IllegalArgument(SIGNS_MESSAGE));
      }
      AddMagnitudes(other);
      o := Pass;
    }

    /** add once its checks have passed: both loops, then a final carry limb. */
    method AddMagnitudes(other: BigInt)
      requires Valid() && other.Valid() && (other == this || other.con != con)
      modifies this, con
      ensures Valid() && sign == old(sign)
      ensures Magnitude() == old(Magnitude()) + old(other.Magnitude())
      ensures var m := if old(size) < old(other.size) then old(other.size) else old(size);
        size == if Magnitude() >= Pow(BASE, m) then m + 1 else m
      ensures firstComplete == if size == old(size) then old(firstComplete) else Log10Digits(Contents()[0])
    {
      ghost var a := Magnitude();
      ghost var O := other.Contents();
      ghost var m := if size < |O| then |O| else size;
      var carry := AddOverlap(other);
      if other != this {
        // When other is this, the second loop starts at other.size and runs zero times.
        carry := AddRest(other, carry, a, O);
      } else {
        SumBeyond(O, size);
      }
      ghost var c := Contents();
      FinalCarry(c, carry as int, a + Value(O));
      if carry != 0 {
        var ok := InsertStart(carry as int);
      }
    }

    /**
     * add's first loop: limb by limb from the least significant, this limb
     * plus other's plus the carry, reduced below 10^9, written back in place.
     * Each slot is read before it is written, so other may be this.
     */
    method AddOverlap(other: BigInt) returns (carry: Int32)
      requires Valid() && other.Valid() && (other == this || other.con != con)
      modifies con
      ensures Valid() && 0 <= carry <= 1
      ensures Magnitude() + carry as int * Pow(BASE, size)
        == old(Magnitude()) + Sum(old(other.Contents()), size)
    {
      ghost var A := Contents();
      ghost var O := other.Contents();
      ghost var W: seq<int> := [];
      carry := 0;
      var i := 0;
      while i < size
        invariant 0 <= i <= size && 0 <= carry <= 1 && |W| == i
        invariant Valid()
        invariant Contents() == A[..size - i] + W
        invariant if other == this then O == A else other.Contents() == O
        invariant Value(W) + carry as int * Pow(BASE, i) == Sum(A, i) + Sum(O, i)
      {
        carry, W := AddRound(other, i, carry, A, O, W);
        i := i + 1;
      }
      assert Contents() == W;
      assert Value(A) == Sum(A, size);
    }

    /**
     * One round of add's first loop, with the limbs already written (W, the
     * i least significant) and those still to come (a prefix of A).
     */
    method AddRound(other: BigInt, i: int, carry0: Int32, ghost A: seq<int>, ghost O: seq<int>, ghost W: seq<int>)
      returns (carry: Int32, ghost W': seq<int>)
      requires Valid() && other.Valid() && (other == this || other.con != con)
      requires 0 <= i < size && 0 <= carry0 <= 1 && |W| == i && |A| == size
      requires Contents() == A[..size - i] + W
      requires if other == this then O == A else other.Contents() == O
      requires Value(W) + carry0 as int * Pow(BASE, i) == Sum(A, i) + Sum(O, i)
      modifies con
      ensures Valid() && 0 <= carry <= 1 && |W'| == i + 1
      ensures Contents() == A[..size - (i + 1)] + W'
      ensures other != this ==> other.Contents() == O
      ensures Value(W') + carry as int * Pow(BASE, i + 1) == Sum(A, i + 1) + Sum(O, i + 1)
    {
      UnwrittenDigit(A, W, i);
      var sum;
      sum, carry := AddLimb(other, i, carry0);
      Splice(A, W, size - i, sum);
      AddStep(W, A, O, i, carry0 as int, carry as int, sum);
      W' := [sum] + W;
    }

    /**
     * One round of add's first loop: the limbs of significance i of this and
     * other plus the carry, reduced, overwrite this limb.
     */
    method AddLimb(other: BigInt, i: int, carry0: Int32) returns (sum: int, carry: Int32)
      requires Valid() && other.Valid() && (other == this || other.con != con)
      requires 0 <= i < size && 0 <= carry0 <= 1
      modifies con
      ensures Valid() && IsLimb(sum) && 0 <= carry <= 1
      ensures Contents() == old(Contents())[size - 1 - i := sum]
      ensures sum + carry as int * BASE == Digit(old(Contents()), i) + Digit(old(other.Contents()), i) + carry0 as int
      ensures other != this ==> other.Contents() == old(other.Contents())
    {
      var x := Get(this, size - 1 - i);
      var y := Get(other, other.size - 1 - i);
      var s := x as Int32 + y as Int32 + carry0;
      s, carry := Reduce(s);
      sum := s as int;
      SetLimb(size - 1 - i, sum);
    }

    /** One round of add's second loop: other's limb of significance i plus the carry, reduced, prepended. */
    method PrependLimb(other: BigInt, i: int, carry0: Int32, ghost a: int, ghost O: seq<int>) returns (carry: Int32)
      requires Valid() && other.Valid() && other != this && other.con != con && other.Contents() == O
      requires 0 <= i == size && 0 <= carry0 <= 1
      requires Magnitude() + carry0 as int * Pow(BASE, i) == a + Sum(O, i)
      modifies this, con
      ensures Valid() && 0 <= carry <= 1 && sign == old(sign) && size == i + 1
      ensures con == old(con) || fresh(con)
      ensures other.con != con && other.Valid() && other.Contents() == O
      ensures Magnitude() + carry as int * Pow(BASE, i + 1) == a + Sum(O, i + 1)
      ensures firstComplete == Log10Digits(Contents()[0])
    {
      ghost var C := Contents();
      var y := Get(other, other.size - 1 - i);
      var s := y as Int32 + carry0;
      s, carry := Reduce(s);
      var sum := s as int;
      var ok := InsertStart(sum);
      RestStep(C, O, i, a, carry0 as int, carry as int, sum);
    }

    /**
     * add's inner loop: while sum is at least 10^9, count a carry and take
     * 10^9 off. A sum of two limbs and a carry needs at most one round.
     */
    static method Reduce(sum0: Int32) returns (sum: Int32, carry: Int32)
      requires 0 <= sum0 as int < 2 * BASE
      ensures IsLimb(sum as int) && 0 <= carry <= 1
      ensures sum as int + carry as int * BASE == sum0 as int
    {
      sum := sum0;
      carry := 0;
      while sum as int >= BASE
        invariant sum >= 0
        invariant (carry == 0 && sum == sum0) || (carry == 1 && sum as int == sum0 as int - BASE)
      {
        carry := carry + 1;
        sum := sum - MAX_IN_SLOT as Int32;
      }
    }

    /** The write `con[start + k] = v` of add's first loop, on the abstraction. */
    method SetLimb(k: int, v: int)
      requires Valid() && 0 <= k < size && IsLimb(v)
      modifies con
      ensures Valid() && Contents() == old(Contents())[k := v]
    {
      con[start + k] := v;
      assert Contents() == old(Contents())[k := v];
    }

    /**
     * add's second loop: while other has more limbs, its next limb plus the
     * carry, reduced below 10^9, is prepended.
     */
    method AddRest(other: BigInt, carry0: Int32, ghost a: int, ghost O: seq<int>) returns (carry: Int32)
      requires Valid() && other.Valid() && other != this && other.con != con && other.Contents() == O
      requires 0 <= carry0 <= 1
      requires Magnitude() + carry0 as int * Pow(BASE, size) == a + Sum(O, size)
      modifies this, con
      ensures Valid() && 0 <= carry <= 1 && sign == old(sign)
      ensures size == if old(size) < |O| then |O| else old(size)
      ensures Magnitude() + carry as int * Pow(BASE, size) == a + Value(O)
      ensures firstComplete == if size == old(size) then old(firstComplete) else Log10Digits(Contents()[0])
      ensures con == old(con) || fresh(con)
    {
      carry := carry0;
      var i := size;
      while i < other.size
        invariant old(size) <= i && (i <= |O| || i == old(size))
        invariant Valid() && size == i && 0 <= carry <= 1 && sign == old(sign)
        invariant con == old(con) || fresh(con)
        invariant other.con != con
        invariant Magnitude() + carry as int * Pow(BASE, i) == a + Sum(O, i)
        invariant firstComplete == if i == old(size) then old(firstComplete) else Log10Digits(Contents()[0])
      {
        carry := PrependLimb(other, i, carry, a, O);
        i := i + 1;
      }
      SumBeyond(O, i);
    }

    /**
     * multiply(other): this becomes the product. The receiver is copied (the
     * copy of an empty BigInt holds one zero limb) and cleared, then every
     * position of the schoolbook product is summed in a 64-bit accumulator
     * and prepended, and the carry left at the end becomes further limbs.
     * Every position gets a limb, so leading zero limbs are kept.
     * When other is this, the product is taken with the copy (see Findings).
     */
    method Multiply(other: BigInt?) returns (o: Outcome)
      requires Valid()
      requires other != null ==> other.Valid() && other.size <= INT_MAX
      modifies this
      ensures o.Fail? <==> other == null
      ensures o.Fail? ==> o == Fail(IllegalArgument(NULL_MULTIPLY_MESSAGE)) && unchanged(this)
      ensures Valid()
      ensures o.Pass? ==> fresh(con) && Magnitude() == old(Magnitude()) * old(other.Magnitude())
      ensures o.Pass? ==> sign == if other == this then true else (old(sign) || old(size) == 0) == old(other.sign)
      ensures o.Pass? ==>
        var n := Positions(old(size), if other == this then old(size) else old(other.size), other == this);
        size == n + CarryLimbs(Magnitude() / Pow(BASE, n))
      ensures o.Pass? ==> firstComplete == if size == 0 then 0 else Log10Digits(Contents()[0])
    {
      if other == null {
        return Fail(IllegalArgument(NULL_MULTIPLY_MESSAGE));
      }
      ghost var A, B := Contents(), other.Contents();
      var temp := Copy();
      var factor := if other == this then temp else other;
      ghost var T := temp.Contents();
      ghost var O := if other == this then T else B;
      assert Value(T) == Value(A) by {
        if A == [] { assert Value([0]) == 0; }
      }
      ghost var n := Positions(|A|, |B|, other == this);
      assert n == |T| + |O| - 1;
      MultiplyInto(temp, factor, T, O, n);
      o := Pass;
    }

    /**
     * The body of multiply once this has been copied to temp: clear this,
     * then the product of temp and factor, with the sign rule and the limb
     * count.
     */
    method MultiplyInto(temp: BigInt, factor: BigInt, ghost T: seq<int>, ghost O: seq<int>, ghost n: nat)
      requires temp.Valid() && factor.Valid() && temp != this && factor != this
      requires temp.Contents() == T && factor.Contents() == O
      requires |T| >= 1 && |O| <= INT_MAX && n == |T| + |O| - 1
      modifies this
      ensures Valid() && fresh(con)
      ensures Magnitude() == Value(T) * Value(O)
      ensures sign == (temp.sign == factor.sign)
      ensures size == n + CarryLimbs(Magnitude() / Pow(BASE, n))
      ensures firstComplete == if size == 0 then 0 else Log10Digits(Contents()[0])
    {
      Clear();
      var carry := MultiplyPositions(temp, factor, T, O);
      ProductSplit(Contents(), carry as int, T, O, n);
      MultiplyCarry(carry, Value(T) * Value(O));
      sign := temp.sign == factor.sign;
    }

    /**
     * multiply's outer loop: for i = 2 .. temp.size + other.size, position
     * p = i - 2 of the product, plus the carry from the position below, is
     * split into a limb (prepended) and the carry passed on.
     */
    method MultiplyPositions(temp: BigInt, factor: BigInt, ghost T: seq<int>, ghost O: seq<int>) returns (carry: Int64)
      requires Valid() && Contents() == [] && firstComplete == 0
      requires temp.Valid() && factor.Valid() && temp != this && factor != this
      requires temp.con != con && factor.con != con
      requires temp.Contents() == T && factor.Contents() == O
      requires |T| >= 1 && |O| <= INT_MAX
      modifies this, con
      ensures Valid() && sign == old(sign) && (con == old(con) || fresh(con))
      ensures size == |T| + |O| - 1
      ensures 0 <= carry as int <= |O| * (BASE - 1)
      ensures Magnitude() + carry as int * Pow(BASE, size) == ConvSum(T, O, size)
      ensures firstComplete == if size == 0 then 0 else Log10Digits(Contents()[0])
    {
      carry := 0;
      var i := 2;
      while i < temp.size + factor.size + 1
        invariant 2 <= i <= temp.size + factor.size + 1
        invariant Valid() && size == i - 2 && sign == old(sign) && (con == old(con) || fresh(con))
        invariant temp.con != con && factor.con != con
        invariant temp.Contents() == T && factor.Contents() == O
        invariant 0 <= carry as int <= |O| * (BASE - 1)
        invariant Magnitude() + carry as int * Pow(BASE, i - 2) == ConvSum(T, O, i - 2)
        invariant firstComplete == if size == 0 then 0 else Log10Digits(Contents()[0])
      {
        carry := MultiplyPosition(temp, factor, i, carry);
        i := i + 1;
      }
    }

    /** One round of multiply's outer loop: position i - 2 plus the carry, its limb prepended. */
    method MultiplyPosition(temp: BigInt, factor: BigInt, i: int, carry0: Int64) returns (carry: Int64)
      requires Valid() && temp.Valid() && factor.Valid() && temp != this && factor != this
      requires temp.con != con && factor.con != con
      requires i >= 2 && size == i - 2 && factor.size <= INT_MAX
      requires 0 <= carry0 as int <= factor.size * (BASE - 1)
      requires Magnitude() + carry0 as int * Pow(BASE, i - 2) == ConvSum(temp.Contents(), factor.Contents(), i - 2)
      modifies this, con
      ensures Valid() && size == i - 1 && sign == old(sign) && (con == old(con) || fresh(con))
      ensures temp.con != con && factor.con != con
      ensures 0 <= carry as int <= factor.size * (BASE - 1)
      ensures Magnitude() + carry as int * Pow(BASE, i - 1) == ConvSum(temp.Contents(), factor.Contents(), i - 1)
      ensures firstComplete == Log10Digits(Contents()[0])
    {
      ghost var T := temp.Contents();
      ghost var O := factor.Contents();
      ghost var L := Contents();
      var newDigit;
      newDigit, carry := PositionSum(temp, factor, i, carry0);
      ghost var inner := carry;
      FoldBound(T, O, i - 2, i - 1, carry0 as int, inner as int, newDigit as int);
      carry := carry + newDigit / MAX_IN_SLOT;
      var limb := (newDigit % MAX_IN_SLOT) as int;
      PositionStep(L, T, O, i - 2, carry0 as int, inner as int, newDigit as int, carry as int, limb);
      var ok := InsertStart(limb);
    }

    /**
     * multiply's inner loop for one i: newDigit starts at the incoming carry
     * and gathers the products of limbs whose significances add up to i - 2;
     * whenever it reaches 8·10^18 its upper part moves into carry.
     */
    static method PositionSum(temp: BigInt, factor: BigInt, i: int, carry0: Int64)
      returns (newDigit: Int64, carry: Int64)
      requires temp.Valid() && factor.Valid() && i >= 2 && factor.size <= INT_MAX
      requires 0 <= carry0 as int <= factor.size * (BASE - 1)
      ensures 0 <= newDigit && 0 <= carry
      ensures carry as int * BASE + newDigit as int
        == carry0 as int + Conv(temp.Contents(), factor.Contents(), i - 2)
    {
      ghost var T := temp.Contents();
      ghost var O := factor.Contents();
      WideBound(|O|);
      newDigit := carry0;
      carry := 0;
      var j := 1;
      while j < i
        invariant 1 <= j <= i
        invariant 0 <= newDigit as int < FOLD_THRESHOLD && 0 <= carry
        invariant carry as int * BASE + newDigit as int == carry0 as int + PartialConv(T, O, i - 2, j - 1)
      {
        newDigit, carry := AddTerm(temp, factor, i, j, carry0, newDigit, carry);
        j := j + 1;
      }
    }

    /**
     * One round of multiply's inner loop: the product of temp's limb of
     * significance i - 1 - j and other's limb of significance j - 1 joins
     * newDigit, which is folded into carry once it reaches 8·10^18.
     */
    static method AddTerm(temp: BigInt, factor: BigInt, i: int, j: int, carry0: Int64, newDigit0: Int64, carry1: Int64)
      returns (newDigit: Int64, carry: Int64)
      requires temp.Valid() && factor.Valid() && 1 <= j < i && factor.size <= INT_MAX
      requires 0 <= carry0 as int <= factor.size * (BASE - 1)
      requires 0 <= newDigit0 as int < FOLD_THRESHOLD && 0 <= carry1
      requires carry1 as int * BASE + newDigit0 as int
        == carry0 as int + PartialConv(temp.Contents(), factor.Contents(), i - 2, j - 1)
      ensures 0 <= newDigit as int < FOLD_THRESHOLD && 0 <= carry
      ensures carry as int * BASE + newDigit as int
        == carry0 as int + PartialConv(temp.Contents(), factor.Contents(), i - 2, j)
    {
      ghost var T := temp.Contents();
      ghost var O := factor.Contents();
      WideBound(|O|);
      var x := Get(temp, temp.size - (i - j));
      var y := Get(factor, factor.size - j);
      assert x == Digit(T, i - 2 - (j - 1)) && y == Digit(O, j - 1);
      AccumulatorBound(newDigit0 as int, x, y);
      newDigit := newDigit0 + x as Int64 * y as Int64;
      carry := carry1;
      if newDigit as int >= FOLD_THRESHOLD {
        FoldBound(T, O, i - 2, j, carry0 as int, carry as int, newDigit as int);
        carry := carry + newDigit / MAX_IN_SLOT;
        newDigit := newDigit % MAX_IN_SLOT;
      }
    }

    /**
     * multiply's extra digits: while the carry is at least 10^9 its low limb
     * is prepended and it is divided by 10^9; a non-zero rest is the last limb.
     */
    method MultiplyCarry(carry0: Int64, ghost total: int)
      requires Valid() && 0 <= carry0
      requires Magnitude() + carry0 as int * Pow(BASE, size) == total
      requires firstComplete == if size == 0 then 0 else Log10Digits(Contents()[0])
      modifies this, con
      ensures Valid() && sign == old(sign) && (con == old(con) || fresh(con))
      ensures Magnitude() == total
      ensures size == old(size) + CarryLimbs(carry0 as int)
      ensures firstComplete == if size == 0 then 0 else Log10Digits(Contents()[0])
    {
      var carry := carry0;
      while carry >= MAX_IN_SLOT
        invariant Valid() && sign == old(sign) && (con == old(con) || fresh(con))
        invariant 0 <= carry
        invariant Magnitude() + carry as int * Pow(BASE, size) == total
        invariant size + CarryLimbs(carry as int) == old(size) + CarryLimbs(carry0 as int)
        invariant firstComplete == if size == 0 then 0 else Log10Digits(Contents()[0])
      {
        ghost var L := Contents();
        var limb := (carry % MAX_IN_SLOT) as int;
        CarryLimbStep(L, carry as int, total);
        var ok := InsertStart(limb);
        carry := carry / MAX_IN_SLOT;
      }
      if carry != 0 {
        ghost var L := Contents();
        ValuePrepend(carry as int, L);
        var ok := InsertStart(carry as int);
      }
    }

    /** getNumDigits(): 9 digits per limb below the leading one, plus firstComplete. */
    function NumDigits(): (n: int)
      reads this, con
      requires Valid()
      ensures size >= 1 && firstComplete == |DecimalString(Contents()[0])| ==> n == |Digits(Contents())|
    {
      var n := GROUP * (size - 1) + firstComplete;
      if size >= 1 then DigitsProps(Contents()); n else n
    }
  }

  /**
   * One limb of add: the limb s written below the carry c' accounts for
   * both limbs of significance i and the incoming carry c.
   */
  lemma AddStep(W: seq<int>, A: seq<int>, O: seq<int>, i: nat, c: int, c': int, s: int)
    requires Value(W) + c * Pow(BASE, i) == Sum(A, i) + Sum(O, i) && |W| == i
    requires s + c' * BASE == Digit(A, i) + Digit(O, i) + c
    ensures Value([s] + W) + c' * Pow(BASE, i + 1) == Sum(A, i + 1) + Sum(O, i + 1)
  {
    ValuePrepend(s, W);
    CarryStep(Value(W), Sum(A, i) + Sum(O, i), c, c', s, Digit(A, i) + Digit(O, i), Pow(BASE, i));
  }

  /** One limb of add's second loop, where this has run out of limbs and a is its value. */
  lemma RestStep(C: seq<int>, O: seq<int>, i: nat, a: int, c: int, c': int, s: int)
    requires Value(C) + c * Pow(BASE, i) == a + Sum(O, i) && |C| == i
    requires s + c' * BASE == Digit(O, i) + c
    ensures Value([s] + C) + c' * Pow(BASE, i + 1) == a + Sum(O, i + 1)
  {
    ValuePrepend(s, C);
    CarryStep(Value(C), a + Sum(O, i), c, c', s, Digit(O, i), Pow(BASE, i));
  }

  /** add's last step: a carry of 1 becomes a new leading limb; without one the limbs already hold the sum. */
  lemma FinalCarry(c: seq<int>, carry: int, total: int)
    requires AllLimbs(c) && 0 <= carry <= 1
    requires Value(c) + carry * Pow(BASE, |c|) == total
    ensures carry == 1 ==> Value([1] + c) == total && total >= Pow(BASE, |c|)
    ensures carry == 0 ==> Value(c) == total && total < Pow(BASE, |c|)
  {
    ValuePrepend(1, c);
    ValueBounds(c);
  }

  /**
   * How many positions multiply fills before its last carry: the copy of
   * this has at least one limb, and an aliased other is that copy.
   */
  function Positions(thisSize: nat, otherSize: nat, aliased: bool): nat {
    var t := if thisSize == 0 then 1 else thisSize;
    t + (if aliased then t else otherSize) - 1
  }

  /**
   * Once every position has its limb, the limbs and the carry left over make
   * up the product, and the carry is the part of the product above those limbs.
   */
  lemma ProductSplit(L: seq<int>, carry: int, T: seq<int>, O: seq<int>, n: nat)
    requires AllLimbs(L) && |L| == n && n + 1 >= |T| + |O| && 0 <= carry
    requires Value(L) + carry * Pow(BASE, n) == ConvSum(T, O, n)
    ensures Value(L) + carry * Pow(BASE, n) == Value(T) * Value(O)
    ensures Value(T) * Value(O) / Pow(BASE, n) == carry
  {
    ConvSumProduct(T, O, n);
    ValueBounds(L);
    SplitQuotient(Value(L), carry, Pow(BASE, n));
  }

  /** A Java-int count of limbs times 10^9 - 1 stays below the fold threshold (and so within a long). */
  lemma WideBound(m: nat)
    requires m <= INT_MAX
    ensures m * (BASE - 1) <= INT_MAX * (BASE - 1) < FOLD_THRESHOLD
  {
    MulLeft(BASE - 1, m, INT_MAX);
  }

  /**
   * multiply's fold: moving newDigit's upper part into carry keeps carry·10^9 +
   * newDigit, and carry stays within |O|·(10^9 - 1) because no position adds
   * more than |O| limb products.
   */
  lemma FoldBound(T: seq<int>, O: seq<int>, p: int, k: nat, c0: int, carry: int, nd: int)
    requires AllLimbs(T) && AllLimbs(O) && 0 <= c0 <= |O| * (BASE - 1) && 0 <= carry && 0 <= nd
    requires carry * BASE + nd == c0 + PartialConv(T, O, p, k)
    ensures (carry + nd / BASE) * BASE + nd % BASE == c0 + PartialConv(T, O, p, k)
    ensures carry + nd / BASE <= |O| * (BASE - 1)
  {
    PartialConvBound(T, O, p, k);
    if k < |O| {
      MulLeft(MAX_PRODUCT, k, |O|);
    }
    CarryBound(|O|, c0, PartialConv(T, O, p, k), carry + nd / BASE, nd % BASE);
  }

  /**
   * One position of multiply: the limb written and the carry passed on
   * account for the position's products and the incoming carry.
   */
  lemma PositionStep(L: seq<int>, T: seq<int>, O: seq<int>, p: nat, c0: int, inner: int, d: int, c: int, limb: int)
    requires |L| == p && Value(L) + c0 * Pow(BASE, p) == ConvSum(T, O, p)
    requires inner * BASE + d == c0 + Conv(T, O, p) && 0 <= d
    requires c == inner + d / BASE && limb == d % BASE
    ensures Value([limb] + L) + c * Pow(BASE, p + 1) == ConvSum(T, O, p + 1)
  {
    ValuePrepend(limb, L);
    CarryStep(Value(L), ConvSum(T, O, p), c0, c, limb, Conv(T, O, p), Pow(BASE, p));
  }

  /** One round of multiply's extra-digit loop keeps the total and uses up one carry limb. */
  lemma CarryLimbStep(L: seq<int>, carry: int, total: int)
    requires carry >= BASE && Value(L) + carry * Pow(BASE, |L|) == total
    ensures Value([carry % BASE] + L) + (carry / BASE) * Pow(BASE, |L| + 1) == total
    ensures CarryLimbs(carry) == 1 + CarryLimbs(carry / BASE)
  {
    ValuePrepend(carry % BASE, L);
    CarryStep(Value(L), Value(L), 0, carry / BASE, carry % BASE, carry, Pow(BASE, |L|));
  }

  /** In add's first loop the limb of significance i has not been overwritten yet. */
  lemma UnwrittenDigit(A: seq<int>, W: seq<int>, i: int)
    requires 0 <= i == |W| < |A|
    ensures Digit(A[..|A| - i] + W, i) == Digit(A, i)
  {
    var C := A[..|A| - i] + W;
    assert C[|C| - 1 - i] == A[|A| - 1 - i];
  }

  /** Overwriting the last untouched limb extends the written part by one. */
  lemma Splice(A: seq<int>, W: seq<int>, n: int, v: int)
    requires 1 <= n <= |A|
    ensures (A[..n] + W)[n - 1 := v] == A[..n - 1] + ([v] + W)
  {
  }

  /**
   * One step of the String constructor: the group num[i..j] of at most nine
   * digits is a limb, and prepending it to the limbs of num[j..] gives the
   * limbs of num[i..].
   */
  lemma PrependGroup(num: string, shift: int, i: int, j: int, groups: nat)
    requires IsNumeral(num) && shift == (if num[0] == '-' then 1 else 0)
    requires shift <= i < j <= |num| && j - i <= GROUP && |num| - j == GROUP * groups
    ensures IsLimb(Dec(num[i..j]))
    ensures Chunks(num[i..]) == [Dec(num[i..j])] + Chunks(num[j..])
  {
    var w := num[i..j];
    DigitsSlice(num, shift, i, j);
    GroupIsLimb(w);
    var rest := num[j..];
    MultipleOfGroup(groups);
    assert |rest| % GROUP == 0;
    ChunksSplit(w, rest);
    assert w + rest == num[i..];
  }

  /** At most nine digits make a limb, and a group of one to nine digits is a single chunk. */
  lemma GroupIsLimb(w: string)
    requires AllDigits(w) && 1 <= |w| <= GROUP
    ensures IsLimb(Dec(w)) && Chunks(w) == [Dec(w)]
  {
    PowMono(|w|, GROUP);
    PowTenNine();
  }

  /** A leftover of r digits in front of whole groups is exactly LeadingLength's count. */
  lemma LeadingGroups(d: string, groups: nat)
    requires GROUP * groups <= |d| <= GROUP * groups + GROUP
    ensures |d| > GROUP * groups ==> LeadingLength(d) == |d| - GROUP * groups
    ensures |d| == GROUP * groups ==> LeadingLength(d) == if |d| == 0 then 0 else GROUP
  {
  }

  lemma DigitsSlice(num: string, shift: int, i: int, j: int)
    requires IsNumeral(num) && shift == (if num[0] == '-' then 1 else 0)
    requires shift <= i <= j <= |num|
    ensures AllDigits(num[i..j])
  {
    forall k | 0 <= k < j - i ensures IsDigit(num[i..j][k]) {
      assert num[i..j][k] == num[i + k];
      assert i + k >= 1 || num[0] != '-';
    }
  }
}
