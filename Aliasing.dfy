/**
 * multiply's outer loop as written, counted in rounds. The guard is
 * i < temp.size + other.size + 1, read afresh on every round. When other is
 * a separate BigInt its size stays fixed; when other is the receiver itself,
 * clear() has emptied it and every round prepends one limb to it, so its size
 * grows with i.
 */
module Aliasing {
  import opened Limbs

  /**
   * The rounds the loop runs from index i, counted up to bound: otherSize is
   * other.size at that point, and it grows by one per round when aliased.
   * With a separate other the guard's right-hand side is fixed, so the count
   * never exceeds the distance from i to it.
   */
  function Rounds(tempSize: nat, otherSize: nat, aliased: bool, i: int, bound: nat): (r: nat)
    ensures r <= bound
    ensures !aliased ==> r <= if i <= tempSize + otherSize + 1 then tempSize + otherSize + 1 - i else 0
    decreases bound
  {
    if bound == 0 || !(i < tempSize + otherSize + 1) then 0
    else 1 + Rounds(tempSize, if aliased then otherSize + 1 else otherSize, aliased, i + 1, bound - 1)
  }

  lemma {:induction false} AliasedRoundsFrom(tempSize: nat, otherSize: nat, i: int, bound: nat)
    requires tempSize >= 2 && i == otherSize + 2
    ensures Rounds(tempSize, otherSize, true, i, bound) == bound
    decreases bound
  {
    if bound > 0 {
      AliasedRoundsFrom(tempSize, otherSize + 1, i + 1, bound - 1);
    }
  }

  /**
   * x.multiply(x) with x of two or more limbs: every bound on the rounds is
   * reached, so the loop never ends.
   */
  lemma AliasedNeverEnds(tempSize: nat, bound: nat)
    requires tempSize >= 2
    ensures Rounds(tempSize, 0, true, 2, bound) == bound
  {
    AliasedRoundsFrom(tempSize, 0, 2, bound);
  }

  /**
   * x.multiply(x) with x of one limb: the guard fails at once, no limb is
   * prepended and the receiver is left empty, whose value is zero. For x = 5
   * the result is 0 rather than 25.
   */
  lemma AliasedSingleLimb(x: int, bound: nat)
    requires 0 < x < BASE
    ensures Rounds(1, 0, true, 2, bound) == 0
    ensures Value([]) == 0 < x * x == Value([x]) * Value([x])
  {
    assert Value([x]) == Sum([x], 0) + Digit([x], 0) * Pow(BASE, 0);
  }

  lemma {:induction false} SeparateRoundsFrom(tempSize: nat, otherSize: nat, i: int, bound: nat)
    requires 2 <= i <= tempSize + otherSize + 1
    requires bound >= tempSize + otherSize + 1 - i
    ensures Rounds(tempSize, otherSize, false, i, bound) == tempSize + otherSize + 1 - i
    decreases bound
  {
    if i < tempSize + otherSize + 1 {
      SeparateRoundsFrom(tempSize, otherSize, i + 1, bound - 1);
    }
  }

  /**
   * With a separate factor (what multiply does once the factor is the copy
   * when other is this), the loop runs temp.size + other.size - 1 rounds,
   * one per position of the product.
   */
  lemma SeparateRounds(tempSize: nat, otherSize: nat, bound: nat)
    requires tempSize >= 1 && bound >= tempSize + otherSize - 1
    ensures Rounds(tempSize, otherSize, false, 2, bound) == tempSize + otherSize - 1
  {
    SeparateRoundsFrom(tempSize, otherSize, 2, bound);
  }
}
