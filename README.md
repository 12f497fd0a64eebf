# BigInt: arbitrary-precision integers in base 10^9

This project models the Java class `BigInt` (BigInt.java), a signed integer of
any size. The magnitude is kept as limbs, each a value in [0, 10^9), stored
most significant first in the middle of an `int[]`. Limbs are prepended at the
front. When no slot is free in front, the array doubles and the live limbs are
copied to a quarter of the new length. The class parses decimal strings, renders itself as a string (plain
or padded to a fixed width), copies itself, and adds or multiplies in place.

The model is imperative where the class is. `BigInts.BigInt` is a Dafny class
with the same fields: `sign`, `con: array<int>`, `size`, `start` and
`firstComplete`. Its methods update those fields as the Java methods do, except
`multiply` with the receiver as its own argument, which is modelled as corrected
(see "## Left out" and "## Findings"). The
ghost function `Contents()` gives the live limbs `con[start..start+size]`, and
`Magnitude()` gives their value. Every method is proved against pure
specification functions in four modules:

- `Limbs`: the value of a limb sequence, `Value`, and the limb of a given significance, `Digit`.
- `Decimal`: digit strings, `Dec` (the integer a digit string spells), `DecimalString` (`Integer.toString` of a non-negative int) and `Log10Digits`, which is `(int)Math.log10(i) + 1`.
- `Numerals`: what the String constructor accepts (`IsNumeral`), how it groups digits into limbs (`Chunks`), and what `toString` and `printDigits` produce (`Render`, `FixedWidth`).
- `Convolution`: the schoolbook product that `multiply` accumulates position by position, and the bounds that keep its `long` arithmetic in range.

How Java constructs are represented:

- An exception becomes a `Fail`/`Err` value that carries the Java message, from module `Errors`. Every method that can throw leaves the object unchanged when it does.
- A String argument that may be null is an `Option<string>`.
- A BigInt argument that may be null is a `BigInt?`.
- The locals `sum` and `carry` of `add` have type `Int32`, and the locals `newDigit` and `carry` of `multiply` have type `Int64`. Both are newtypes, so every value those four locals take is proved to fit its Java type. Other `int` values are unbounded here (see "## Left out").
- A Java loop whose body is long is written as a Dafny loop whose body calls a method for one round. Examples are `AddRound`, `PrependLimb`, `MultiplyPosition` and `AddTerm`. Each such method states the loop invariant before and after its round.

Java quirks are kept as the code has them:

- `toString()` of a BigInt with no limbs is `"0"`, whatever its sign.
- `copy()` of such a BigInt therefore holds one limb 0 and is positive.
- The String constructor leaves `sign` at Java's default `false` for a leading `'-'`. The string `"-"` parses to a negative BigInt with no limbs.
- `(int)Math.log10(0) + 1` is -2147483647: the double -Infinity is cast to `Integer.MIN_VALUE`.
- `multiply` gives every position a limb, so leading zero limbs are kept, for example when one factor is 0.

## Model

| member | source | states |
|---|---|---|
| BigInts.BigInt.constructor | BigInt.java:32-38 | The default BigInt is positive with no limbs, in a fresh array of DEFAULT_SIZE slots, and its start is in the middle. |
| BigInts.BigInt.Parse | BigInt.java:46-79 | Parsing succeeds exactly for a non-null, non-empty numeral. A null or empty string and a malformed string each fail with the constructor's message. On success the BigInt's sign, limbs, firstComplete and value are those of the numeral's digits. |
| BigInts.BigInt.FromNumeral | BigInt.java:54-79 | For a valid numeral: the sign is false exactly when it starts with '-'. The limbs are the digits cut into groups of nine from the right. The limb count is ⌈digits/9⌉. The value is the decimal value of the digits. firstComplete is the length of the leading group. |
| BigInts.BigInt.PrependDigits | BigInt.java:67-78 | After both phases of the String constructor, the limbs are the digit groups and firstComplete is the leading group's length (0 for no digits). |
| BigInts.BigInt.PrependGroups | BigInt.java:67-74 | The whole-group loop stops with fewer than nine digits left in front. The digits consumed are a multiple of nine, and the limbs are exactly their groups. |
| BigInts.BigInt.PrependChunk | BigInt.java:70-72 | Prepending the parsed group num[i..j] to the limbs of num[j..] gives the limbs of num[i..]. |
| BigInts.BigInt.StringIsInt | BigInt.java:340-355 | The result is true exactly when the first character is '-' or a digit and every later character is a digit. |
| BigInts.BigInt.Get | BigInt.java:275-284 | The result is the limb at that index counted from the most significant end, and 0 for any index outside [0, size). It is always a limb. |
| BigInts.BigInt.InsertStart | BigInt.java:290-301 | Fails, changing nothing, exactly when the value is not in [0, 10^9). Otherwise the limbs become [i] + the old limbs and firstComplete becomes (int)log10(i)+1. The array is reused with start one lower, or doubled when start was 0. |
| BigInts.BigInt.PushFront | BigInt.java:297-299 | With a free slot in front, the limb goes in that slot of the same array and start drops by one. The limbs become [i] + the old limbs. |
| BigInts.BigInt.Resize | BigInt.java:324-332 | The array doubles, start becomes a quarter of the new length (never 0), and the limbs, sign and firstComplete stay the same. |
| BigInts.BigInt.Clear | BigInt.java:261-267 | The state becomes the default constructor's state: positive, no limbs, firstComplete 0, a fresh array. |
| BigInts.BigInt.NumDigits | BigInt.java:113-115 | When firstComplete is the leading limb's digit count, the result is the length of the unsigned decimal rendering. |
| BigInts.BigInt.ToString | BigInt.java:120-139 | The result is Render of the sign and the limbs: "0" for no limbs; otherwise an optional '-', the leading limb in plain decimal, and each later limb padded to nine digits. |
| BigInts.BigInt.AppendLimbs | BigInt.java:131-137 | The outer loop appends the nine-digit padding of every limb after the leading one, in order. |
| BigInts.BigInt.AppendPadded | BigInt.java:132-136 | For a limb x, the inner loop appends exactly Pad9(x): zeros up to nine characters, then Integer.toString(x). |
| BigInts.BigInt.PrintDigits | BigInt.java:146-167 | Fails with the width message exactly when numDigits <= getNumDigits(). Otherwise the result is FixedWidth: ' ' or '-', then zeros, then the unsigned digits. |
| BigInts.BigInt.AppendZeros | BigInt.java:162-164 | The loop appends max(0, numDigits - len) zeros. |
| BigInts.BigInt.Copy | BigInt.java:254-256 | The copy is fresh and has the same value. It has the same limbs, or [0] when there are none. Its sign is the original sign, or positive for no limbs. firstComplete is the leading limb's digit count. |
| BigInts.BigInt.Add | BigInt.java:174-206 | Fails, changing nothing, exactly on a null argument (null message) or differing signs (signs message). Otherwise the magnitude becomes the sum of the two old magnitudes and the sign is unchanged. The size is max(size, other.size), plus one exactly when the sum reaches 10^9 to that power. firstComplete changes only when a limb was prepended. |
| BigInts.BigInt.AddMagnitudes | BigInt.java:182-205 | Both loops and the final carry together give the sum of the magnitudes and the size rule, also when other is this. |
| BigInts.BigInt.AddOverlap | BigInt.java:184-192 | After the first loop, the limbs plus carry·B^size equal the old magnitude plus other's size least significant limbs, and the carry is 0 or 1. |
| BigInts.BigInt.AddRound | BigInt.java:184-192 | One round of the first loop keeps the invariant: the i+1 rewritten limbs plus the carry account for both operands' i+1 least significant limbs. |
| BigInts.BigInt.AddLimb | BigInt.java:185-191 | The limb written plus carry·10^9 equals this limb plus other's limb plus the incoming carry. Only that slot changes. |
| BigInts.BigInt.Reduce | BigInt.java:187-190 | The reduction loop leaves a limb and a carry of 0 or 1 whose carry·10^9 + limb is the input. |
| BigInts.BigInt.SetLimb | BigInt.java:191 | The write changes exactly that limb. |
| BigInts.BigInt.AddRest | BigInt.java:194-202 | The second loop extends this to other's size. The limbs plus carry·B^size become the old value plus other's whole value. firstComplete tracks the last prepended limb. |
| BigInts.BigInt.PrependLimb | BigInt.java:195-201 | One round of the second loop: other's next limb plus the carry, reduced, is prepended, and the value relation moves up one limb. |
| BigInts.AddStep | BigInt.java:185-191 | The limb written below the new carry accounts for both limbs of significance i and the incoming carry. |
| BigInts.RestStep | BigInt.java:195-201 | The same as AddStep for the second loop, where this has no limb of that significance. |
| BigInts.FinalCarry | BigInt.java:203-205 | A final carry of 1 happens exactly when the sum is at least B^size, and prepending it gives the sum. |
| BigInts.BigInt.Multiply | BigInt.java:213-246 | Fails, changing nothing, exactly on a null argument. Otherwise the magnitude becomes the product of the old magnitudes. When other is this, that is the corrected behaviour, not the code as written (see Findings). The sign is temp.sign == other.sign, where the copy of an empty BigInt is positive. The size is the number of positions plus one limb per base-10^9 digit of the final carry. firstComplete is the leading limb's log10 count. |
| BigInts.BigInt.MultiplyInto | BigInt.java:217-245 | After clearing, the product of the copy and the factor is stored, with the sign rule and the limb count. |
| BigInts.BigInt.MultiplyPositions | BigInt.java:220-236 | The outer loop fills |T|+|O|-1 positions. The limbs plus carry·B^size equal the weighted schoolbook sum ConvSum, and the carry never exceeds |O|·(10^9-1). |
| BigInts.BigInt.MultiplyPosition | BigInt.java:221-235 | One position: the incoming carry plus position i-2's products is split into the limb prepended and the carry passed on, and the carry bound is kept. |
| BigInts.BigInt.PositionSum | BigInt.java:221-233 | The inner loop leaves carry·10^9 + newDigit equal to the incoming carry plus all the products of position i-2, with neither overflowing a long. |
| BigInts.BigInt.AddTerm | BigInt.java:225-232 | Adding one limb product stays below 9·10^18. The 8·10^18 fold keeps carry·10^9 + newDigit and brings newDigit back below the threshold. |
| BigInts.BigInt.MultiplyCarry | BigInt.java:238-244 | The extra-digit loop prepends one limb per base-10^9 digit of the carry, and the magnitude reaches the whole product. |
| BigInts.ProductSplit | BigInt.java:220-244 | Once all positions are filled, the limbs and the carry make up the product, and the carry is the part of the product above those limbs. |
| BigInts.FoldBound | BigInt.java:228-234 | Moving newDigit's upper part into the carry keeps carry·10^9 + newDigit, and the carry stays within |O|·(10^9-1). |
| BigInts.PositionStep | BigInt.java:234-235 | The limb prepended and the carry passed on account for the position's products and the incoming carry. |
| BigInts.CarryLimbStep | BigInt.java:238-241 | One round of the extra-digit loop keeps the total and uses up one base-10^9 digit of the carry. |
| BigInts.WideBound | BigInt.java:220-226 | An int-sized count of limbs times (10^9-1) stays below the 8·10^18 fold threshold. |
| BigInts.PrependGroup | BigInt.java:69-73 | A group of at most nine digits is a limb, and it is the first chunk of num[i..]. |
| BigInts.LeadingGroups | BigInt.java:75-78 | The leftover in front of the whole groups is exactly the leading group's length. |
| Convolution.ConvSumProduct | BigInt.java:220-236 | The schoolbook identity: the positions weighted by powers of 10^9 add up to the product of the two values. |
| Convolution.PartialConvBound | BigInt.java:223-233 | Each position sums at most |O| limb products, each at most (10^9-1)^2. |
| Convolution.CarryBound | BigInt.java:234 | If the incoming carry is at most m·(10^9-1), so is the carry out of a position with at most m products. |
| Convolution.AccumulatorBound | BigInt.java:225-231 | Below 8·10^18, adding one limb product stays below 9·10^18, which is below Long.MAX_VALUE. |
| Convolution.LimbProduct | BigInt.java:225-226 | A product of two limbs lies in [0, (10^9-1)^2]. |
| Numerals.ChunksValue | BigInt.java:67-78 | The groups of a digit string are limbs, there are ⌈n/9⌉ of them, and their value is the string's decimal value. |
| Numerals.ChunksSplit | BigInt.java:69-74 | Cutting from the right: the groups of x + y, with |y| a multiple of nine, are the groups of x followed by those of y. |
| Numerals.DigitsOf | BigInt.java:54-61 | The digits of a numeral are all digits, with the '-' dropped when present. |
| Numerals.LeadingLength | BigInt.java:73-77 | firstComplete after parsing: 0 for no digits, otherwise between 1 and 9. |
| Numerals.DigitsProps | BigInt.java:120-139 | The unsigned rendering has 9·(size-1) + |toString(leading)| digits, spells the magnitude, and parses back to the same limbs. |
| Numerals.DigitsChunks | BigInt.java:129-137 | Parsing toString's digits gives back exactly the limbs. |
| Numerals.CanonicalRoundTrip | BigInt.java:120-139 | A digit string without a leading zero is exactly the rendering of its own groups. |
| Numerals.ParseRender | BigInt.java:46-139 | toString of a parsed canonical numeral gives back the numeral. |
| Numerals.LeadingLengthCanonical | BigInt.java:113-115 | For a canonical numeral, firstComplete is the leading limb's digit count, so getNumDigits() is the digit count. |
| Numerals.RenderNumeral | BigInt.java:254-256 | toString's output is always a numeral. It starts with '-' exactly for a negative BigInt with limbs, and it parses back to the same limbs, or to [0] for none. |
| Numerals.FixedWidthProps | BigInt.java:146-167 | printDigits' string is a sign character followed by max(n, digits) digits whose value is the magnitude. |
| Numerals.UnsignedRender | BigInt.java:158-161 | Dropping a leading '-' from toString leaves the unsigned digits. |
| Numerals.RenderParts | BigInt.java:121-137 | toString is the sign, the leading limb and the padded later limbs. |
| Numerals.Pad9Digits | BigInt.java:132-136 | A padded limb has nine digits, spells the limb, and parses back to it. |
| Numerals.PaddedLimbsProps | BigInt.java:131-137 | The padded later limbs have 9 digits each, spell their value, and parse back to the same limbs. |
| Decimal.DecOfDecimalString | BigInt.java:70-71 | Integer.parseInt of Integer.toString(n) is n. |
| Decimal.CanonicalOfDec | BigInt.java:129 | Integer.toString of the value of a digit string without leading zero is that string. |
| Decimal.PaddedOfDec | BigInt.java:132-136 | Padding the value of a w-digit string to w digits gives back the string. |
| Decimal.Log10DigitsBracket | BigInt.java:300 | For i >= 1, (int)log10(i)+1 is the d with 10^(d-1) <= i < 10^d. |
| Limbs.ValuePrepend | BigInt.java:297-299 | Prepending the limb x adds x·B^size to the value. |
| Aliasing.Rounds | BigInt.java:220 | The rounds the guard admits, counted up to a bound. other.size grows by one per round when other is the receiver and stays fixed otherwise. The count never exceeds the bound, and with a separate other it never exceeds temp.size + other.size + 1 - i. |
| Aliasing.AliasedNeverEnds | BigInt.java:219-220 | With other == this and a copy of two or more limbs, the outer loop of the code as written runs for any number of rounds. |
| Aliasing.AliasedSingleLimb | BigInt.java:219-220 | With other == this and a one-limb copy x, the code as written runs no round and leaves value 0, not x·x. |
| Aliasing.SeparateRounds | BigInt.java:220 | With a separate factor, the outer loop runs exactly temp.size + other.size - 1 rounds. |

## Left out

- makeRandom (BigInt.java:361-378), the random-digit constructor (103-106) and insertEnd (307-317) are not modelled. They depend on `Math.random`, and insertEnd is never called.
- The `Long` and `Integer` constructors (86-97) are not modelled. They pass `l.toString()` / `i.toString()` to the String constructor, which `Parse` models. Java's `Long.toString` is not part of this model.
- The double arithmetic of `Math.pow` and `Math.log10` is written out as exact integers. `sum >= Math.pow(10, 9)` and `i >= Math.pow(10, 9)` are exact for `int` operands. `newDigit >= 8 * Math.pow(10, 18)` converts a long to double, which can round a value up to 512 below 8·10^18 up to the threshold. The model folds at exactly 8·10^18. A fold keeps carry·10^9 + newDigit either way.
- Java's `int` width of `size`, `start`, array lengths, `getNumDigits()` and `printDigits`' `long` width are unbounded integers here. So are the loop counters `i` of `add`'s two loops and of `multiply`'s outer loop, `j` of `multiply`'s inner loop, the index expressions `size - 1 - i` and `temp.size - (i - j)`, and `multiply`'s guard sum `temp.size + other.size + 1`, which in Java wraps once the two sizes together pass 2^31 - 2. Overflow of any of these, from more than 2^31 limbs, or from doubling an array past `Integer.MAX_VALUE`, is not modelled.
- BigInts.BigInt.Multiply: when `other` is the receiver itself, the model multiplies by the copy `temp`, the evidently intended behaviour. The Java code as written loops forever for two or more limbs and leaves an empty receiver for one limb (see "## Findings"). That as-written behaviour is modelled only through the round count `Aliasing.Rounds` of the loop guard, not as a state change of `BigInt`.
- BigInts.BigInt.Multiply: requires `other.size <= 2^31 - 1`, which Java's `int` field guarantees. The proof that the `long` accumulator never overflows depends on it.
- BigInts.BigInt.Add: requires that `other` is `this` or owns a different array. In Java each BigInt allocates its own private array and never shares it.
- BigInts.BigInt.StringIsInt: requires a non-empty string. Its only caller, the String constructor, rejects the empty string first. Java would throw `StringIndexOutOfBoundsException` otherwise.
- BigInts.BigInt.NumDigits: states the digit count only when `firstComplete` is the leading limb's digit count. The model computes `9·(size-1) + firstComplete` in every state, as Java does, but does not characterise it in the states where that condition fails:
  - a leading zero limb written by `insertStart(0)`, which sets `firstComplete` to -2147483647, so `getNumDigits()` is 9·(size-1) - 2147483647. Examples: `multiply` by 0 (10^9 × 0 leaves [0, 0] and -2147483638), and `add`'s second loop prepending a zero leading limb of `other`;
  - `add` producing a longer leading limb without a carry limb, where `firstComplete` is not updated. 5 + 5 leaves the limb 10 with `firstComplete` 1;
  - a numeral with leading zeros. "0001" gives the limb 1 with `firstComplete` 4, and eighteen digits starting with nine zeros give the leading limb 0 with `firstComplete` 9.
- The String constructor is a static method `Parse` that returns a `Result`, because a Dafny constructor cannot fail. `FromNumeral` is the constructor body once the checks have passed.

## Findings

| source | as written | input that shows it | evidently intended | confidence | as-written member | corrected member |
|---|---|---|---|---|---|---|
| BigInt.java:217-220 | When `other == this`, the loop guard `i < temp.size + other.size + 1` and `get(other, …)` read the receiver. `clear()` has just emptied the receiver, and each round prepends one limb to it, so `other.size` grows with `i`. | `x.multiply(x)` with x = 10^9 (two limbs): the guard never fails and the loop only stops when memory runs out. | Multiply by the receiver's old value, that is, use the copy `temp` as the factor when `other == this`. | not executed | Aliasing.AliasedNeverEnds | BigInts.BigInt.Multiply |
| BigInt.java:217-220 | With a one-limb receiver, the same aliasing makes the guard `2 < 1 + 0 + 1` false at once. | `x.multiply(x)` with x = 5 leaves x with no limbs, so its value is 0 and `toString()` is "0". | 25 | not executed | Aliasing.AliasedSingleLimb | BigInts.BigInt.Multiply |
