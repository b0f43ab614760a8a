# A verified model of the ClickHouse base layer

Dafny models of the algorithms that the rest of the system takes on trust: the pattern-defeating quicksort, wide
integers, decimal printing, the comparison of floats with integers, the PCG random generators, consistent hashing, the
lazy JSON reader and the borrowed object pool. Each model follows the code it stands for, branch by branch; the proofs
say what the code is for. `dafny verify dfyconfig.toml` checks everything.

## Layout

| files | models |
|---|---|
| `Order`, `InsertionSorts`, `Partition`, `BlockPartition`, `PdqCost`, `PdqSort`, `PdqTrySort` | `contrib/pdqsort/pdqsort.h`: in-place methods on an array, proved sorted, permuting and, apart from the comparisons of heap sort, O(n log n) for every strict weak order, and O(n) on ascending and on all-equal input |
| `Limbs`, `WideAddSub`, `WideShift`, `WideMul`, `WideDiv`, `WideSigned`, `WideText`, `WideHex` | `base/base/wide_integer_impl.h` and `wide_integer_to_string.h`: little-endian 64-bit limbs in any number, proved against the integers they denote |
| `Decimal`, `Itoa`, `ItoaWide` | `base/base/itoa.cpp`: fixed-point digit extraction into a character buffer, proved to write exactly the canonical text |
| `FloatCompare` | `base/base/DecomposedFloat.h`: comparison of IEEE 754 bit patterns with integers, proved against the real values |
| `Bits`, `Pcg`, `PcgDistance`, `PcgPeriod`, `PcgOutput`, `PcgTruncated`, `PcgBitwise`, `PcgBounded`, `PcgEngine` | `base/pcg-random`: jump-ahead, distance, period, invertible output, every output function bit by bit, unbiased bounded numbers, and the engine with its mutable state |
| `ConsistentHash`, `ConsistentParts`, `ConsistentBalance`, `ConsistentCrowd` | `contrib/consistent-hashing`: each candidate by itself, minimal movement for every n, exact balance at powers of two, and the exact numbers of keys per bucket on the levels where balance breaks down |
| `Json`, `JsonSkip`, `JsonValid`, `JsonReader`, `JsonTruncated` | `base/base/JSON.cpp`: values and their texts, the skip functions with the source's loops, the proofs on well-formed text, the iterator class, and truncated text |
| `PoolProtocol`, `PoolHistory`, `Pool` | `base/base/BorrowedObjectPool.h`: the protocol as interleaved steps of threads, what a run means for one thread, and the class whose critical sections are those steps |
| `Modular`, `Chars`, `Wrappers` | arithmetic, characters and results used by the others |

Exceptions are results of type `Result`, or `Outcome` where the source also has undefined behaviour. Where a loop of the
source works on variables, the model is a method with that loop and its contract names a function; the lemmas are about
the function.

## Findings

* `DecomposedFloat::compare` promises that infinities are compared correctly. For a `float` and a 256-bit integer they
  are not: the exponent of infinity, 128, is below the number of value bits, so infinity is treated as 2^128.
  `FloatCompare.InfinityFails` shows an input, `FloatCompare.InfinityRight` the exact condition.
* `engine::backstep` undoes an advance if and only if the multiplier is odd (`Pcg.BackstepUndoesIffOdd`); all listed
  multipliers are.
* Division by zero throws at every width but 128 bits: there the built-in division comes before the test for zero, and
  C++ leaves it undefined (`WideDiv.ZeroDivisorUndefined`, with the exact condition in `WideDiv.Divide`,
  `WideSigned.Slash` and `Percent`).
* The header of consistent hashing asks for equal probability of all buckets and says that it works up to 32768 buckets
  (2^31 with 128-bit keys). For powers of two the buckets are exactly equally likely (`ConsistentBalance.BalancedKeys`).
  Above 8192 buckets (2^24) the unused bits of a key do not suffice for anything between: the keys that cannot go where
  the next power of two would send them can only reach the first buckets of the upper half. The exact numbers are in
  `ConsistentCrowd.CrowdedCount` and its corollaries. Of 20000 buckets, 64 get more than 39 percent of all keys instead
  of 0.32 (`ConsistentCrowd.TwentyThousand`). That keys only ever move to new buckets holds for every number
  (`ConsistentHash.Growth`).
* The JSON reader promises to read correct JSON correctly, given that it has no whitespace. `skipElement` finds the end
  of an element within the depth if and only if no exponent in it has a plus sign (`JsonValid.ElementReads`): `1e+5` ends
  after two characters (`JsonValid.PlusFails`). An iteration over an array or object sees all children if and only if
  they fit the depth and none but a last number has such an exponent (`JsonReader.Reader.Size`, `Index`): `[1e+5,2]` has
  size 1 (`JsonReader.CutShort`) and `[2,1e+5]` has size 2 (`JsonReader.LastPlus`).

## Model

| member | source | states |
|---|---|---|
| `PdqSort.Pdqsort` | contrib/pdqsort/pdqsort.h:671-702 | for every array and strict weak order, both instantiations end with a sorted permutation of the range and nothing else changed; no element goes through more than log2 n unbalanced partitions, recursion depth is at most 7 log2 n, the elements partitioned or heap-sorted number at most 14 n log2 n, and comparisons outside heap sort at most 70 n log2 n + 12 n; a strictly ascending range takes at most 12 n comparisons, without recursion and without an unbalanced partition, and equivalent elements at most 14 n |
| `PdqSort.PdqSortLoop` | contrib/pdqsort/pdqsort.h:414-505 | sorts and permutes any range, leftmost or preceded by an element not above it; the left recursion is no deeper than the bad-partition budget plus the number of 7/8 shrinkings, no element goes through more unbalanced partitions than the budget allows, the work stays within the allowance, and comparisons outside heap sort are at most five per element of a partitioned range and twelve per element of the whole |
| `PdqSort.PivotReturns` | contrib/pdqsort/pdqsort.h:429-453 | in an ascending range the right partition finds the range already split around the median and puts it back, so that only insertion sorts without inversions follow |
| `PdqSort.NoneSmaller` | contrib/pdqsort/pdqsort.h:448-461 | among equivalent elements a right partition leaves the pivot in front, which counts as unbalanced |
| `PdqSort.Rebalance` | contrib/pdqsort/pdqsort.h:455-497 | an unbalanced partition costs one unit of budget; with the last unit the range is heap sorted, otherwise exactly the listed places are swapped and the split around the pivot is kept; a balanced partition that was not already split changes nothing, and one that was ends the sort exactly when neither side has more than eight inversions |
| `PdqSort.ChoosePivot` | contrib/pdqsort/pdqsort.h:429-436 | the pivot is the median of the first, middle and last element, or above 128 elements the median of the medians of three triples; afterwards some element right of it is not below it, which is what keeps the unguarded scans in bounds; at most twelve comparisons |
| `PdqSort.SortThree` | contrib/pdqsort/pdqsort.h:159-163 | three places end up in order, with the median of the three in the middle one, and no other place changes |
| `PdqSort.HeapSort` | contrib/pdqsort/pdqsort.h:464-465 | the contract of std::make_heap followed by std::sort_heap: a sorted permutation |
| `PdqSort.LeftRound` | contrib/pdqsort/pdqsort.h:443-446 | when the element before the range equals the pivot, the left partition leaves only elements strictly above it to sort, and none of equivalent ones |
| `InsertionSorts.InsertionSort` | contrib/pdqsort/pdqsort.h:79-97 | the range becomes a sorted permutation of itself, with at most n(n+1)/2 comparisons |
| `InsertionSorts.UnguardedInsertionSort` | contrib/pdqsort/pdqsort.h:102-120 | the same without a lower bound on the scan; no index left of the predecessor is read |
| `InsertionSorts.PartialInsertionSort` | contrib/pdqsort/pdqsort.h:126-150 | returns true exactly when the original range has at most eight inversions, and then it is sorted; it is a permutation either way, with at most 2n + 8 comparisons |
| `InsertionSorts.SiftDistance` | contrib/pdqsort/pdqsort.h:137-147 | the distance an element is sifted is its number of inversions with the sorted part |
| `Partition.PartitionRight` | contrib/pdqsort/pdqsort.h:343-380 | pivot position is the number of smaller elements, smaller left, the rest right, the flag is true exactly when the range was already split, and there are at most n + 1 comparisons |
| `Partition.PartitionLeft` | contrib/pdqsort/pdqsort.h:387-410 | pivot position counts the larger elements from the right, larger ones right, the rest left |
| `Partition.FirstPairFlag` | contrib/pdqsort/pdqsort.h:361-363 | the first scans have met exactly when the range was already split |
| `BlockPartition.PartitionRightBranchless` | contrib/pdqsort/pdqsort.h:203-335 | the block partition meets the contract of the plain one: same position, same flag, same split, at most n + 1 comparisons, and nothing but the pivot moved when the range was already split |
| `BlockPartition.SwapOffsets` | contrib/pdqsort/pdqsort.h:177-196 | both forms exchange exactly the listed places: pairwise swaps, or one cycle through all of them |
| `BlockPartition.ExchangeBlocks` | contrib/pdqsort/pdqsort.h:270-276 | also when the scans have crossed and both lists are empty: after an exchange every place before the left bound is below the pivot and every place after the right bound is not, and one of the lists is used up |
| `BlockPartition.FillLeft` | contrib/pdqsort/pdqsort.h:240-253 | the left list holds exactly the offsets of elements not below the pivot, in increasing order |
| `BlockPartition.FillRight` | contrib/pdqsort/pdqsort.h:254-267 | the right list holds exactly the offsets of elements below the pivot, in increasing order |
| `BlockPartition.BlockLoop` | contrib/pdqsort/pdqsort.h:238-277 | the loop keeps the invariant of the two blocks and ends with at most two blocks between the bounds |
| `BlockPartition.FinishBlocks` | contrib/pdqsort/pdqsort.h:279-327 | the last fills, exchange and moves split the rest, also when the scans have crossed |
| `PdqTrySort.TrySort` | contrib/pdqsort/pdqsort.h:705-737 | always a permutation, true only for a sorted range, and true for every ascending range; false exactly if the range looks hopeless, or the last attempt leaves less than an eighth of its elements on one side of its pivot, or three attempts have not been enough; all counts are counts of the original elements |
| `PdqTrySort.TrySortLoop` | contrib/pdqsort/pdqsort.h:508-630 | the same for the loop: a call that may still give up does so exactly for the reason its attempts give, each on the elements below the pivot before; once sorting is forced no call below it fails, even after the iteration counter wraps |
| `PdqTrySort.TryRightRound` | contrib/pdqsort/pdqsort.h:553-627 | one round with its pivot in front: without force it gives up on a lopsided partition, and it is complete exactly if the partition is lopsided, forced and the last one allowed, or balanced, already split and with at most eight inversions on each side |
| `PdqTrySort.Reasons` | contrib/pdqsort/pdqsort.h:519-521 | there are two reasons for giving up, and all attempts but the last were neither lopsided nor enough |
| `PdqTrySort.LeftCount` | contrib/pdqsort/pdqsort.h:612-620 | for an element left of the pivot, counting the smaller ones there is counting them in the whole range |
| `PdqTrySort.LooksHopeless` | contrib/pdqsort/pdqsort.h:640-663 | hopeless exactly when the range has more than 160 elements and the set of sample points among fifteen that fit neither a rising nor a falling run has more than three members |
| `PdqTrySort.SampleMisfit` | contrib/pdqsort/pdqsort.h:648-656 | which three places a sample point looks at, all of them inside the range |
| `PdqTrySort.AscendingHasHope` | contrib/pdqsort/pdqsort.h:640-663 | an ascending range is never hopeless |
| `PdqCost.Log2` | contrib/pdqsort/pdqsort.h:71-75 | the shifting loop computes floor(log2 n) |
| `PdqCost.FloorLog2IsFloor` | contrib/pdqsort/pdqsort.h:69-75 | that number is the exponent of the largest power of two not above n |
| `PdqCost.ShrinksLogarithmic` | contrib/pdqsort/pdqsort.h:456-461 | a size can shrink to 7/8 at most 6 log2 n times before it is below the insertion sort threshold |
| `PdqCost.SplitPays` | contrib/pdqsort/pdqsort.h:456-461 | a partition and the two allowances that remain fit into the allowance of the range |
| `PdqCost.TopAllowance` | contrib/pdqsort/pdqsort.h:671-678 | the allowance of a top-level call is at most 14 n log2 n |
| `Pcg.Advance` | base/pcg-random/pcg_random.hpp:636-662 | jump-ahead by repeated squaring equals that many single steps, for every word width |
| `Pcg.BackstepUndoesIffOdd` | base/pcg-random/pcg_random.hpp:456-459 | advancing by the wrapped negative undoes an advance for all states and distances if and only if the multiplier is odd |
| `Pcg.BackstepFails` | base/pcg-random/pcg_random.hpp:456-459 | for an even multiplier a concrete state that is not recovered |
| `Pcg.IteratePow2` | base/pcg-random/pcg_random.hpp:636-662 | 2^k steps are one affine step with the squared coefficients |
| `PcgDistance.Distance` | base/pcg-random/pcg_random.hpp:667-685 | the loop ends within the word width, its internal assertion holds in every round, and stepping by the result reaches the target (under the mask), for LCGs with multiplier 1 mod 4 and odd increment and for multiplicative generators with multiplier 5 mod 8 and low bits 3 |
| `PcgPeriod.PeriodExact` | base/pcg-random/pcg_random.hpp:407-410 | a state recurs exactly after multiples of 2^w steps for an LCG and of 2^(w-2) for a multiplicative generator |
| `PcgPeriod.Reaches` | base/pcg-random/pcg_random.hpp:407-410 | every state reaches every other within the period |
| `PcgPeriod.DistanceUnique` | base/pcg-random/pcg_random.hpp:667-685 | no smaller or other distance below the period leads to the same state |
| `PcgPeriod.DefaultPeriod` | base/pcg-random/pcg_random.hpp:157-172 | the default constants of all five widths have the full period |
| `PcgOutput.UnXorShiftInverts` | base/pcg-random/pcg_extras.hpp:263-280 | unxorshift undoes a right xorshift of any amount |
| `PcgOutput.XorShiftInverts` | base/pcg-random/pcg_extras.hpp:263-280 | and is a right inverse too, so the xorshift is a permutation of the words |
| `PcgOutput.UnoutputInverts` | base/pcg-random/pcg_random.hpp:920-960 | unoutput undoes RXS-M-XS, whose bits RxsMXsBits gives, at every width from 8 bits on, if the two multipliers are inverse |
| `PcgOutput.OutputInverts` | base/pcg-random/pcg_random.hpp:920-960 | the output function is onto: every word is the output of its unoutput |
| `PcgBitwise.RxsMXsBits` | base/pcg-random/pcg_random.hpp:920-939 | RXS-M-XS bit by bit at 8 to 128 bits: bit i joins bits i and i + 6, 11, 22, 43 or 86 of the product, whose factor joins bits of the state at a distance of 2 to 6 plus the number in as many top bits |
| `PcgBitwise.XshRsBits` | base/pcg-random/pcg_random.hpp:785-810 | XSH-RS bit by bit, with the xorshift, the window and the shift by the top bits as numbers for each width |
| `PcgBitwise.XshRrBits` | base/pcg-random/pcg_random.hpp:818-847 | XSH-RR bit by bit, with the xorshift, the window and the rotation by the top bits as numbers for each width |
| `PcgBitwise.XslRrBits` | base/pcg-random/pcg_random.hpp:994-1022 | XSL-RR bit by bit: the two halves of the state joined, rotated by the number in the top 3 to 6 bits |
| `PcgBitwise.XslRrRrBits` | base/pcg-random/pcg_random.hpp:1038-1071 | XSL-RR-RR bit by bit: below as XSL-RR, above the high half rotated by the low bits of the result |
| `PcgBitwise.XslRrReaches` | base/pcg-random/pcg_random.hpp:994-1022 | with any high half of the state, XSL-RR reaches every output |
| `PcgBitwise.XslRrInjective` | base/pcg-random/pcg_random.hpp:994-1022 | and reaches it from one low half only, so that all outputs are equally frequent |
| `PcgBitwise.XslRrRrInjective` | base/pcg-random/pcg_random.hpp:1025-1071 | XSL-RR-RR is invertible, as its comment says: different states have different outputs |
| `PcgOutput.ListedMultipliers` | base/pcg-random/pcg_random.hpp:901-916 | each listed multiplier and unmultiplier are inverse modulo their word size |
| `PcgBounded.Unbiased` | base/pcg-random/pcg_extras.hpp:452-463 | among the accepted raw words every result below the bound has exactly floor(2^w / bound) preimages |
| `PcgBounded.HitsCountsSet` | base/pcg-random/pcg_extras.hpp:452-463 | the count used for this is the cardinality of the set of those words |
| `PcgEngine.Engine.BoundedRand` | base/pcg-random/pcg_extras.hpp:452-463 | for every output function and result width: if some valid state has an accepted output the rejection loop ends within one period, returns the first accepted output modulo the bound, and has rejected all outputs before it |
| `PcgEngine.Engine.BoundedHalf` | base/pcg-random/pcg_random.hpp:433-436 | for XSH-RS, XSH-RR and XSL-RR, hence for pcg32, pcg64 and their variants, it always ends within one period |
| `PcgEngine.NeverAccepted` | base/pcg-random/pcg_extras.hpp:458-462 | and if no valid state has one, no draw is ever accepted |
| `PcgEngine.RxsAccepts` | base/pcg-random/pcg_extras.hpp:458-462 | RXS-M-XS on a generator with an increment always has one |
| `PcgTruncated.HalfAccepts` | base/pcg-random/pcg_random.hpp:785-1027 | each of these output functions reaches the largest word from a state of every generator, multiplicative ones included |
| `PcgTruncated.XshRsLargest` | base/pcg-random/pcg_random.hpp:785-810 | for XSH-RS, whatever the random shift |
| `PcgTruncated.XshRrLargest` | base/pcg-random/pcg_random.hpp:818-845 | for XSH-RR |
| `PcgTruncated.XslRrLargest` | base/pcg-random/pcg_random.hpp:994-1022 | for XSL-RR, where the low bits count too |
| `PcgTruncated.FullAccepts` | base/pcg-random/pcg_random.hpp:1038-1072 | for XSL-RR-RR, on generators with an increment |
| `PcgTruncated.BitRotr` | base/pcg-random/pcg_extras.hpp:304-313 | a rotation moves bit i + rot to bit i |
| `PcgEngine.Engine.Generate` | base/pcg-random/pcg_random.hpp:425-431 | one step, and the output of the old or the new state |
| `PcgEngine.Engine.constructor` | base/pcg-random/pcg_random.hpp:478-497 | a seed gives a state on the full-period orbit; a multiplicative generator gets low bits 3 |
| `PcgEngine.Engine.SetStream` | base/pcg-random/pcg_random.hpp:328-331 | every stream number gives an odd increment, so the generator keeps its full period |
| `PcgEngine.StreamNumber` | base/pcg-random/pcg_random.hpp:323-331 | the increment of a stream is 2 stream + 1 modulo 2^w, and stream() gives back the stream modulo 2^(w-1) |
| `PcgEngine.StreamsDistinct` | base/pcg-random/pcg_random.hpp:328-331 | two streams have the same increment exactly if they agree modulo 2^(w-1) |
| `PcgEngine.Engine.BaseGenerate0` | base/pcg-random/pcg_random.hpp:417-422 | returns the old state and moves one step |
| `PcgEngine.Engine.AdvanceBy` | base/pcg-random/pcg_random.hpp:451-454 | moves the state the given number of steps |
| `PcgEngine.Engine.Backstep` | base/pcg-random/pcg_random.hpp:456-459 | stepping forward again by the same number gives the old state |
| `PcgEngine.Engine.DistanceTo` | base/pcg-random/pcg_random.hpp:445-448 | a number of steps below the period that reaches the target's bits under the mask; under the full mask the least number of steps to the target |
| `WideAddSub.Plus` | base/base/wide_integer_impl.h:541-570 | the limb loop with its overflow flags adds modulo 2^Bits, for any limb counts |
| `WideAddSub.Minus` | base/base/wide_integer_impl.h:508-537 | and subtracts modulo 2^Bits |
| `WideAddSub.Negate` | base/base/wide_integer_impl.h:684-688 | complement plus one is the negation modulo 2^Bits |
| `WideShift.ShiftLeft` | base/base/wide_integer_impl.h:416-440 | multiplies by 2^n modulo 2^Bits for every n below the width |
| `WideShift.ShiftRight` | base/base/wide_integer_impl.h:443-481 | divides by 2^n, filling the top with ones for a negative number |
| `WideSigned.ArithmeticShift` | base/base/wide_integer_impl.h:443-481 | that fill makes it the floor division of the signed value |
| `WideMul.Multiply` | base/base/wide_integer_impl.h:574-672 | every branch computes the product modulo 2^Bits |
| `WideMul.MultiplyHalves` | base/base/wide_integer_impl.h:576-619 | the split into halves with its two carry corrections yields the limbs of the product modulo b^4, for any limb base b and a right operand of one, two or four limbs |
| `WideMul.Multiply128` | base/base/wide_integer_impl.h:620-630 | the 128-bit branch |
| `WideMul.MultiplyGeneric` | base/base/wide_integer_impl.h:631-671 | the loop over windows of up to three bits with the precomputed 3x and 7x, for any limb count |
| `WideMul.AddWindow` | base/base/wide_integer_impl.h:643-667 | one window adds its multiple, shifted to its place |
| `WideSigned.Star` | base/base/wide_integer_impl.h:727-747 | product of the signed values modulo 2^Bits for all sign combinations |
| `WideDiv.Divide` | base/base/wide_integer_impl.h:883-930 | N = q d + r with r < d for every nonzero divisor of any limb count; a zero divisor throws if and only if there are not exactly two limbs, and is undefined behaviour otherwise |
| `WideDiv.Divide128` | base/base/wide_integer_impl.h:887-904 | the built-in branch: the same identity, undefined exactly for a zero divisor |
| `WideDiv.ZeroDivisorUndefined` | base/base/wide_integer_impl.h:887-906 | 128-bit 1 / 0 reaches the built-in division, since the test for zero comes after that branch |
| `WideDiv.DivideRound` | base/base/wide_integer_impl.h:918-928 | one shift-subtract round keeps N = q d + r and halves the bound on r |
| `WideDiv.GreaterUnsigned` | base/base/wide_integer_impl.h:756-779 | limb-wise comparison from the top is comparison of the numbers |
| `WideDiv.Pipe` | base/base/wide_integer_impl.h:831-845 | limb-wise or is the bitwise or of the numbers |
| `WideSigned.Slash` | base/base/wide_integer_impl.h:934-950 | the quotient truncated toward zero, where only the most negative number divided by -1 wraps; a zero divisor throws except at 128 bits, where it is undefined |
| `WideSigned.Percent` | base/base/wide_integer_impl.h:954-971 | the remainder of the truncated division, with the sign of the dividend, the most negative operand included; a zero divisor as for the quotient |
| `WideSigned.TruncDivision` | base/base/wide_integer_impl.h:934-971 | quotient and remainder of these two operators fit together, and the remainder is smaller than the divisor and has the sign of the dividend |
| `WideSigned.Greater` | base/base/wide_integer_impl.h:756-779 | comparison of the signed values |
| `WideSigned.Less` | base/base/wide_integer_impl.h:782-805 | comparison of the signed values |
| `WideText.ToString` | base/base/wide_integer_to_string.h:14-36 | the canonical decimal text of the signed or unsigned value, zero and the most negative value included |
| `WideText.FromStr` | base/base/wide_integer_impl.h:993-1046 | an error exactly if ParseText gives one, otherwise its value modulo 2^Bits; ParseText is what the WideHex lemmas say |
| `WideText.ReadDigits` | base/base/wide_integer_impl.h:1003-1040 | multiply-and-add reads the number the digits denote, modulo 2^Bits |
| `WideText.ParseInvertsText` | base/base/wide_integer_impl.h:993-1046 | reading the canonical text of a number gives the number |
| `WideText.RoundTrip` | base/base/wide_integer_impl.h:993-1046 | from_str after to_string returns the same limbs at every width it supports |
| `WideHex.ParseTextIs` | base/base/wide_integer_impl.h:993-1046 | a text of digits, decimal or after 0x or 0X hexadecimal, with a minus sign for signed types, denotes the sum of its digits times powers of the base, leading zeros and no digits at all included |
| `WideHex.ParseFails` | base/base/wide_integer_impl.h:1003-1040 | an error exactly if some character is not a digit of the base |
| `WideHex.DigitCharacters` | base/base/wide_integer_impl.h:1007-1034 | which characters are digits: ten decimal ones, twenty-two hexadecimal ones |
| `WideHex.HexDigitIs` | base/base/wide_integer_impl.h:1007-1026 | a hexadecimal digit is worth its place in 0123456789abcdef, or in the same with capitals |
| `WideHex.DecimalDigitIs` | base/base/wide_integer_impl.h:1033-1037 | a decimal digit is worth its place in 0123456789 |
| `WideHex.SignedText` | base/base/wide_integer_impl.h:997-999 | a minus sign negates what follows for signed types and is an error for unsigned ones |
| `WideHex.ParseInvertsHexText` | base/base/wide_integer_impl.h:1001-1030 | the digits that repeated division by sixteen gives, lower case or capitals, after 0x or 0X and a sign, are read as the number |
| `WideHex.ReadHexText` | base/base/wide_integer_impl.h:993-1046 | from_str returns the limbs of every number of the type for its hexadecimal text, and the residue for others |
| `Decimal.DecRoundTrip` | base/base/wide_integer_to_string.h:27-31 | canonical text has only digits, no leading zero, and denotes its number |
| `Itoa.ToText` | base/base/itoa.cpp:112-288 | for every value of every 8- to 64-bit type the buffer receives exactly the canonical text, nothing before it and nothing behind it |
| `Itoa.TypeHoldsResidue` | base/base/itoa.cpp:111-112 | the numbers ToText accepts are those of a type: exactly one of every residue |
| `Itoa.Digits` | base/base/itoa.cpp:120-287 | the same for the magnitude, branch by branch |
| `Itoa.FixedStep` | base/base/itoa.cpp:135-142 | the integer part of the fixed-point number is the exact quotient, and its fraction approximates the exact remainder again |
| `Itoa.StepPair` | base/base/itoa.cpp:141-142 | one multiplication by a hundred yields the next true pair of digits and fits 64 bits |
| `Itoa.FourDigits` | base/base/itoa.cpp:133-144 | 24-bit fixed point is exact for three and four digits |
| `Itoa.SixDigits` | base/base/itoa.cpp:145-155 | 32-bit fixed point is exact for five and six digits |
| `Itoa.EightDigits` | base/base/itoa.cpp:159-171 | 48-bit fixed point cut to 32 bits is exact for seven and eight digits |
| `Itoa.TenDigits` | base/base/itoa.cpp:172-183 | 57-bit fixed point is exact for nine and ten digits |
| `Itoa.PaddedEight` | base/base/itoa.cpp:278-287 | eight digits with leading zeros, where the added unit makes the rounding exact |
| `Itoa.LongDigits` | base/base/itoa.cpp:186-287 | a number beyond 32 bits, cut into high digits and one or two blocks of eight |
| `Itoa.WrappedNegation` | base/base/itoa.cpp:118 | unsigned negation gives the magnitude of every negative value, the most negative included |
| `ItoaWide.WriteUInt128` | base/base/itoa.cpp:295-338 | the canonical text of every 128-bit number; twenty pairs of scratch suffice |
| `ItoaWide.WriteUInt256` | base/base/itoa.cpp:340-403 | the canonical text of every 256-bit number; thirty-nine pairs of scratch suffice |
| `ItoaWide.SplitBlocks` | base/base/itoa.cpp:314-328 | cutting off blocks of nine pairs leaves a number below the limit, and number and pairs together are the input; the scratch array is never overrun |
| `ItoaWide.StoreBlock` | base/base/itoa.cpp:320-326 | the pairs of a remainder, where stopping at zero leaves the right zeros |
| `ItoaWide.PrintPairs` | base/base/itoa.cpp:331-335 | the pairs from the highest down |
| `ItoaWide.WriteSInt` | base/base/itoa.cpp:412-441 | the canonical text of every signed value, with the stored literal for the most negative one |
| `ItoaWide.MinDigitsRight` | base/base/itoa.cpp:419-433 | the two literals are the digits of 2^127 and 2^255 |
| `FloatCompare.CompareReal` | base/base/DecomposedFloat.h:97-175 | for every bit pattern and every integer of every width the result is -1, 0 or 1 exactly as the real number of IEEE 754 is below, equal to or above the integer (infinities and NaNs taken as the number their bits would denote) |
| `FloatCompare.TypeHoldsResidue` | base/base/DecomposedFloat.h:97 | the integers it covers are those of a type: exactly one of every residue modulo 2^width |
| `FloatCompare.CompareExact` | base/base/DecomposedFloat.h:97-175 | the same as the sign of an integer difference in units of the smallest subnormal |
| `FloatCompare.CompareMagnitudeExact` | base/base/DecomposedFloat.h:143-174 | the octave tests and the comparison inside an octave, with every shift within its word |
| `FloatCompare.LowestGap` | base/base/DecomposedFloat.h:117-134 | the case of the most negative integer |
| `FloatCompare.Fields` | base/base/DecomposedFloat.h:59-72 | the masks extract the exponent and mantissa fields |
| `FloatCompare.MagnitudeZero` | base/base/DecomposedFloat.h:52-57 | sign() is the sign of the value: 0 for both zeros and only for them |
| `FloatCompare.NonFinite` | base/base/DecomposedFloat.h:91-95 | an infinity or NaN compares by its sign if and only if the integer stays below the number its bits would denote |
| `FloatCompare.InfinityRight` | base/base/DecomposedFloat.h:91-95 | infinities are ordered correctly if and only if the integer, taken with their sign, is below 2^(bias+1) |
| `FloatCompare.InfinityFits` | base/base/DecomposedFloat.h:136-138 | hence always for integers of at most bias + 1 bits, which is 128 for float |
| `FloatCompare.DoubleInfinity` | base/base/DecomposedFloat.h:136-138 | and 1024 for double |
| `FloatCompare.InfinityFails` | base/base/DecomposedFloat.h:91-95 | float infinity against a 256-bit integer: 2^128 compares equal and 2^128 + 1 as larger, contrary to the comment |
| `JsonValid.ElementValid` | base/base/JSON.cpp:383-406 | on a well-formed element without a plus sign in an exponent, whatever may follow it, skipElement returns the position right behind it if and only if the element fits the remaining depth, and the depth error otherwise |
| `JsonValid.ElementReads` | base/base/JSON.cpp:383-406 | of all well-formed elements, whitespace excepted, skipElement finds the end of exactly those that fit the depth and have no plus sign in an exponent |
| `JsonValid.ElementDerails` | base/base/JSON.cpp:262-380 | otherwise an array or object is an error and a number ends in front of its plus sign |
| `JsonTruncated.Truncated` | base/base/JSON.h:14 | every proper beginning of the text of a string, array or object is an error, at every depth |
| `JsonTruncated.ElementEndLocal` | base/base/JSON.h:12-14 | the end of an element does not depend on the text after it |
| `JsonTruncated.ElementEndCut` | base/base/JSON.h:12-14 | an element that ends before the cut is read in the truncated text as in the whole one |
| `JsonTruncated.TruncatedChildren` | base/base/JSON.h:14 | an iteration over a truncated array or object finds exactly the children that start before the cut, where they are, and then fails instead of ending |
| `JsonValid.NumberStopsAtPlus` | base/base/JSON.cpp:262-284 | skipNumber ends in front of the plus sign of an exponent |
| `JsonValid.PlusFails` | base/base/JSON.cpp:262-284 | 1e+5 ends after two characters |
| `JsonValid.StringValid` | base/base/JSON.cpp:224-259 | the quote-search fast path and the escape-aware slow path both end right behind a well-formed string |
| `JsonValid.FastPath` | base/base/JSON.cpp:232-235 | the first quote is the closing one unless a backslash stands before it |
| `JsonValid.NumberValid` | base/base/JSON.cpp:262-284 | skipNumber ends right behind a number without a plus sign |
| `JsonValid.PairParts` | base/base/JSON.cpp:202-210 | a name followed by a colon is recognised as a pair, and its value starts behind the colon |
| `JsonValid.BodyValid` | base/base/JSON.cpp:333-349 | the loops over elements and pairs stop right behind the closing bracket, within the depth |
| `JsonValid.ChildValid` | base/base/JSON.cpp:309-320 | an array element, or a pair with its extra level |
| `JsonSkip.SkipString` | base/base/JSON.cpp:224-259 | on every input, well-formed or not, the loops compute the specified end or error, without reading outside the buffer |
| `JsonSkip.SkipNumber` | base/base/JSON.cpp:262-284 | the same for numbers |
| `JsonSkip.GetType` | base/base/JSON.cpp:177-214 | the type by the first character, and for a string by what follows it |
| `JsonSkip.SkipElement` | base/base/JSON.cpp:383-406 | the same for elements; the recursion ends on every input |
| `JsonSkip.SkipNameValuePair` | base/base/JSON.cpp:309-320 | the same for pairs |
| `JsonSkip.SkipContainer` | base/base/JSON.cpp:323-380 | the same for arrays and objects |
| `JsonReader.Reader.Size` | base/base/JSON.cpp:408-416 | on every well-formed array or object the number of children an iteration sees, or an error if it fails; that is the number of children if and only if they fit the depth and none but a last number has a plus sign in an exponent; an error for elements without children |
| `JsonReader.EndsRight` | base/base/JSON.cpp:408-416 | the iteration sees all children exactly under that condition |
| `JsonReader.CutShort` | base/base/JSON.cpp:408-416 | [1e+5,2] has size 1 |
| `JsonReader.LastPlus` | base/base/JSON.cpp:408-416 | [2,1e+5] has size 2 |
| `JsonReader.Reader.Index` | base/base/JSON.cpp:425-448 | on every well-formed array child n, or the end marker for n equal to the number of children, if and only if the children before it fit the depth and none but a last number has a plus sign in an exponent; behind a number that ends the iteration early the end marker, and an error beyond |
| `JsonReader.Reader.Begin` | base/base/JSON.cpp:729-742 | the first child, the end marker, or the error of the first check that fails |
| `JsonReader.Reader.End` | base/base/JSON.cpp:744-747 | the end marker is one level deeper, so there is none at the deepest level |
| `JsonReader.Reader.Next` | base/base/JSON.cpp:749-764 | moves to the specified next child or the end marker and leaves the iterator alone on an error |
| `JsonReader.NextValid` | base/base/JSON.cpp:749-764 | in a well-formed container that is the start of the next child if and only if this child fits the depth and has no plus sign in an exponent, or is a number and the last child; otherwise the end marker behind a number, and an error |
| `JsonReader.BeginValid` | base/base/JSON.cpp:729-742 | in a well-formed container begin() is the start of the first child |
| `PoolProtocol.Safety` | base/base/BorrowedObjectPool.h:37-99 | in every state of every interleaving: allocated = idle + borrowed, within the limit, no object idle or held twice, sleepers only beside a full pool, and a notification or woken thread for every idle object beside a sleeper |
| `PoolProtocol.StepKeeps` | base/base/BorrowedObjectPool.h:37-99 | each step of a thread keeps this invariant |
| `PoolProtocol.Conservation` | base/base/BorrowedObjectPool.h:132-149 | no step loses or duplicates an object; only an allocation adds one |
| `PoolProtocol.Progress` | base/base/BorrowedObjectPool.h:55-56 | beside a sleeper and an idle object some notification or woken thread can step |
| `PoolProtocol.Settle` | base/base/BorrowedObjectPool.h:55-98 | pending notifications and woken threads come to rest within a bounded number of steps, and then nobody sleeps beside an idle object |
| `PoolProtocol.SettlingEnds` | base/base/BorrowedObjectPool.h:55-98 | under every schedule |
| `PoolProtocol.AtRest` | base/base/BorrowedObjectPool.h:121-122 | at rest a thread sleeps only if all max_size objects are borrowed |
| `PoolProtocol.ReturnHasBorrowed` | base/base/BorrowedObjectPool.h:95 | the counter of borrowed objects is never decremented below zero |
| `Pool.BorrowedObjectPool.constructor` | base/base/BorrowedObjectPool.h:32 | an empty pool satisfies the invariant |
| `Pool.BorrowedObjectPool.BorrowOrWait` | base/base/BorrowedObjectPool.h:37-53 | the first critical section of borrowObject is one step of the protocol, and hands out the object that step hands out, or none exactly if nothing is idle and the pool is full |
| `Pool.BorrowedObjectPool.AfterWakeUp` | base/base/BorrowedObjectPool.h:80-85 | so is the recheck of a woken thread: it leaves with an object if one is idle, without one exactly if its time is over, and otherwise goes back to sleep |
| `PoolHistory.WokenLeaves` | base/base/BorrowedObjectPool.h:55-85 | in every run: a woken thread with the mutex leaves with the last idle object if there is one; otherwise it leaves without one exactly if its time ran out since it last had the mutex, and waits on, with or without a timeout as before, if not |
| `PoolHistory.TimeoutEnds` | base/base/BorrowedObjectPool.h:80-85 | once its time has run out, whatever the others do, the next step of a thread is its last, with an object exactly if one is idle |
| `PoolHistory.UntimedBorrows` | base/base/BorrowedObjectPool.h:35-57 | borrowObject always comes back with an object |
| `PoolHistory.PhaseIsHistory` | base/base/BorrowedObjectPool.h:55-98 | a thread counts as expired, or as waiting with a timeout, exactly if the steps of the run say so |
| `Pool.BorrowedObjectPool.ReturnObject` | base/base/BorrowedObjectPool.h:89-96 | so is the critical section of returnObject |
| `Pool.BorrowedObjectPool.BorrowFromObjects` | base/base/BorrowedObjectPool.h:140-149 | takes the last idle object |
| `Pool.BorrowedObjectPool.AllocateObjectForBorrowing` | base/base/BorrowedObjectPool.h:132-138 | counts the new object as allocated and borrowed |
| `ConsistentHash.MinimalMovement` | contrib/consistent-hashing/consistent_hashing.cpp:84-114 | with one more bucket every key stays or moves to the new bucket, across powers of two too |
| `ConsistentHash.Growth` | contrib/consistent-hashing/consistent_hashing.cpp:84-114 | with more buckets every key stays or moves to a new bucket |
| `ConsistentHash.HashBelow` | contrib/consistent-hashing/consistent_hashing.cpp:84-114 | the bucket is below n |
| `ConsistentHash.Doubling` | contrib/consistent-hashing/consistent_hashing.cpp:57-68 | from 2^k to 2^(k+1) buckets a key stays or moves to the upper half |
| `ConsistentHash.HashIs` | contrib/consistent-hashing/consistent_hashing.cpp:92-113 | on a level the bucket is the first of three candidates below n, none of which depends on n; PowerBits and SmoothIs say what they are |
| `ConsistentParts.PowerBits` | contrib/consistent-hashing/consistent_hashing.cpp:49-68 | at 2^k buckets, with y the highest set bit of the block: bit y, and below it the bits of a if the number of set bits of the block is even, of b otherwise |
| `ConsistentParts.PowerSmall` | contrib/consistent-hashing/consistent_hashing.cpp:60-63 | a block of 0 or 1 is the bucket itself |
| `ConsistentParts.SmoothIs` | contrib/consistent-hashing/consistent_hashing.cpp:106-107 | the second candidate as a number: the unused bits modulo L(L + 1), L being the first candidate, in steps of 2^k |
| `ConsistentParts.SmoothShare` | contrib/consistent-hashing/consistent_hashing.cpp:103-110 | of any L(L + 1) consecutive values of the unused bits exactly (n - 2^(k-1)) 2^k lead to one of the buckets 2^(k-1) to n - 1 |
| `ConsistentParts.AsteriskBitsWide` | contrib/consistent-hashing/consistent_hashing.cpp:71-81 | with 32-bit words the gathering loses the high bits of d and of the first part, exactly these |
| `ConsistentHash.AsteriskBitsExact` | contrib/consistent-hashing/consistent_hashing.cpp:71-81 | with 16-bit words the gathering concatenates all bits the power-of-two scheme leaves unused, without overlap or loss |
| `ConsistentHash.BitCountBounds` | contrib/consistent-hashing/bitops.h:49-52 | v lies in [2^(count-1), 2^count) |
| `ConsistentHash.KeyWords` | contrib/consistent-hashing/bitops.h:7-11 | the four words have 16 bits, as the gathering of unused bits needs them |
| `ConsistentParts.KeySum` | contrib/consistent-hashing/consistent_hashing.cpp:118-122 | a 64-bit key is a + 2^16 b + 2^32 c + 2^48 d |
| `ConsistentParts.WideKeySum` | contrib/consistent-hashing/consistent_hashing.cpp:123-125 | a 128-bit key given as two halves is a + 2^32 b and c + 2^32 d |
| `ConsistentParts.WideConsistent` | contrib/consistent-hashing/consistent_hashing.cpp:123-125 | for every 128-bit key and up to 2^31 buckets: an error exactly for no buckets, a bucket below n, and minimal movement |
| `ConsistentHash.Consistent` | contrib/consistent-hashing/consistent_hashing.cpp:118-122 | for every 64-bit key, split as KeySum says, and up to 2^15 buckets: an error exactly for no buckets, a bucket below n, and minimal movement |
| `ConsistentBalance.HashAtPower` | contrib/consistent-hashing/consistent_hashing.cpp:84-114 | for 2^k buckets the hash is the power-of-two scheme |
| `ConsistentBalance.BalancedKeys` | contrib/consistent-hashing/consistent_hashing.cpp:57-68 | of all keys exactly the same number goes to each of 2^k buckets |
| `ConsistentBalance.EvenIffPower` | contrib/consistent-hashing/consistent_hashing.h:9-11 | counting all keys, all n buckets get equally many if and only if n is a power of two; that no other n can is arithmetic, true of every function |
| `ConsistentBalance.MovedIff` | contrib/consistent-hashing/consistent_hashing.h:11-14 | a key changes its bucket from n1 to n2 buckets exactly when it goes to one of the new ones |
| `ConsistentBalance.MovesLeastIffPower` | contrib/consistent-hashing/consistent_hashing.h:11-14 | exactly the share (n - n1) / n of the keys moves, for every n1 below n, if and only if n is a power of two, with the same remark |
| `ConsistentCrowd.SecondIsSlot` | contrib/consistent-hashing/consistent_hashing.cpp:71-108 | from 2^13 buckets on with 16-bit words, and from 2^24 on with 32-bit words, the gathered bits are below the modulus, and the place a key moves to is given by the top bits of d alone |
| `ConsistentCrowd.CrowdedHash` | contrib/consistent-hashing/consistent_hashing.cpp:84-114 | on these levels the whole function, as three cases |
| `ConsistentCrowd.CrowdedCount` | contrib/consistent-hashing/consistent_hashing.cpp:84-114 | the exact number of keys of any range of buckets on these levels |
| `ConsistentCrowd.CrowdedBucket` | contrib/consistent-hashing/consistent_hashing.cpp:84-114 | every bucket gets 2^(4w - k) keys, and each of the first 2^(66 - 4k) (16-bit words) or 2^(98 - 3k) (32-bit words) buckets of the upper half an equal share of the keys of all missing buckets on top |
| `ConsistentCrowd.CrowdedSlots` | contrib/consistent-hashing/consistent_hashing.h:11 | these buckets together get (their number + 2^k - n) 2^(4w - k) keys |
| `ConsistentCrowd.CrowdedMovement` | contrib/consistent-hashing/consistent_hashing.h:11-14 | above them (n2 - n1) 2^(4w - k) keys move from n1 to n2 buckets, which is the promised share if and only if n2 is the power of two |
| `ConsistentCrowd.TwentyThousand` | contrib/consistent-hashing/consistent_hashing.h:11-18 | of 20000 buckets 64 get more than 39 percent of the keys |

## Left out

- PdqSort.HeapSort: only the contract of `std::make_heap` and `std::sort_heap` is modelled; its body is an insertion sort behind that contract, and the bounds count the elements handed to it, not its own comparisons.
- The descending input that the source keeps linear by swapping pair by pair.
- PdqTrySort.TrySortLoop: why a call gives up is stated for calls at the left end of the range; the source makes no other call that may give up.
- Moved-from values and cache-line alignment in pdqsort; the offset buffers of the block partition are sequences of fixed length instead of stack arrays.
- Iterator ranges are index ranges of one array, and comparison functions are pure.
- Shifts by the full width or more, and comparisons between wide integers of different signedness.
- WideText.FromStr: a text is a sequence of characters without a terminating zero; the 128-bit width is excluded because that branch of the multiplication does not accept the factor the source passes.
- Conversions between wide integers and floating point, which rest on the rounding of long double.
- Itoa.Pairs: the unrolled repetitions of one digit pair are one recursive method.
- ItoaWide.WriteUInt256: arithmetic on 128- and 256-bit built-in integers is arithmetic on numbers below the bound.
- FloatCompare.Compare: equals, less and the other predicates derived from it, and isIntegerInRepresentableRange.
- Extended PCG generators, seeding from sequences, stream insertion and extraction, and the output functions that no named generator uses (RXS, RXS-M, XSH, XSL).
- ConsistentHash.Hash: numbers of buckets above 2^(w-1), which the header excludes; how far from equal the buckets are between powers of two up to 8192 (2^24 with 32-bit words) is not bounded, nor how the lower half shares what it gets when n is among the first crowded buckets.
- JSON lookup by name, string decoding with its \u conversion, conversion to numbers, and what is returned for text that is neither well-formed nor cut off, beyond being the specified end or error; error messages leave out the offending character.
- JsonReader.Reader.Begin: calling a method on the end marker, which reads through a null pointer in the source.
- A factory that throws in the pool: the counters are raised before the call, so it is taken to return a new object.
- PoolProtocol.Safety: mutex fairness and time are not modelled; a waiting thread with a timeout may expire at any moment.
- Command-line programs, build files, CRC and DER tables, Unicode width tables, SIMD searches and the libc shims.
