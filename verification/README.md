# Verified models of the algorithms under `base/` and `contrib/`

This project models the parts of the ClickHouse base libraries whose correctness cannot be seen by
reading one function: the pattern-defeating sort, division by precomputed reciprocals, wide integers,
the jump-ahead of the random number generator, the pool of borrowed objects under every interleaving,
consistent hashing, decimal printing, the skipping JSON reader and the comparison of floats with
integers. Each file is one module.

| area | modules |
|---|---|
| sorting | `SortSpec`, `Insertion`, `Partition`, `BlockPartition`, `PdqSort` |
| machine words | `Words` |
| division by constants | `LongDivision`, `WideDivision`, `Magic`, `Libdivide`, `LibdivideSigned` |
| wide integers | `LimbInteger`, `LimbCompare`, `LimbShift`, `LimbBits`, `LimbMultiply`, `LimbDivide`, `LimbText` |
| random numbers | `Pcg`, `XorShift`, `PcgUint128`, `PcgDivide` |
| decimal texts | `Numerals`, `Itoa` |
| JSON | `JsonText`, `Json`, `JsonReader` |
| consistent hashing | `ConsistentHash`, `HashBalance`, `HashMoves` |
| the rest | `ObjectPool`, `FloatCompare` |

Conventions. A `w`-bit word is a natural below `Pow2(w)`, and every wrap-around, shift and bitwise
operation is written out (`Wrap`, `Shl`, `Shr`, `Or`, `And`). Widths are parameters, so one proof covers
every instance of a template; where the code has a literal in place of the width (`PcgUint128.HIGH_SHIFT`),
so has the model, and the claim says for which widths it holds. Code that updates an array in place is a method
on an `array`, specified by what it does to `a[..]`; an object with fields is a class. A comparator is any strict
weak order.
Exceptions are results: `Invalid`, `DivisionByZero`, `InvalidChar`, `ZeroBuckets`, `Err`. What the hardware
does on a division by zero is `Trap`.

## What the proofs found

Where the code does not do what its name or its documentation says, the code is modelled as it is.

- `DecomposedFloat::compare` documents that infinities are compared correctly. An infinity is compared as
  the power of two one beyond the finite range. `FloatCompare.InfinityIsRight` says for which integers that
  is right, and `FloatCompare.InfinityMisjudged` gives the Float32 infinity found equal to 2^128.
- `ConsistentHashing(x, n)` is documented to work for n up to 32768, with equal shares and with (n2 - n1) / n2 of
  the keys moving from n1 to n2 buckets. The bits left to smooth the step between powers of two are too few for
  that. `HashBalance.SharesAreFair` and `HashMoves.MovedShare` bound the error for every n, and
  `HashBalance.ExactSharesIff` and `HashMoves.MovedExactlyIff` say that there is none exactly for powers of two.
  `HashBalance.OverloadedAt24576` gives 64 buckets out of 24576 with more than 96 times their share each, and
  `HashMoves.MovedAt16448` one added bucket that moves a 128th of all keys.
- The product of the four-word integers shifts by a literal 32 for the high word of a partial product. It is
  right for every operand if and only if the words have 32 bits (or one)
  (`PcgUint128.RightEverywhereIff`, with `PcgUint128.WrongSquare` for the square of 2^32 in 64-bit words).
- Wide integers of different widths are compared, or-ed and and-ed with zeros above the narrower operand, also
  when that is negative. A negative number is found greater than and not equal to itself in a narrower type
  (`LimbCompare.NarrowNegativeMisjudged`), equal to a positive number of each wider type
  (`LimbCompare.NegativeEqualsPositive`: 2^128 - 1 with 256 bits and -1 with 128) and greater than any number of a
  narrower unsigned type (`LimbCompare.NegativeAboveUnsigned`). `LimbCompare.OperatorGreater` and
  `LimbCompare.OperatorEqual` say for any two operands exactly when the answers are right, `LimbBits.PipeKeepsSign`
  and `LimbBits.AmpKeepsSign` when the bits are, with `LimbBits.ZeroOrMinusOne` and `LimbBits.MinusOneAndMinusOne`
  where they are not.
- Multiplying an unsigned wide integer by a negative one of a signed type loses the sign
  (`LimbMultiply.OneTimesMinusOne`); `LimbMultiply.MixedSignsLoseTheSign` says exactly when that shows.
- The division of 128-bit integers by the compiler comes before the test for zero, so that a division by zero
  traps instead of being reported (`LimbDivide.DivideNative`).
- Shifting a negative wide integer right by all its bits or more gives zero with the operator and minus one with
  the assignment (`LimbShift.OperatorShiftRight`, `LimbShift.AssignShiftRight`).
- The JSON reader stops at a plus sign in an exponent, which section 6 of RFC 8259 allows
  (`Json.SkippedExactly`, with `JsonReader.PlusIsRejected` for an array that is rejected). Where such a number is
  an item of an array, the items behind it are silently left out of its size (`JsonReader.PlusHidesTheRest`). An
  index equal to the size is not reported but yields the past-the-end position
  (`JsonReader.IndexAgreesWithSize`). An opening bracket right before the closing one of the other kind is an
  empty container (`JsonReader.BracketsAreEmpty`).
- `backstep` undoes `advance` for odd multipliers; for an even one no step can be undone
  (`Pcg.EvenMultiplierCollides`).
- The 128-bit division gives all ones when the quotient does not fit in a word, and
  `WideDivision.QuotientFitsWord` says when that is.

## Model

| member | source | states |
|---|---|---|
| `Insertion.InsertionSort` | contrib/pdqsort/pdqsort.h:77-95 | any range ends sorted and permuted, nothing outside it changes |
| `Insertion.UnguardedInsertionSort` | contrib/pdqsort/pdqsort.h:100-118 | the same with no bounds test in the scan, given only that the element before the range is not greater than any in it; every access stays in the array |
| `Insertion.InsertionDistance` | contrib/pdqsort/pdqsort.h:134-142 | the distance an insertion moves its element is the number of inversions it takes part in, in the input and not just in the sorted prefix |
| `Insertion.PartialInsertionSort` | contrib/pdqsort/pdqsort.h:124-148 | it finishes, sorted, exactly when the input has at most eight inversions, and leaves a permutation either way |
| `Partition.Sorted3Orders` | contrib/pdqsort/pdqsort.h:157-161 | three compare-exchanges order three distinct positions for any strict weak order, with the median of the three in the middle, and touch nothing else |
| `Partition.PartitionRight` | contrib/pdqsort/pdqsort.h:341-378 | the pivot ends between elements less than it and elements not less, the range is permuted, unguarded scans stay in range, and the flag is true exactly when the input was already partitioned |
| `Partition.PartitionLeft` | contrib/pdqsort/pdqsort.h:385-408 | the mirror image, with elements equal to the pivot on its left |
| `BlockPartition.SwapOffsets` | contrib/pdqsort/pdqsort.h:175-194 | swapping pairwise or moving round one cycle both take every left element to some right position and every right element to the left one, and move nothing else |
| `BlockPartition.CycleExchange` | contrib/pdqsort/pdqsort.h:185-193 | the cyclic move, described by itself as a rotation, is such an exchange |
| `BlockPartition.BlockStep` | contrib/pdqsort/pdqsort.h:236-275 | one turn of the block loop keeps both sides of the unknown region partitioned and at most one block waiting |
| `BlockPartition.Finish` | contrib/pdqsort/pdqsort.h:308-325 | the last exchange and draining the longer list divide the whole range, also when the two ends have crossed by one |
| `BlockPartition.PartitionRightBranchless` | contrib/pdqsort/pdqsort.h:202-333 | the block partition meets the contract of the plain one, for any size of range, with every buffer access in bounds |
| `PdqSort.ChoosePivot` | contrib/pdqsort/pdqsort.h:426-434 | the pivot is the median of the first, the middle and the last element, or from 129 elements on the median of three such medians; some later element is not less than it and some is not greater, which is what makes the unguarded scans safe |
| `PdqSort.ThreeMedians` | contrib/pdqsort/pdqsort.h:428-430 | the three medians, from the front, the middle and the back, end next to each other |
| `PdqSort.ShuffleSides` | contrib/pdqsort/pdqsort.h:467-489 | breaking up patterns exchanges the named positions of each side, a quarter of it away from its ends, and no other, and so keeps the partition |
| `PdqSort.Shuffle` | contrib/pdqsort/pdqsort.h:467-489 | where each element of a side comes from, from 24 elements on and, with two more at each end, from 129 on |
| `PdqSort.PartitionStep` | contrib/pdqsort/pdqsort.h:446-495 | the step ends the range exactly when a highly unbalanced cut uses up the last unit of the allowance, or a balanced one had nothing to exchange and left at most eight inversions on either side; otherwise it leaves a partition, shuffles both sides of an unbalanced cut and charges for unbalanced cuts only |
| `PdqSort.PdqsortLoop` | contrib/pdqsort/pdqsort.h:412-503 | for any strict weak order the range ends a sorted permutation; away from the left end only the sentinel before the range is needed; the recursion is no deeper than the unbalanced cuts allowed plus the balanced cuts the size admits, which is also what the termination measure counts down |
| `PdqSort.BalancedDepthBound` | contrib/pdqsort/pdqsort.h:453-456 | that many cuts to seven eighths still leave the insertion sort threshold, so the depth is logarithmic |
| `PdqSort.Log2` | contrib/pdqsort/pdqsort.h:69-73 | the floor of the base-two logarithm |
| `PdqSort.Pdqsort` | contrib/pdqsort/pdqsort.h:508-533 | both entry points sort any range, with the recursion less deep than the logarithm plus the number of balanced cuts |
| `LongDivision.QuotientDigit` | contrib/libdivide/libdivide.h:406-414 | the trial digit, corrected by the loop, is the exact quotient digit |
| `LongDivision.DigitStep` | contrib/libdivide/libdivide.h:406-417 | the remainder computed modulo 2^64 is the exact one although the terms wrap |
| `LongDivision.DivideTwoByOne` | contrib/libdivide/libdivide.h:352-432 | exact quotient and remainder whenever the high word is below the divisor; otherwise both are all ones |
| `WideDivision.MulHighUnsignedExact` | contrib/libdivide/libdivide.h:240-264 | the high word of a product put together from half-words is the product divided by 2^w |
| `WideDivision.MulHighSignedExact` | contrib/libdivide/libdivide.h:266-286 | the same for signed operands, rounding down |
| `WideDivision.MulHighUnsignedFits` | contrib/libdivide/libdivide.h:250-262 | none of the sums of half-word products on the way wraps |
| `WideDivision.MulHighSignedFits` | contrib/libdivide/libdivide.h:274-285 | none of the signed sums on the way leaves the signed range |
| `WideDivision.ShiftLeftValue` | contrib/libdivide/libdivide.h:435-447 | a left shift of a pair of words that loses no bits multiplies |
| `WideDivision.ShiftRightValue` | contrib/libdivide/libdivide.h:435-447 | a right shift of a pair of words divides, rounding down |
| `WideDivision.QuotientEstimate` | contrib/libdivide/libdivide.h:480-508 | dividing by the top word of the normalized divisor gives the quotient or one more |
| `WideDivision.DivideTwoByTwo` | contrib/libdivide/libdivide.h:450-545 | exact quotient and remainder exactly when the quotient fits in a word |
| `WideDivision.QuotientFitsWord` | contrib/libdivide/libdivide.h:472-479 | the caller's test for that, on the words of the operands |
| `Magic.MagicFloor` | contrib/libdivide/libdivide.h:549-597 | a reciprocal rounded up, whose error times the numerator stays below the scale, divides exactly |
| `Magic.ReciprocalRecovers` | contrib/libdivide/libdivide.h:637-673 | dividing the scale by such a reciprocal gives the divisor less one |
| `Libdivide.DoUnsignedDivides` | contrib/libdivide/libdivide.h:613-628 | a divider of the generated form divides every numerator, through the shift, the reciprocal or the averaging step |
| `Libdivide.DoUnsignedBranchfreeDivides` | contrib/libdivide/libdivide.h:630-635 | the branchfree form too |
| `Libdivide.TryReciprocal` | contrib/libdivide/libdivide.h:568-570 | the quotient of 2^(w+l) with the asserted range of its remainder, which is never zero |
| `LibdivideSigned.TrySignedReciprocal` | contrib/libdivide/libdivide.h:905-907 | the same for 2^(w-1+l) and the magnitude of a signed divisor |
| `Libdivide.GenUnsigned` | contrib/libdivide/libdivide.h:549-601 | fails exactly for zero; otherwise the divider makes the division exact for every numerator, 32 and 64 bits; it has the add marker exactly where a reciprocal of one word would not do |
| `Libdivide.GenUnsignedBranchfree` | contrib/libdivide/libdivide.h:603-611 | fails exactly for zero and one; otherwise exact for every numerator |
| `Libdivide.DividerOfSeven` | contrib/libdivide/libdivide.h:179-185 | the divider of seven in 32 bits, with its magic number and the byte of shift and marker |
| `Libdivide.RecoverUnsigned` | contrib/libdivide/libdivide.h:796-838 | the divisor is recovered from any divider generated for it, including those whose reciprocal has one bit too many |
| `Libdivide.RecoverUnsignedBranchfree` | contrib/libdivide/libdivide.h:840-873 | the generated divisor comes back exactly from the branchfree form |
| `LibdivideSigned.DoSignedDivides` | contrib/libdivide/libdivide.h:952-978 | truncating division by any signed divider, the least numbers included; only the least number by minus one wraps |
| `LibdivideSigned.DoSignedBranchfreeDivides` | contrib/libdivide/libdivide.h:980-1002 | the branchfree form too |
| `LibdivideSigned.GenSigned` | contrib/libdivide/libdivide.h:1045-1118 | fails exactly for zero; otherwise both forms divide every numerator, 32 and 64 bits; the branching form has the add marker exactly where the shorter reciprocal would not do |
| `LibdivideSigned.RecoverSigned` | contrib/libdivide/libdivide.h:1173-1201 | the signed divisor is recovered, also from negated magic numbers |
| `LibdivideSigned.DividerOfMinusSeven` | contrib/libdivide/libdivide.h:179-185 | the divider of minus seven in 32 bits, with both markers |
| `LimbInteger.Plus` | base/base/wide_integer_impl.h:497-526 | with carries flagged in one pass and handed on in another, the sum modulo 2^Bits, for any number of limbs and a narrower right operand |
| `LimbInteger.Minus` | base/base/wide_integer_impl.h:464-493 | the difference modulo 2^Bits |
| `LimbInteger.ReadingRange` | base/base/wide_integer_impl.h:201-208 | the top bit tells negative numbers, and the two's complement reading fills its range |
| `LimbInteger.UnaryMinus` | base/base/wide_integer_impl.h:640-644 | complement and add one is negation modulo 2^Bits |
| `LimbInteger.MakePositive` | base/base/wide_integer_impl.h:219-223 | the magnitude, also of the least number when read as unsigned |
| `LimbInteger.OperatorPlus` | base/base/wide_integer_impl.h:647-662 | the sum modulo 2^Bits with the right operand read by its own width and sign |
| `LimbInteger.OperatorMinus` | base/base/wide_integer_impl.h:665-680 | the difference modulo 2^Bits with the right operand read by its own width and sign |
| `LimbInteger.IsZero` | base/base/wide_integer_impl.h:820-832 | all limbs zero exactly for the number zero |
| `LimbShift.ShiftLeft` | base/base/wide_integer_impl.h:372-397 | multiplication by 2^n modulo 2^Bits for every n below Bits |
| `LimbShift.ShiftRight` | base/base/wide_integer_impl.h:399-437 | division by 2^n rounding down, arithmetic for signed types |
| `LimbShift.OperatorShiftRight` | base/base/wide_integer_impl.h:1379-1386 | the number divided by 2^n and rounded down, if and only if n is below Bits or the number is not negative; a negative count is taken for a large one |
| `LimbShift.AssignShiftRight` | base/base/wide_integer_impl.h:1145-1157 | the same division for every n that is not negative, without exception, and the sign alone for a negative count |
| `LimbCompare.FromWide` | base/base/wide_integer_impl.h:339-364 | conversion copies the common limbs and continues with the sign |
| `LimbCompare.ConvertedNumber` | base/base/wide_integer_impl.h:339-364 | and so keeps the number modulo 2^Bits of the new type, narrower or wider, signed or not |
| `LimbCompare.Greater` | base/base/wide_integer_impl.h:712-727 | signs and then limbs from the top, zeros above the narrower operand |
| `LimbCompare.GreaterIsRight` | base/base/wide_integer_impl.h:712-727 | for all signs and a right operand that is no wider the answer is the order of the numbers if and only if the left one is not negative, or the right one is of a signed type and not negative, or both are negative and have the same width or the left one is greater, or the right type is unsigned and has the same width, and the right number is at least the left one plus 2^Bits |
| `LimbCompare.GreaterWithinType` | base/base/wide_integer_impl.h:712-727 | within one type the answer is always right |
| `LimbCompare.Equal` | base/base/wide_integer_impl.h:762-775 | the limbs of the narrower operand, continued with zeros, decide equality of the unsigned readings |
| `LimbCompare.EqualIsRight` | base/base/wide_integer_impl.h:762-775 | that is equality of the numbers, except for two equal negative numbers of different widths, and for a negative number and its residue modulo its own width in a type at least as wide |
| `LimbCompare.NarrowNegativeMisjudged` | base/base/wide_integer_impl.h:440-448 | every negative number, converted to a wider type, is found greater than itself and not equal |
| `LimbCompare.NegativeEqualsPositive` | base/base/wide_integer_impl.h:440-448 | every negative number is found equal to a positive one of each wider type |
| `LimbCompare.NegativeAboveUnsigned` | base/base/wide_integer_impl.h:716-727 | every negative number is found greater than every number of a narrower unsigned type |
| `LimbCompare.ConvertedReading` | base/base/wide_integer_impl.h:339-364 | in a type at least as wide a number is read as itself, unless an unsigned one takes the sign bit or a negative one is read as its residue |
| `LimbCompare.OperatorGreater` | base/base/wide_integer_impl.h:1399-1403 | for operands of any widths and signs, in their common type: exactly when the answer is the order of the numbers |
| `LimbCompare.OperatorEqual` | base/base/wide_integer_impl.h:1434-1438 | for operands of any widths and signs, in their common type: exactly when the answer is equality of the numbers |
| `LimbBits.Pipe` | base/base/wide_integer_impl.h:784-792 | or of the limbs is or of the unsigned readings, for a narrower right operand too |
| `LimbBits.PipeKeepsSign` | base/base/wide_integer_impl.h:784-792 | it is or with the converted operand if and only if that is not negative or all bits above it are set in the other |
| `LimbBits.Amp` | base/base/wide_integer_impl.h:802-810 | and of the limbs is and of the unsigned readings |
| `LimbBits.AmpKeepsSign` | base/base/wide_integer_impl.h:802-810 | it is and with the converted operand if and only if that is not negative or all bits above it are clear in the other |
| `LimbBits.ZeroOrMinusOne` | base/base/wide_integer_impl.h:784-792 | a wider zero or-ed with minus one gives the largest number of the narrower type, where the conversion would give that of the wider one |
| `LimbBits.MinusOneAndMinusOne` | base/base/wide_integer_impl.h:802-810 | and so does a wider minus one and-ed with minus one |
| `LimbMultiply.Multiply256` | base/base/wide_integer_impl.h:532-575 | the half-word product with its two manual carries is the product modulo 2^256, for right operands of one, two or four limbs |
| `LimbMultiply.MultiplyGeneral` | base/base/wide_integer_impl.h:587-627 | adding one, three or seven times the left operand per turn gives the product modulo 2^Bits for any number of limbs |
| `LimbMultiply.MultiplyNative` | base/base/wide_integer_impl.h:576-586 | the 128-bit product by the compiler, split into limbs |
| `LimbMultiply.OperatorStar` | base/base/wide_integer_impl.h:683-709 | the product of the readings modulo 2^Bits, except that an unsigned left operand loses the sign of a negative right one |
| `LimbMultiply.MixedSignsLoseTheSign` | base/base/wide_integer_impl.h:690-702 | the product is right if and only if the left type is signed, the right number is not negative, the left one is zero, or the two have at least Bits - 1 trailing zero bits together |
| `LimbMultiply.OneTimesMinusOne` | base/base/wide_integer_impl.h:697-702 | one, unsigned, times minus one comes out as one for every number of limbs, where 2^Bits - 1 is right |
| `LimbDivide.CanDouble` | base/base/wide_integer_impl.h:865 | the loop test: the denominator does not exceed the numerator and can be doubled without overflow |
| `LimbDivide.DivideNative` | base/base/wide_integer_impl.h:840-858 | the 128-bit division by the compiler: exact quotient and remainder, and a trap for zero before the test that would report it |
| `LimbDivide.Divide` | base/base/wide_integer_impl.h:836-884 | an error exactly for zero, or the trap of the 128-bit form; otherwise exact quotient and remainder, with or-ing a quotient bit equal to adding it |
| `LimbDivide.OperatorSlash` | base/base/wide_integer_impl.h:887-899 | division towards zero modulo 2^Bits by the right operand as converted to the left type, for all widths up to the left one and all signs; the sign of an unsigned operand of the same width that a signed left type reads as negative is overlooked, an instance that the operator `/` never makes |
| `LimbDivide.DivisorIs` | base/base/wide_integer_impl.h:892 | what is divided by: the right operand itself for a signed left type, unless its sign is overlooked, and its residue for an unsigned one; zero only for zero |
| `LimbDivide.OverlookedIff` | base/base/wide_integer_impl.h:895-896 | with the sign overlooked the quotient is right if and only if the magnitude of the dividend and the divisor together are below 2^Bits, or the dividend is the least number and the divisor its magnitude |
| `LimbDivide.OneByLargest` | base/base/wide_integer_impl.h:895-896 | one by the largest unsigned number of the width would come out as one |
| `LimbDivide.CommonKeepsSign` | base/base/wide_integer_impl.h:137-145 | but the common type of two operands is never one that overlooks the sign |
| `LimbDivide.CommonSlash` | base/base/wide_integer_impl.h:1285-1290 | so for operands of any widths and signs `/` divides the numbers, where their common type is signed, and their residues, where it is not, towards zero and modulo 2^Bits |
| `LimbDivide.SlashReading` | base/base/wide_integer_impl.h:895-897 | the signed result is the quotient itself, except that the least number by minus one gives the least number |
| `LimbDivide.OperatorPercent` | base/base/wide_integer_impl.h:907-918 | the remainder that goes with division towards zero by the converted operand, so with the sign of the dividend |
| `LimbDivide.CommonPercent` | base/base/wide_integer_impl.h:1321-1326 | for operands of any widths and signs, the remainder that goes with it |
| `LimbText.ToString` | base/base/wide_integer_to_string.h:13-36 | the canonical numeral, for every value and width, the least one included |
| `LimbText.FromStr` | base/base/wide_integer_impl.h:946-999 | an error exactly for texts with a character that is no digit of their base; otherwise what the decimal or hexadecimal text means modulo 2^Bits |
| `LimbText.TextInHex` | base/base/wide_integer_impl.h:954-979 | what a hexadecimal text means: digits in either case after either prefix, with or without a sign, mean the number they were written from |
| `LimbText.ReadHex` | base/base/wide_integer_impl.h:954-979 | so that number is read back modulo 2^Bits |
| `LimbText.SignNeedsType` | base/base/wide_integer_impl.h:950-952 | a minus sign is an error for an unsigned type, whatever follows |
| `LimbText.NoDigitsAreZero` | base/base/wide_integer_impl.h:946-999 | a text without digits is zero, also behind a sign or a prefix |
| `LimbText.RoundTrip` | base/base/wide_integer_impl.h:946-999 | the text of a number is well formed and only that number's limbs are read from it |
| `LimbText.ThereAndBack` | base/base/wide_integer_to_string.h:13-36 | reading what was written gives the same limbs, signed and unsigned, for any number of limbs |
| `Numerals.NumeralMeans` | base/base/wide_integer_to_string.h:27-31 | the numeral built digit by digit means the number and has no leading zero |
| `Numerals.NumeralUnique` | base/base/wide_integer_to_string.h:27-31 | no other text without leading zeros means it |
| `Numerals.DigitsAre` | base/base/wide_integer_impl.h:960-978 | the digits are the places in two lists of sixteen characters, and no other character is one |
| `Numerals.HexNumeralMeans` | base/base/wide_integer_impl.h:960-978 | a numeral written with such a list means its number |
| `Pcg.Advance` | base/pcg-random/pcg_random.hpp:634-660 | jumping ahead by any amount equals that many single steps, for any multiplier, increment and word size |
| `Pcg.PeriodDivides` | base/pcg-random/pcg_random.hpp:643-644 | with an odd multiplier 2^w steps come back to the start |
| `Pcg.BackstepUndoes` | base/pcg-random/pcg_random.hpp:449-457 | going the long way round undoes a jump, in either order, for every odd multiplier |
| `Pcg.EvenMultiplierCollides` | base/pcg-random/pcg_random.hpp:405-408 | with an even multiplier two states have the same successor, so nothing can undo a step |
| `Pcg.Distance` | base/pcg-random/pcg_random.hpp:662-683 | for any mask the loop ends within as many rounds as the mask is long, its assertion holds, and the distance it finds leads to a state that matches the target under the mask and in as many low bits as there were rounds |
| `Pcg.VisitsEveryState` | base/pcg-random/pcg_random.hpp:405-408 | with multiplier 1 modulo 4 and odd increment every state is reached from every other |
| `Pcg.VisitsOnce` | base/pcg-random/pcg_random.hpp:405-408 | and at only one distance below 2^w |
| `Pcg.DefaultsVisitEveryState` | base/pcg-random/pcg_random.hpp:155-165 | the default multipliers and increments are such |
| `Pcg.StreamIncrementIs` | base/pcg-random/pcg_random.hpp:326-329 | the increment of a stream is twice the stream plus one, without the bit that the shift loses, so it is odd |
| `Pcg.StreamsDiffer` | base/pcg-random/pcg_random.hpp:326-334 | different streams have different increments, as many as are promised |
| `Pcg.Engine.Stream` | base/pcg-random/pcg_random.hpp:321-324 | halving the increment gives the stream back |
| `Pcg.Engine.constructor` | base/pcg-random/pcg_random.hpp:486-493 | an engine starts one step after its seed plus the increment of its stream, which is twice the stream plus one |
| `Pcg.SeedsDiffer` | base/pcg-random/pcg_random.hpp:476-478 | with an odd multiplier different seeds start different states, in every stream |
| `Pcg.Engine.SetStream` | base/pcg-random/pcg_random.hpp:326-329 | changes the increment to twice the stream plus one, and nothing else |
| `Pcg.Engine.Generate` | base/pcg-random/pcg_random.hpp:415-420 | one step, returning the state before it |
| `Pcg.Engine.AdvanceBy` | base/pcg-random/pcg_random.hpp:449-452 | that many steps |
| `Pcg.Engine.Backstep` | base/pcg-random/pcg_random.hpp:454-457 | a state from which that many steps lead back, for odd multipliers |
| `Pcg.Engine.DistanceTo` | base/pcg-random/pcg_random.hpp:443-446 | the number of steps to a given state |
| `XorShift.UnxorshiftInverts` | base/pcg-random/pcg_extras.hpp:261-279 | undoes a xorshift of any value and any positive shift, through its recursion on overlapping parts |
| `XorShift.InverseMultipliers` | base/pcg-random/pcg_random.hpp:899-914 | the two constants of each width are inverse modulo the word size |
| `XorShift.UnoutputInverts` | base/pcg-random/pcg_random.hpp:917-958 | the output permutation is undone at every width, although its first shift depends on the data |
| `XorShift.OutputIs` | base/pcg-random/pcg_random.hpp:917-937 | with the literal constants of each of the five widths, every bit of the output: the data-dependent xorshift, the product and the fixed xorshift |
| `XorShift.OutputsOfOne` | base/pcg-random/pcg_random.hpp:917-937 | the output of one at each width |
| `PcgUint128.AddWithCarry` | base/pcg-random/pcg_uint128.hpp:186-193 | sum and carry together are the sum, with a carry coming in |
| `PcgUint128.Product` | base/pcg-random/pcg_uint128.hpp:520-561 | the carries are right at every width: the result is the product modulo 2^4w plus what the literal shift misses of the high words |
| `PcgUint128.RightProductIff` | base/pcg-random/pcg_uint128.hpp:529-556 | so the product of two given numbers is right if and only if the high word of their lowest product is and what the other three high words miss cancels modulo 2^2w |
| `PcgUint128.RightAtThirtyTwo` | base/pcg-random/pcg_extras.hpp:86 | in the one instance there is, every product is right |
| `PcgUint128.RightEverywhereIff` | base/pcg-random/pcg_uint128.hpp:529-556 | every product is right if and only if the words have 32 bits, or one |
| `PcgUint128.WrongSquare` | base/pcg-random/pcg_uint128.hpp:527-529 | with wider words of 2n bits the square of 2^n comes out as 2^(4n-32) |
| `PcgDivide.Plus4` | base/pcg-random/pcg_uint128.hpp:564-581 | the sum modulo 2^4w through the chain of carries |
| `PcgDivide.SubWithCarry` | base/pcg-random/pcg_uint128.hpp:195-202 | difference and borrow together are the difference, with a borrow coming in |
| `PcgDivide.Minus4` | base/pcg-random/pcg_uint128.hpp:583-600 | the difference modulo 2^4w through the chain of borrows |
| `PcgDivide.LessIsLess` | base/pcg-random/pcg_uint128.hpp:649-654 | comparing double words from the top is comparing the numbers |
| `PcgDivide.FloorLog4` | base/pcg-random/pcg_uint128.hpp:429-443 | the floor of the logarithm of a number that is not zero, found in its highest word that is not zero |
| `PcgDivide.ShiftLeft4` | base/pcg-random/pcg_uint128.hpp:676-708 | multiplication by 2^n modulo 2^4w for every n below 4w |
| `PcgDivide.ShiftRight4` | base/pcg-random/pcg_uint128.hpp:711-745 | division by 2^n rounding down for every n below 4w |
| `PcgDivide.DivMod` | base/pcg-random/pcg_uint128.hpp:460-503 | on four words throughout: ends, with exact quotient and remainder, for every nonzero divisor |
| `ObjectPool.BorrowedObjectPool.BorrowFromObjects` | base/base/BorrowedObjectPool.h:140-149 | takes the last idle object |
| `ObjectPool.BorrowedObjectPool.TryBorrow` | base/base/BorrowedObjectPool.h:37-53 | the critical section up to the wait does the step of the state machine |
| `ObjectPool.BorrowedObjectPool.TryResume` | base/base/BorrowedObjectPool.h:55-56 | so does the one after waking up |
| `ObjectPool.BorrowedObjectPool.ReturnObject` | base/base/BorrowedObjectPool.h:89-96 | so does the one that gives an object back |
| `ObjectPool.StepKeepsInv` | base/base/BorrowedObjectPool.h:37-99 | every step of any thread keeps the counts, the single owner of each object, and the balance of idle objects against threads about to look and notifications about to be sent |
| `ObjectPool.BorrowsGetObjects` | base/base/BorrowedObjectPool.h:37-86 | after any run: a borrow that ends has got its thread exactly one object that it did not hold, unless it was a timed one that timed out and found the pool empty; until then the thread keeps what it held, and can time out exactly if it sleeps in a timed borrow |
| `ObjectPool.ReturnsNotify` | base/base/BorrowedObjectPool.h:89-99 | after any run: a return takes that object from its thread and ends only with a notification |
| `ObjectPool.NobodyIsStuck` | base/base/BorrowedObjectPool.h:37-99 | after any run: every thread has a step to take, and one that looks again while an object is idle gets one |
| `ObjectPool.BorrowUndoesReturn` | base/base/BorrowedObjectPool.h:93 | the object returned last is the next one to be borrowed |
| `ObjectPool.RunsAreSafe` | base/base/BorrowedObjectPool.h:37-99 | after any run: allocated is borrowed plus idle, never above a nonzero maximum, no object held twice or held and idle |
| `ObjectPool.SleepersAreServed` | base/base/BorrowedObjectPool.h:55 | no wake-up is lost: while a thread sleeps, the idle objects never outnumber the woken threads that have not run yet plus the notifications not sent yet, so an idle object has some thread on its way |
| `ObjectPool.SleepersAreRight` | base/base/BorrowedObjectPool.h:49-56 | when threads sleep and none is on its way, they are right to: nothing is idle and every object up to the maximum is held |
| `ObjectPool.BorrowedAreHeld` | base/base/BorrowedObjectPool.h:121-127 | the borrowed count is the number of objects the threads hold |
| `ConsistentHash.PowerSchemeGrows` | contrib/consistent-hashing/consistent_hashing.cpp:57-68 | doubling a power-of-two number of buckets leaves a key in place or sends it into the upper half |
| `ConsistentHash.PopCountIs` | contrib/consistent-hashing/consistent_hashing.cpp:48-53 | the count of bits is the size of the set of their positions |
| `ConsistentHash.BlockByParity` | contrib/consistent-hashing/consistent_hashing.cpp:48-68 | the scheme for 2^k buckets: which octave, and from which of the two blocks the offset in it is taken |
| `ConsistentHash.BeyondThree` | contrib/consistent-hashing/consistent_hashing.cpp:101-113 | keys that the large scheme puts beyond three buckets, placed by the second candidate or the small scheme |
| `ConsistentHash.KeyByHand` | contrib/consistent-hashing/consistent_hashing.cpp:48-68 | one key and its bucket |
| `ConsistentHash.HashingInRange` | contrib/consistent-hashing/consistent_hashing.cpp:84-114 | an error exactly for zero buckets; otherwise one of the buckets |
| `ConsistentHash.RankInRange` | contrib/consistent-hashing/consistent_hashing.cpp:92-93 | for the documented numbers of buckets the rank of the power of two stays within the width and the spare bits of the key are those the source passes |
| `ConsistentHash.AddingABucket` | contrib/consistent-hashing/consistent_hashing.cpp:84-114 | one more bucket leaves a key where it is or moves it into that bucket, across powers of two as well, and whatever the bits that smooth the move |
| `ConsistentHash.KeysOnlyMoveUp` | contrib/consistent-hashing/consistent_hashing.h:10-17 | over any growth a key that moves goes to one of the added buckets |
| `ConsistentHash.MovedKeys` | contrib/consistent-hashing/consistent_hashing.h:12-14 | a key has moved exactly when it is now in one of the added buckets, so the keys moved are those that the added buckets hold |
| `HashBalance.SpareIsHigh` | contrib/consistent-hashing/consistent_hashing.cpp:71-81 | the combined bits are the bits of the key that the power-of-two schemes leave unused, cut off at the word they are combined in |
| `HashBalance.IndexFromParts` | contrib/consistent-hashing/consistent_hashing.cpp:84-114 | the bucket depends on used and unused bits separately, the two schemes selecting different blocks |
| `HashBalance.SharesAreFair` | contrib/consistent-hashing/consistent_hashing.h:10-11 | for every documented number of buckets, 2^(k-1) < n <= 2^k, the part of all keys that goes to a bucket differs from an n-th by at most (2^k - n) / 2^s, s being the number of spare bits |
| `HashBalance.ExactSharesIff` | contrib/consistent-hashing/consistent_hashing.h:11 | the shares are exactly equal if and only if n is a power of two |
| `HashBalance.OverloadedBucket` | contrib/consistent-hashing/consistent_hashing.cpp:106-110 | the exact number of keys of the buckets that the spare bits cover, when these have at most n (n + 1) values: such buckets share everything the large scheme puts beyond n |
| `HashBalance.OverloadedAt24576` | contrib/consistent-hashing/consistent_hashing.h:18 | 64 of 24576 buckets get 387/4 times their share of the 64-bit keys each |
| `HashBalance.PartsOfKey` | contrib/consistent-hashing/consistent_hashing.cpp:71-81 | every key is put together from the bits the schemes use and those they leave |
| `HashBalance.KeyFromParts` | contrib/consistent-hashing/consistent_hashing.cpp:71-81 | and from no other such parts, so that counting the parts counts the keys |
| `HashBalance.SchemeIsBalanced` | contrib/consistent-hashing/consistent_hashing.cpp:57-68 | with 2^q buckets each is reached by as many pairs of a third block and the block it selects as any other |
| `HashMoves.BucketSize` | contrib/consistent-hashing/consistent_hashing.cpp:84-114 | so the number counted is the size of the set of keys that go to the bucket |
| `HashMoves.MovedSize` | contrib/consistent-hashing/consistent_hashing.h:12-14 | and the size of the set of keys that move is the sum over the added buckets |
| `HashMoves.MovedShare` | contrib/consistent-hashing/consistent_hashing.h:12-14 | for all documented n <= m the part of the keys that moves differs from (m - n) / m by at most (m - n) (2^k - m) / 2^s |
| `HashMoves.MovedExactlyIff` | contrib/consistent-hashing/consistent_hashing.h:13-14 | it is exactly that, for every smaller number of buckets, if and only if m is a power of two |
| `HashMoves.MovedAt16448` | contrib/consistent-hashing/consistent_hashing.h:18 | adding the 16448th bucket moves a 128th of the 64-bit keys, where one in 16448 is promised |
| `ConsistentHash.IndexAtPower` | contrib/consistent-hashing/consistent_hashing.cpp:95-101 | with 2^k buckets the answer is that of the power-of-two scheme |
| `Itoa.SplitIsExact` | base/base/itoa.h:119-128 | multiplying by the reciprocal and shifting is exact division by 10^N for every value of the type, and nothing overflows |
| `Itoa.Tail` | base/base/itoa.h:203-217 | exactly 2N digits with leading zeros |
| `Itoa.Head` | base/base/itoa.h:172-196 | the numeral of any value below 10^2N |
| `Itoa.Large` | base/base/itoa.h:224-232 | the numeral of any value from 10^2N up |
| `Itoa.Uitoa` | base/base/itoa.h:239-265 | the canonical numeral of every unsigned value of 1, 2, 4 or 8 bytes, and nothing else in the buffer changes |
| `Itoa.AbsoluteWordIsMagnitude` | base/base/itoa.h:289-301 | the branchless absolute value is right for every value, the least included |
| `Itoa.ItoaSigned` | base/base/itoa.h:279-312 | the canonical signed numeral; the minus sign stored for a number that is not negative is overwritten |
| `Itoa.Digits10Counts` | base/base/itoa.h:315-347 | the comparisons count the digits of the numeral, for any width |
| `Itoa.WriteUIntText` | base/base/itoa.h:349-368 | writing pairs from the right fills exactly the space measured beforehand with the numeral |
| `Itoa.LeastTextIsNumeral` | base/base/itoa.h:388-394 | the two stored texts are the numerals of the least 128- and 256-bit numbers |
| `Itoa.WriteSIntText` | base/base/itoa.h:376-406 | the canonical signed numeral of every 128- and 256-bit number |
| `Json.StringEnds` | base/base/JSON.cpp:223-260 | on every string the fast path and the slow one find the same end, and it is the right one |
| `Json.NumberEnds` | base/base/JSON.cpp:263-287 | the end of a number is found if and only if its exponent has no plus sign |
| `Json.ElementSkipped` | base/base/JSON.cpp:396-421 | what comes of skipping any valid element followed by nothing, a comma or a closing bracket: its end, too much nesting exactly beyond the limit, the position of a plus sign in its last number, or an error for one elsewhere |
| `Json.SkippedExactly` | base/base/JSON.cpp:396-421 | the reader stops exactly behind a valid element if and only if no exponent in it has a plus sign and it nests within the limit |
| `Json.KindIsFound` | base/base/JSON.cpp:176-213 | the kind of every valid element is found, a name with a value told from a string |
| `Json.OtherCharacters` | base/base/JSON.cpp:209-212 | any other first character is reported |
| `Json.HundredLevels` | base/base/JSON.cpp:12 | one array and a hundred nested in it are skipped, and no more |
| `Json.FiftyObjects` | base/base/JSON.cpp:316-329 | with objects it is fifty, since a pair takes a level of its own |
| `Json.NumberRead` | base/base/JSON.cpp:263-287 | on any text, reading a number passes only over digits, minus signs, points and exponents, and does not stop at a digit |
| `JsonReader.ReadString` | base/base/JSON.cpp:223-260 | the cursor loop ends and gives that result on every text, valid or not, errors included |
| `JsonReader.ReadNumber` | base/base/JSON.cpp:263-287 | the three digit loops, stopping where the claim about numbers says |
| `JsonReader.ReadPair` | base/base/JSON.cpp:316-329 | a name, a colon and an element one level below the pair, with the errors in the source's order |
| `JsonReader.ReadContainer` | base/base/JSON.cpp:332-393 | the loop over the items of an array or object ends on every text, having skipped items, commas and the closing bracket |
| `JsonReader.ReadElement` | base/base/JSON.cpp:396-421 | the mutual recursion ends on every text and gives the end of the element or the first error |
| `JsonReader.Iterator.Advance` | base/base/JSON.cpp:765-780 | moves to the element after the next comma or past the end, and stays on an error |
| `JsonReader.Size` | base/base/JSON.cpp:423-431 | iterating ends on every text and counts as the specified iteration does, errors included |
| `JsonReader.SizeIsLength` | base/base/JSON.cpp:423-431 | for every valid array or object the size is the number of its items if and only if these nest within the limit and no item but the last has a plus sign in an exponent, the last one at most in the number at its end |
| `JsonReader.Index` | base/base/JSON.cpp:440-463 | iterating ends on every text and finds what the specified iteration finds, errors included |
| `JsonReader.IndexIsItem` | base/base/JSON.cpp:440-463 | for every valid array and index below its length the element found begins where that item does if and only if the array itself is within the limit and no item before it nests too deeply or has a plus sign; its text follows there, up to a comma or a bracket |
| `JsonReader.IndexAgreesWithSize` | base/base/JSON.cpp:452-462 | on every text with an opening bracket, valid or not: an index below the size finds an element, the size itself the past-the-end position, anything larger is reported, and an error of counting is the only other error |
| `JsonReader.IndexNeedsArray` | base/base/JSON.cpp:444-445 | indexing any valid element but an array is reported |
| `JsonReader.SizeNeedsContainer` | base/base/JSON.cpp:747-748 | so is the size of any valid element but an array or an object |
| `JsonReader.BracketsAreEmpty` | base/base/JSON.cpp:752-755 | an opening bracket and a closing one, matching or not, have size zero |
| `JsonReader.IndexIsLazy` | base/base/JSON.cpp:440-463 | in a text that breaks off, an element is found that cannot be counted |
| `JsonReader.PlusIsRejected` | base/base/JSON.cpp:279-284 | a valid array of one number that the reader rejects |
| `JsonReader.PlusHidesTheRest` | base/base/JSON.cpp:765-780 | a valid array of two numbers whose size is found to be one |
| `FloatCompare.MagnitudeIsExact` | base/base/DecomposedFloat.h:142-176 | the shifts, the mask and the difference, each wrapped to the unsigned type it is done in, give the sign of the exact difference of the magnitudes |
| `FloatCompare.CompareIsExact` | base/base/DecomposedFloat.h:98-177 | the sign of the exact difference, for every bit pattern, subnormals and both zeros included, and every signed or unsigned integer of any width |
| `FloatCompare.CompareIsExactReal` | base/base/DecomposedFloat.h:93-97 | the same against the real number that section 3.4 of IEEE 754-2008 gives a finite pattern |
| `FloatCompare.PartsOfAssembled` | base/base/DecomposedFloat.h:46-74 | sign, exponent and mantissa are found where they were put |
| `FloatCompare.ValueOfAssembled` | base/base/DecomposedFloat.h:33-34 | and the value is the one that section 3.4 of IEEE 754-2008 gives them, subnormal numbers included |
| `FloatCompare.TwoAndAHalf` | base/base/DecomposedFloat.h:98-177 | in every format, two and a half and its negative lie between their neighbours |
| `FloatCompare.BitsOfTwoAndAHalf` | base/base/DecomposedFloat.h:46-74 | their bits in Float64 |
| `FloatCompare.InfinityIsRight` | base/base/DecomposedFloat.h:95 | an infinity compares as it should with an integer if and only if the integer is short of the power of two the infinity stands for |
| `FloatCompare.InfinityWithinType` | base/base/DecomposedFloat.h:138-140 | so always, for types no wider than that power |
| `FloatCompare.InfinityMisjudged` | base/base/DecomposedFloat.h:95 | the Float32 infinity is found equal to a 256-bit integer |

## Left out

- The SIMD versions of libdivide and its inline assembly are not part of this model; where the code chooses
  between assembly and portable division, the portable one is modelled, at every width.
- PdqSort.HeapSort: stands for `std::make_heap` and `std::sort_heap`, of which only that they sort a
  permutation is used; an insertion sort takes their place.
- BlockPartition.BlockStep: fills its offset buffers one element at a time; the unrolling by eight is not modelled.
- PdqSort.Pdqsort: the choice between the two partitions by the type of the comparator is a parameter.
- LimbMultiply.OperatorStar: a right operand of three 64-bit limbs under a left one of four, where the source reads a
  fourth limb that is not there, is excluded; a single limb under two, where the source does not compile, takes
  the general form.
- Sums, products, shifts and bitwise operations whose right operand is wider than the left one: the operators
  convert the left one first, as in the comparisons and divisions modelled.
- Conversions between wide integers and floating point, `operator_less`, which mirrors `operator_greater`, and
  exclusive or.
- PcgDivide.ShiftLeft4: shifts by the full width or more are excluded; division makes none.
- PcgDivide.ShiftRight4: shifts by the full width or more are excluded; division makes none.
- PcgUint128.RightEverywhereIff: for words of 16 bits or fewer the shift by 32 leaves the double word, which is
  undefined in C++; the model takes zero.
- PcgDivide.FloorLog4: zero is excluded; the source aborts on it, and division does not ask for it.
- Pcg.Distance: the variant for multiplicative generators, which keeps the two low bits fixed, is not modelled.
- Extended generators, seed sequences and stream input and output of the random number library.
- ObjectPool.StepKeepsInv: a factory that throws is not modelled, and a client returns only what it holds;
  fairness and time are left to the interleaving.
- HashBalance.SharesAreFair: bounds the error from above; the exact error is given only for powers of two
  (HashBalance.ExactSharesIff) and where the spare bits are few (HashBalance.OverloadedBucket).
- Itoa.OutTwoDigits: the 200-character table of digit pairs is represented by the two digits it holds for a value.
- Lookup of JSON fields by name and decoding of strings and numbers. Of texts that are not valid JSON little is said
  beyond the result being the same in both forms of the reader.
- FloatCompare.CompareIsExact: a NaN is compared by its bits like any other pattern; no meaning is given to it.
