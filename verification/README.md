# A verified model of the bundled BoringSSL core and the request signer

This Dafny project models the hardest code of the repository and proves what it computes. Most of it is the
BoringSSL copy under `framework-rest/libraries/boringssl/crypto`; the last module is the app's own request
signer in `framework-rest/jni`. `dafny verify dfyconfig.toml` checks everything.

| part | modules |
|---|---|
| words, long division, signed sums, shifts | `Arith`, `Limbs`, `LongDivision`, `BigNums`, `SignedSums`, `ModularShift`, `WordOps` |
| reciprocal division and modular exponentiation | `Congruence`, `Montgomery`, `Reciprocal`, `Windows`, `Exponentiation`, `WordExponentiation`, `DualExponentiation`, `FixedWindow` |
| greatest common divisor and modular inverse | `Gcd`, `ModularInverse` |
| numbers as text and octets | `Bytes`, `Decimal`, `BinaryForm`, `HexForm` |
| the pool of temporary bignums | `BnCtx` |
| the BIO pair | `Pipes` (two byte queues and every run over them), `BioPair` (the ring buffers that refine them) |
| ASN.1 headers, end-of-contents, INTEGER, UTCTime | `Asn1Header`, `Asn1`, `Asn1Integer`, `Calendar`, `TimeSupport`, `UtcTime` |
| UTF-8, string conversion, base64 | `Utf8`, `MbString`, `Base64`, `Base64Stream`, `Base64Reader` |
| run-once and reference counts under any schedule | `RunOnce`, `RefCount` |
| the canonical signing string | `Signing` |

## How the code is modelled

- The 64-bit build: BN_ULONG, long and size_t have 64 bits, int has 32. Wrap-around, truncation and C's division
  towards zero are written out (`% BASE`, `ToInt`, `ToLong`, `TDiv`, `TRem`).
- Code that changes objects or arrays in place is a method with `modifies` on a class or an array, proved against
  a function of its inputs or of the old state. Code that is one expression is a function.
- A BIGNUM is a `BigNum` (words, sign, constant-time flag) where only its value and flags matter, and a `Big`
  (array with spare capacity, top, sign) where the array does: sums, octets, hexadecimal text. Objects may be
  aliased exactly as the C functions allow.
- `BN_mul`, `BN_sqr`, `BN_mul_word`, the shifts, `BN_num_bits`, `bn_div_words` and Montgomery multiplication enter
  by their contracts: exact integer results, and multiplication modulo m up to a fixed factor R with an inverse.
- Threads are state machines: a step is one load, store or compare-exchange of one thread, and a run is any
  sequence of steps of any number of threads.
- Clocks, `gmtime`, the success of allocations, the bytes a zero-copy writer puts into its region, and the bytes
  beside a buffer that the base64 decoder looks at are parameters.

## Where the code does not do what it says

The members named first state what the code does for all inputs, and so exactly when it meets the promise; the
witnesses named after the semicolon are concrete inputs on which it does not.

- `BN_div` writes the quotient's sign before it reads the numerator's, so with the quotient over the numerator and a
  negative divisor the remainder gets the wrong sign (`BigNums.Div`; witness `BigNums.AliasedDivision`). `BN_nnmod`
  over its own modulus leaves 0 for a negative number, and for a zero with its sign flag set it returns the modulus
  (`BigNums.NNMod`; `BigNums.AliasedModulus`, `BigNums.NegativeZeroResidue`). `BN_mod_inverse_ex` inherits the first
  when the result is written over n (`ModularInverse.ModInverseEx`, `ModularInverse.SpoilsWhen`;
  `ModularInverse.AliasedInverse`).
- A zero exponent is answered 1 also for modulus 1 or -1 (`Exponentiation.ModExpMont`, `Exponentiation.ModExpRecp`,
  `FixedWindow.ModExpConsttime`; `Exponentiation.ZeroPowerOfOne`, `FixedWindow.WrongResidues`);
  `BN_mod_exp_mont_word` checks for modulus 1 but not -1 (`WordExponentiation.ModExpMontWord`;
  `WordExponentiation.ZeroPowerOfMinusOne`). `BN_mod_exp2_mont` answers 0 as soon as a base vanishes modulo m, even
  beside a zero exponent (`DualExponentiation.ModExp2Mont`; `DualExponentiation.VanishingBase`). The constant-time
  path keeps the sign of a negative base in its result (`FixedWindow.ModExpConsttime`; `FixedWindow.WrongResidues`).
- The comment on `bio_bio_st` promises offset 0 for an empty ring. A zero-copy writer makes that false
  (`Pipes.StepGood` has the invariant that does hold; `Pipes.EmptyRingWithOffset`).
- A complete header with a length in the long form is refused when nothing follows it, because the length loop counts
  one octet too many (`Asn1Header.HeaderRoundTrip`; `Asn1Header.LongFormAtTheEnd`). The count of remaining octets is
  an int, so data of 2 GiB and more is misjudged; that is part of the same condition.
- `asn1_find_end` takes an empty primitive element of universal tag 0 for the end-of-contents (`Asn1.FindEndOfTree`
  holds for every tree without one; `Asn1.EmptyTagZero`).
- `OPENSSL_gmtime_adj` keeps the days in an int (`TimeSupport.GmtimeAdj`; `TimeSupport.ShiftLost`).
  `asn1_utctime_to_tm` adds a signed zone offset that X.680 makes it subtract, accepts twelve digits without a zone,
  and refuses the leap second that `ASN1_UTCTIME_adj` would print (`UtcTime.ToTm`, `UtcTime.PrintReads`;
  `UtcTime.OffsetSign`, `UtcTime.NoZoneAccepted`).
- `ASN1_INTEGER_cmp` compares lengths before octets, and `c2i_ASN1_INTEGER` does not shorten what it reads
  (`Asn1Integer.Compare`; `Asn1Integer.OrderedByLength`). `BN_cmp` orders a zero with its sign flag set below the
  other zero (`SignedSums.Cmp`, which also says what it answers for any two such zeros).
- `UTF8_putc` drops the bits of a value from 2^31 on (`Utf8.GetPut`, `MbString.TextPreserved`; `Utf8.HighBitLost`,
  `MbString.HighCharacterLost`); `is_printable` accepts the NUL that ends its table (`MbString.NarrowAll`;
  `MbString.NulIsPrintable`); a mask that names only types unknown to the function selects UTF8String
  (`MbString.ChosenIsMinimal`; `MbString.UnknownMaskBit`).
- In the base64 decoder a character outside the alphabet is stored like any other, because the test that should stop
  at an error character is never true there. The strict block decoder then refuses the line, and the update reports
  that as 0, the value for a proper end of the input, and holds nothing: the end succeeds, and bad text passes as
  complete text that stops before the bad line. Only a third '=' in the line (-1) and a line still incomplete when
  the input ends (an error at the end) are reported (`Base64Reader.BadRun`, `Base64Reader.BadText`;
  `Base64Reader.BadCharacterUnseen`).
- `BN_bin2bn` of no octets leaves the old sign on a zero (`BinaryForm.Bin2Bn`; `BinaryForm.NothingRead`), and
  `BN_bn2hex` needs one character more than it has for such a zero (`HexForm.Bn2Hex`; `HexForm.SignedZeroText`).

## Model

| member | source | states |
|---|---|---|
| Limbs.SubWords | framework-rest/libraries/boringssl/crypto/bn/div.c:234-236 | `bn_sub_words` on a window of the dividend: the window becomes the difference modulo BASE^n, the returned borrow says whether it wrapped, and every word outside the window is untouched |
| Limbs.AddWords | framework-rest/libraries/boringssl/crypto/bn/div.c:349-354 | `bn_add_words` on a window: the sum with its carry, nothing outside the window changes |
| Limbs.MulWords | framework-rest/libraries/boringssl/crypto/bn/div.c:337-338 | `bn_mul_words`: a number of any length times one word is exact, low words in place and the top word returned |
| Limbs.CompareWords | framework-rest/libraries/boringssl/crypto/bn/cmp.c:133-151 | the word-by-word comparison has the sign of the difference of the two numbers |
| Limbs.NormalUnique | framework-rest/libraries/boringssl/crypto/bn/bn.c:321-333 | two magnitudes without leading zero words are equal exactly when their words are: normal form is canonical |
| LongDivision.EstimateDigit | framework-rest/libraries/boringssl/crypto/bn/div.c:257-335 | the quotient estimate, with its all-ones shortcut and its correction loop that works on a single-word remainder, never leaves a word and ends with the exact quotient of the leading three words by the leading two |
| LongDivision.CorrectEstimate | framework-rest/libraries/boringssl/crypto/bn/div.c:278-334 | the correction loop ends, its overflow test `rem < d0` is exact, and the digit it leaves is the exact two-by-three-word quotient |
| LongDivision.EstimateIsNear | framework-rest/libraries/boringssl/crypto/bn/div.c:257-335 | for any divisor and dividend that agree with their leading words up to smaller parts, the estimate is the true digit or one too large |
| LongDivision.EstimateIsExact | framework-rest/libraries/boringssl/crypto/bn/div.c:257-335 | with a one-word divisor the estimate is exact |
| LongDivision.DigitEstimate | framework-rest/libraries/boringssl/crypto/bn/div.c:257-335 | for every normalised divisor and every window below BASE times it: (q-1)*divisor <= window < (q+1)*divisor |
| LongDivision.MultiplySubtract | framework-rest/libraries/boringssl/crypto/bn/div.c:337-342 | multiply-and-subtract takes q*divisor from the window with the borrow out, and changes nothing else |
| LongDivision.AddBack | framework-rest/libraries/boringssl/crypto/bn/div.c:343-356 | after a borrow, one addition of the divisor restores the remainder of the digit below and clears the wrapped top word |
| LongDivision.DivideStep | framework-rest/libraries/boringssl/crypto/bn/div.c:251-358 | one pass of the main loop: the window splits exactly into digit times divisor plus a remainder below the divisor |
| LongDivision.DivideLoop | framework-rest/libraries/boringssl/crypto/bn/div.c:251-359 | the loop keeps dividend = partial quotient * divisor + partial remainder from the first window to the last |
| LongDivision.Normalise | framework-rest/libraries/boringssl/crypto/bn/div.c:167-199 | the shift sets the divisor's top bit and scales both numbers alike; the branch-free variant pads the dividend so that the first window is already below the divisor |
| LongDivision.FirstDigit | framework-rest/libraries/boringssl/crypto/bn/div.c:233-249 | the comparison before the loop leaves a leading digit of one or none, and then the first window is below the divisor |
| LongDivision.DivideMagnitudes | framework-rest/libraries/boringssl/crypto/bn/div.c:167-374 | a = q*b + r with r < b, in the branching and in the branch-free variant, q and r without leading zero words |
| BigNums.BigNum.Copy | framework-rest/libraries/boringssl/crypto/bn/bn.c:143-157 | a copy has the words and sign of the source; the constant-time flag is not copied |
| BigNums.Div | framework-rest/libraries/boringssl/crypto/bn/div.c:115-381 | truncated division for every sign, flag and aliasing of the operands: the quotient is always exact; the remainder is right if and only if the quotient is not written over the numerator with a negative divisor, outside the short cut and with a remainder; which calls leave a zero with its sign flag set; and that exactly un-normalised or zero operands are refused |
| BigNums.NNMod | framework-rest/libraries/boringssl/crypto/bn/div.c:383-393 | the least non-negative residue, if and only if the result is not written over the modulus of a negative number and the numerator is not an unflagged negative zero; what those two families get instead |
| BigNums.MagnitudeDivision | framework-rest/libraries/boringssl/crypto/bn/div.c:221-222 | signs put on a quotient and remainder of magnitudes make truncated division of the signed numbers |
| BigNums.NonNegativeRemainder | framework-rest/libraries/boringssl/crypto/bn/div.c:383-393 | adding the modulus back once to a negative truncated remainder gives the Euclidean remainder |
| BigNums.AliasedDivision | framework-rest/libraries/boringssl/crypto/bn/div.c:222-374 | witness: dividing -7 by -2 into the numerator yields 3 and the remainder 1 instead of -1 |
| BigNums.AliasedModulus | framework-rest/libraries/boringssl/crypto/bn/div.c:383-393 | witness: -7 reduced modulo 3 over the 3 comes out as 0 instead of 2 |
| BigNums.NegativeZeroResidue | framework-rest/libraries/boringssl/crypto/bn/div.c:383-393 | witness: a zero with its sign flag set, reduced modulo 5, comes out as 5 |
| SignedSums.AddArrays | framework-rest/libraries/boringssl/crypto/bn/add.c:104-160 | the loops of `BN_uadd`, also when the result array is one of the operands: the words hold the exact sum, one more word exactly when the carry leaves the top |
| SignedSums.SubtractArrays | framework-rest/libraries/boringssl/crypto/bn/add.c:261-325 | the loops of `BN_usub`, in place too: they succeed exactly when the first number is not smaller, and then hold the exact difference |
| SignedSums.Big.Expand | framework-rest/libraries/boringssl/crypto/bn/bn.c:281-311 | fails exactly when more words are asked for than the array has and than the 8388607 it allocates; otherwise there is room and the number is the same |
| SignedSums.Big.CorrectTop | framework-rest/libraries/boringssl/crypto/bn/bn.c:321-333 | leading zero words go, the number stays |
| SignedSums.UCmp | framework-rest/libraries/boringssl/crypto/bn/cmp.c:62-82 | the sign of the result is the order of the magnitudes |
| SignedSums.Cmp | framework-rest/libraries/boringssl/crypto/bn/cmp.c:84-131 | -1, 0 or 1 as the signed values compare, if and only if not both are zeros with different sign flags |
| SignedSums.UAdd | framework-rest/libraries/boringssl/crypto/bn/add.c:104-160 | the magnitudes add exactly, whichever of the three objects are the same; refused exactly when the sum could take more words than there is room for, and then nothing changes |
| SignedSums.USub | framework-rest/libraries/boringssl/crypto/bn/add.c:261-325 | fails exactly when the first magnitude is smaller or does not fit; otherwise exact, whichever objects are the same |
| SignedSums.Add | framework-rest/libraries/boringssl/crypto/bn/add.c:67-102 | signed addition is exact for every combination of signs and every aliasing of the three objects; refused exactly when there is no room, and then nothing changes |
| SignedSums.Sub | framework-rest/libraries/boringssl/crypto/bn/add.c:204-259 | signed subtraction is exact for every combination of signs and every aliasing of the three objects; refused exactly when there is no room, and then nothing changes |
| SignedSums.SumNormal | framework-rest/libraries/boringssl/crypto/bn/add.c:104-160 | a sum of normal operands is normal without any trimming |
| ModularShift.ModLshiftQuick | framework-rest/libraries/boringssl/crypto/bn/div.c:499-543 | for a reduced operand the repeated shift-and-subtract is exactly a*2^n mod m; an operand longer than the modulus is refused |
| ModularShift.OneSubtraction | framework-rest/libraries/boringssl/crypto/bn/div.c:509-539 | aligning the bit lengths leaves less than twice the modulus, so one subtraction is enough |
| ModularShift.ShiftOn | framework-rest/libraries/boringssl/crypto/bn/div.c:522-539 | k more bits followed by at most one subtraction keep v*2^j mod m |
| ModularShift.ShiftAndReduce | framework-rest/libraries/boringssl/crypto/bn/div.c:506-540 | one pass of the loop takes the residue of v*2^j to that of v*2^(j+k), reduced |
| WordOps.AddWord | framework-rest/libraries/boringssl/crypto/bn/add.c:162-202 | adding a word to a number of any sign is exact and never makes a negative zero |
| WordOps.SubWord | framework-rest/libraries/boringssl/crypto/bn/add.c:327-377 | subtracting a word from a number of any sign is exact, through every sign change |
| WordOps.AddLoop | framework-rest/libraries/boringssl/crypto/bn/add.c:188-199 | the carry loop, which notices a carry by `sum < addend`, adds exactly and stays normal |
| WordOps.SubLoop | framework-rest/libraries/boringssl/crypto/bn/add.c:360-374 | the borrow loop with its single trim of the top word subtracts exactly and stays normal |
| WordOps.DivideLoop | framework-rest/libraries/boringssl/crypto/bn/div.c:586-597 | dividing word by word from the top leaves an exact quotient in place, with at most one new leading zero word |
| WordOps.DivWord | framework-rest/libraries/boringssl/crypto/bn/div.c:564-601 | old magnitude = new magnitude * w + result with result < w, the quotient normal after one trim; a zero divisor changes nothing and answers the all-ones word |
| Reciprocal.TrialQuotient | framework-rest/libraries/boringssl/crypto/bn/exponentiation.c:319-334 | for every m below 2^i the quotient estimated through the reciprocal never exceeds floor(m/N) and is at most 3 below it |
| Reciprocal.RecpCtx.constructor | framework-rest/libraries/boringssl/crypto/bn/exponentiation.c:224-237 | a fresh context holds the divisor, its bit length and no reciprocal |
| Reciprocal.RecpCtx.Refresh | framework-rest/libraries/boringssl/crypto/bn/exponentiation.c:301-317 | the reciprocal is recomputed exactly when the precision changes, and whenever a precision is recorded the cached number is exactly floor(2^shift / abs(N)) |
| Reciprocal.RecpCtx.TrialFor | framework-rest/libraries/boringssl/crypto/bn/exponentiation.c:325-334 | the estimate read from the cache is within 3 below the quotient |
| Reciprocal.RecpCtx.DivRecp | framework-rest/libraries/boringssl/crypto/bn/exponentiation.c:264-365 | over any sequence of calls with any signs: the truncated quotient and remainder by N, and the cache stays exact; it fails only if computing the reciprocal fails |
| Reciprocal.RecpCtx.ModMul | framework-rest/libraries/boringssl/crypto/bn/exponentiation.c:367-400 | x*y reduced by N |
| Reciprocal.CorrectQuotient | framework-rest/libraries/boringssl/crypto/bn/exponentiation.c:344-356 | at most three corrections are needed, so the bad-reciprocal exit is unreachable |
| Montgomery.MulRep | framework-rest/libraries/boringssl/crypto/bn/exponentiation.c:615-775 | a Montgomery product of two representatives represents the product of the numbers, with its sign |
| Montgomery.ToRep | framework-rest/libraries/boringssl/crypto/bn/exponentiation.c:615-775 | conversion into the domain represents the number itself |
| Montgomery.FromRep | framework-rest/libraries/boringssl/crypto/bn/exponentiation.c:615-775 | leaving the domain gives the remainder of the represented number |
| Montgomery.NewMont | framework-rest/libraries/boringssl/crypto/bn/exponentiation.c:647-654 | every odd modulus has a context whose R is a power of the word size and has an inverse |
| Montgomery.NegateWords | framework-rest/libraries/boringssl/crypto/bn/exponentiation.c:693-706 | negating the lowest word and complementing the others yields exactly 2^(64*top) - m |
| Montgomery.TopBitMeansSmall | framework-rest/libraries/boringssl/crypto/bn/exponentiation.c:693-706 | when the top bit of an odd m is set, that number is R mod m |
| Windows.WindowBits | framework-rest/libraries/boringssl/crypto/bn/exponentiation.c:424-428 | the window for every exponent length is between one and six bits |
| Windows.TableFits | framework-rest/libraries/boringssl/crypto/bn/exponentiation.c:424-428 | the odd powers of every window fit the table of 32 |
| Windows.ScanWindow | framework-rest/libraries/boringssl/crypto/bn/exponentiation.c:726-740 | the scan finds the longest window that starts on the current bit and ends on a set one; its value is odd and equals the exponent bits it covers |
| Windows.WindowIndex | framework-rest/libraries/boringssl/crypto/bn/exponentiation.c:753-756 | half of the odd window value always indexes the table |
| Exponentiation.Squarings | framework-rest/libraries/boringssl/crypto/bn/exponentiation.c:742-751 | j squarings multiply the exponent by 2^j |
| Exponentiation.OddPowerTable | framework-rest/libraries/boringssl/crypto/bn/exponentiation.c:670-686 | entry i of the table is a^(2i+1) |
| Exponentiation.SlideWindow | framework-rest/libraries/boringssl/crypto/bn/exponentiation.c:742-763 | after the squarings and one table multiplication the accumulator is a^(p >> (wstart+1)) again, below the window |
| Exponentiation.SlidingLoop | framework-rest/libraries/boringssl/crypto/bn/exponentiation.c:711-764 | the sliding-window loop consumes the whole exponent: the accumulator represents a^p |
| Exponentiation.MontgomeryOne | framework-rest/libraries/boringssl/crypto/bn/exponentiation.c:693-709 | both ways of starting the accumulator represent one |
| Exponentiation.ModExpMont | framework-rest/libraries/boringssl/crypto/bn/exponentiation.c:615-775 | accepts exactly odd moduli; the result is a^p mod abs(m) for every base, exponent and odd modulus if and only if it is not the zero exponent with modulus 1 or -1 |
| Exponentiation.RecpLoop | framework-rest/libraries/boringssl/crypto/bn/exponentiation.c:507-563 | the same loop through the reciprocal context, whose cache changes on the way |
| Exponentiation.ModExpRecp | framework-rest/libraries/boringssl/crypto/bn/exponentiation.c:430-570 | the result is a^p mod abs(m) for every base, exponent and non-zero modulus, even ones included, if and only if it is not the zero exponent with modulus 1 or -1 |
| Exponentiation.ZeroPowerOfOne | framework-rest/libraries/boringssl/crypto/bn/exponentiation.c:430-775 | witness: 2^0 modulo 1 and modulo -1 is answered 1 |
| WordExponentiation.OverflowDetected | framework-rest/libraries/boringssl/crypto/bn/exponentiation.c:1271-1272 | dividing the wrapped product by one factor gives the other factor back exactly when the product did not overflow |
| WordExponentiation.FoldWord | framework-rest/libraries/boringssl/crypto/bn/exponentiation.c:1202-1212 | folding the pending word into the accumulator keeps the represented number |
| WordExponentiation.SquareStep | framework-rest/libraries/boringssl/crypto/bn/exponentiation.c:1270-1292 | squaring word and accumulator squares the represented number, whether or not the word is folded first |
| WordExponentiation.MultiplyStep | framework-rest/libraries/boringssl/crypto/bn/exponentiation.c:1294-1312 | multiplying by the base multiplies the represented number, and the word is never 0 |
| WordExponentiation.WordPower | framework-rest/libraries/boringssl/crypto/bn/exponentiation.c:1263-1339 | the scan from the top bit leaves a^p mod m |
| WordExponentiation.FinishProduct | framework-rest/libraries/boringssl/crypto/bn/exponentiation.c:1315-1338 | folding the last word and leaving the domain gives the remainder of the represented number |
| WordExponentiation.ModExpMontWord | framework-rest/libraries/boringssl/crypto/bn/exponentiation.c:1193-1345 | for every word a, every exponent and every odd modulus of either sign the result is a^p mod abs(m), if and only if it is not the zero exponent with modulus -1 |
| WordExponentiation.ZeroPowerOfMinusOne | framework-rest/libraries/boringssl/crypto/bn/exponentiation.c:1193-1345 | witness: 2^0 modulo -1 is answered 1, modulo 1 it is answered 0 |
| DualExponentiation.TrackSquare | framework-rest/libraries/boringssl/crypto/bn/exponentiation.c:1476-1481 | a squaring moves one exponent's progress, with its window open or not, to the next bit |
| DualExponentiation.OpenWindow | framework-rest/libraries/boringssl/crypto/bn/exponentiation.c:1483-1498 | a window opened on a set bit ends on the lowest set bit in reach and its value is exactly the bits it covers |
| DualExponentiation.TrackClose | framework-rest/libraries/boringssl/crypto/bn/exponentiation.c:1516-1523 | multiplying by the table entry when the window's bottom bit is reached accounts for exactly the bits of the window |
| DualExponentiation.Advance | framework-rest/libraries/boringssl/crypto/bn/exponentiation.c:1483-1523 | one exponent's share of a pass keeps its own progress and leaves the other exponent's alone; the table index is in range |
| DualExponentiation.DualLoop | framework-rest/libraries/boringssl/crypto/bn/exponentiation.c:1465-1533 | two interleaved windows on two exponents: the accumulator ends as a1^p1 * a2^p2 |
| DualExponentiation.ExpectedResidue | framework-rest/libraries/boringssl/crypto/bn/exponentiation.c:1349-1544 | for non-negative bases the expected value is the least non-negative residue of the product of the powers |
| DualExponentiation.ModExp2Mont | framework-rest/libraries/boringssl/crypto/bn/exponentiation.c:1349-1544 | accepts exactly odd moduli; the result is a1^p1 * a2^p2 reduced modulo abs(m) for all integers, if and only if the call does not end in one of the constant answers whose value differs: a base that vanishes modulo m beside a zero exponent, or two zero exponents with modulus 1 |
| DualExponentiation.VanishingBase | framework-rest/libraries/boringssl/crypto/bn/exponentiation.c:1406-1410 | witness: 3^0 * 2^1 modulo 3 is answered 0 |
| FixedWindow.CopyToPrebuf | framework-rest/libraries/boringssl/crypto/bn/exponentiation.c:781-793 | storing a power scatters its bytes over the buffer and leaves every other entry as it was |
| FixedWindow.CopyFromPrebuf | framework-rest/libraries/boringssl/crypto/bn/exponentiation.c:795-808 | gathering an entry gives back the number that was scattered |
| FixedWindow.BuildPowers | framework-rest/libraries/boringssl/crypto/bn/exponentiation.c:1119-1141 | the table holds a^0 to a^(2^window - 1) |
| FixedWindow.ReadBits | framework-rest/libraries/boringssl/crypto/bn/exponentiation.c:1143-1163 | reading bits from the top gives the value of that stretch of the exponent |
| FixedWindow.WindowStep | framework-rest/libraries/boringssl/crypto/bn/exponentiation.c:1155-1173 | one pass squares, gathers and multiplies: the accumulator is a^(p >> (bits + 1 - window)) |
| FixedWindow.FixedLoop | framework-rest/libraries/boringssl/crypto/bn/exponentiation.c:1143-1174 | the first window makes the rest come out even, and the loop ends with a^p |
| FixedWindow.NegativeBase | framework-rest/libraries/boringssl/crypto/bn/exponentiation.c:921-1181 | with a negative base the answer is the least residue of a^p only when that is 0 |
| FixedWindow.ConsttimePower | framework-rest/libraries/boringssl/crypto/bn/exponentiation.c:921-1181 | the magnitude is abs(a)^p mod m and the sign flag follows the base |
| FixedWindow.ModExpConsttime | framework-rest/libraries/boringssl/crypto/bn/exponentiation.c:856-1190 | accepts exactly odd moduli; the result is a^p mod abs(m) for every base, exponent and odd modulus if and only if it is neither the zero exponent with modulus 1 or -1 nor a negative base whose power does not vanish modulo m: for a negative base always right when m divides it, never when it is prime to an m other than 1 and -1 |
| FixedWindow.VanishingPower | framework-rest/libraries/boringssl/crypto/bn/exponentiation.c:856-1190 | the powers of a multiple of the modulus vanish |
| FixedWindow.CoprimePower | framework-rest/libraries/boringssl/crypto/bn/exponentiation.c:856-1190 | the powers of a number prime to the modulus do not |
| FixedWindow.WrongResidues | framework-rest/libraries/boringssl/crypto/bn/exponentiation.c:856-1190 | witness: 2^0 modulo 1 is answered 1, and (-2)^1 modulo 5 is answered -2 |
| Gcd.SubtractKeeps | framework-rest/libraries/boringssl/crypto/bn/gcd.c:115-182 | subtracting a multiple of one number from the other keeps the common divisors |
| Gcd.HalfKeeps | framework-rest/libraries/boringssl/crypto/bn/gcd.c:115-182 | halving an even number beside an odd one keeps the common divisors, also of equal multiples of both |
| Gcd.GcdUnique | framework-rest/libraries/boringssl/crypto/bn/gcd.c:184-228 | there is only one non-negative greatest common divisor, 0 for two zeros |
| Gcd.Pass | framework-rest/libraries/boringssl/crypto/bn/gcd.c:119-174 | each of the four parity cases keeps the common divisors of the two numbers times the power of two taken out, keeps the larger one first, and makes their sum smaller |
| Gcd.Euclid | framework-rest/libraries/boringssl/crypto/bn/gcd.c:115-182 | the loop, on two objects that change roles, ends with the greatest common divisor |
| Gcd.BnGcd | framework-rest/libraries/boringssl/crypto/bn/gcd.c:184-228 | the greatest common divisor for operands of any sign, zero included, whichever of the three objects are the same |
| Gcd.Bezout | framework-rest/libraries/boringssl/crypto/bn/gcd.c:503-514 | the greatest common divisor is a combination of the two numbers |
| ModularInverse.EuclidStep | framework-rest/libraries/boringssl/crypto/bn/gcd.c:447-462 | one division step keeps -sign*X*a = B and sign*Y*a = A modulo n |
| ModularInverse.BoundedStep | framework-rest/libraries/boringssl/crypto/bn/gcd.c:463-499 | the unsigned cofactors never outgrow n |
| ModularInverse.ShortQuotient | framework-rest/libraries/boringssl/crypto/bn/gcd.c:384-433 | equal bit lengths mean a quotient of one, one more bit a quotient of at most three |
| ModularInverse.DivideStep | framework-rest/libraries/boringssl/crypto/bn/gcd.c:383-433 | with and without the bit-length shortcuts: A = D*B + M with 0 <= M < B |
| ModularInverse.EuclidPass | framework-rest/libraries/boringssl/crypto/bn/gcd.c:375-500 | one pass of the general loop on seven objects that change roles keeps both congruences and the common divisors |
| ModularInverse.EuclidLoop | framework-rest/libraries/boringssl/crypto/bn/gcd.c:375-500 | the general loop, and without shortcuts the branch-free one, ends with the greatest common divisor and its cofactor, which is at most n |
| ModularInverse.StripTwos | framework-rest/libraries/boringssl/crypto/bn/gcd.c:295-346 | taking out all factors two, while the cofactor is halved modulo an odd n, keeps the congruence and the common divisors |
| ModularInverse.BinaryLoop | framework-rest/libraries/boringssl/crypto/bn/gcd.c:289-371 | the binary loop ends with the greatest common divisor and its cofactor, as the recursive form of the loop computes them from the inputs |
| ModularInverse.GcdDecides | framework-rest/libraries/boringssl/crypto/bn/gcd.c:503-527 | what is left is 1 exactly when a has an inverse modulo n |
| ModularInverse.InverseUnique | framework-rest/libraries/boringssl/crypto/bn/gcd.c:516-527 | there is at most one inverse in [0, n) |
| ModularInverse.InverseIffCoprime | framework-rest/libraries/boringssl/crypto/bn/gcd.c:184-540 | inversion and `BN_gcd` agree: an inverse exists exactly when the greatest common divisor is 1 |
| ModularInverse.RunInversion | framework-rest/libraries/boringssl/crypto/bn/gcd.c:282-514 | whichever branch flags, parity and size select: the greatest common divisor g and a y with y*a = g modulo abs(n), which is a function of the inputs |
| ModularInverse.StoreInverse | framework-rest/libraries/boringssl/crypto/bn/gcd.c:516-526 | the cofactor is reduced into [0, abs(n)), except that written over n a negative one becomes 0 |
| ModularInverse.ModInverseEx | framework-rest/libraries/boringssl/crypto/bn/gcd.c:230-540 | for every a and non-zero n, both branches and the branch-free variant: success exactly when an inverse exists, `out_no_inverse` exactly otherwise, nothing written on failure; the result is the inverse in [0, abs(n)) if and only if it is not written over an n that `SpoilsModulus`, a function of a, n and the flags, says the run ends badly for; then it is 0 |
| ModularInverse.SpoilsWhen | framework-rest/libraries/boringssl/crypto/bn/gcd.c:230-540 | which calls that are: for a positive n none outside the binary branch; for an n below -1 every one in the binary branch, and outside it exactly those that take an even number of divisions |
| ModularInverse.AliasedInverse | framework-rest/libraries/boringssl/crypto/bn/gcd.c:230-540 | witness: the inverse of 5 modulo 11, written over the 11, comes out as 0 |
| Decimal.DigitsCut | framework-rest/libraries/boringssl/crypto/bn/convert.c:410-423 | printing a number in blocks of fixed width is printing its digits |
| Decimal.ThousandBits | framework-rest/libraries/boringssl/crypto/bn/convert.c:375-381 | 1024^100 <= 11 * 1000^100, the number-theoretic core of the size estimate |
| Decimal.EstimateIsEnough | framework-rest/libraries/boringssl/crypto/bn/convert.c:375-381 | for every bit length b, 2^b <= 10^(3b/10 + 3b/1000 + 2) in truncating integer arithmetic |
| Decimal.Split | framework-rest/libraries/boringssl/crypto/bn/convert.c:405-409 | repeated division by 10^19 yields the blocks of the number and never runs over the word array |
| Decimal.Join | framework-rest/libraries/boringssl/crypto/bn/convert.c:409-423 | the blocks print as the digits of the number, and every write is inside the buffer |
| Decimal.Bn2Dec | framework-rest/libraries/boringssl/crypto/bn/convert.c:368-436 | the decimal text of every integer |
| Decimal.DecodeDec | framework-rest/libraries/boringssl/crypto/bn/convert.c:284-308 | 19 digits at a time: the number the digits stand for; refused exactly when it takes more words than the array has and than may be allocated |
| Decimal.Dec2Bn | framework-rest/libraries/boringssl/crypto/bn/convert.c:312-362 | an optional sign and as many digits as an int counts; the number read, the characters used, never a negative zero; refused exactly when the number takes more words than there is room for |
| Decimal.TextReads | framework-rest/libraries/boringssl/crypto/bn/convert.c:368-440 | reading the text of any integer gives it back and uses every character |
| Decimal.PrintAndRead | framework-rest/libraries/boringssl/crypto/bn/convert.c:368-440 | `BN_dec2bn` of what `BN_bn2dec` printed is the number, for every number of at most 8388607 words |
| BinaryForm.Bin2Bn | framework-rest/libraries/boringssl/crypto/bn/convert.c:71-118 | the number of the octets, not negative; on no octets the old sign flag is kept on a zero; refused exactly when the octets take more words than there is room for |
| BinaryForm.NothingRead | framework-rest/libraries/boringssl/crypto/bn/convert.c:71-118 | witness: reading no octets into -1 leaves a zero with its sign flag set |
| BinaryForm.ReadWords | framework-rest/libraries/boringssl/crypto/bn/convert.c:103-110 | the loop fills the words from the top down with exactly the number of the octets |
| BinaryForm.Bn2Bin | framework-rest/libraries/boringssl/crypto/bn/convert.c:120-130 | the shortest big-endian octets of the magnitude, nothing else written |
| BinaryForm.SelectChooses | framework-rest/libraries/boringssl/crypto/bn/convert.c:134-139 | the masked selection chooses, bit by bit |
| BinaryForm.LessEqual | framework-rest/libraries/boringssl/crypto/bn/convert.c:143-145 | the sign bit of the wrapped difference decides x <= y for sizes below 2^63 |
| BinaryForm.ReadWordPadded | framework-rest/libraries/boringssl/crypto/bn/convert.c:152-159 | word i of the number, 0 from its top on, whatever the spare words of the array hold |
| BinaryForm.Fits | framework-rest/libraries/boringssl/crypto/bn/convert.c:169-180 | the two checks find out exactly whether the magnitude is below 256^len |
| BinaryForm.Bn2BinPadded | framework-rest/libraries/boringssl/crypto/bn/convert.c:161-195 | succeeds if and only if the magnitude is below 256^len, and then writes exactly its len octets; otherwise it writes nothing |
| BinaryForm.PaddedRoundTrip | framework-rest/libraries/boringssl/crypto/bn/convert.c:71-195 | octets of any length are the padded octets of the number they are read as, and the other way round |
| BinaryForm.WriteAndRead | framework-rest/libraries/boringssl/crypto/bn/convert.c:71-195 | `BN_bin2bn` of what `BN_bn2bin_padded` wrote is the magnitude; it succeeds exactly when the magnitude is below 256^len and the words have room |
| HexForm.Bn2Hex | framework-rest/libraries/boringssl/crypto/bn/convert.c:200-234 | a sign and two digits for every octet without leading zero octets; the buffer is large enough if and only if the number is not a zero with its sign flag set |
| HexForm.SignedZeroText | framework-rest/libraries/boringssl/crypto/bn/convert.c:200-234 | witness: a zero with its sign flag set prints two characters and a NUL into a buffer of two |
| HexForm.DecodeHex | framework-rest/libraries/boringssl/crypto/bn/convert.c:237-281 | a word at a time from the end of the digits: the number they stand for; refused exactly above INT_MAX/4 digits or when the words have no room: more than the array has and than 8388607 |
| HexForm.Hex2Bn | framework-rest/libraries/boringssl/crypto/bn/convert.c:312-366 | an optional sign and as many digits as an int counts; the number read and the characters used; refused digits leave zero |
| HexForm.HexNumber | framework-rest/libraries/boringssl/crypto/bn/convert.c:200-281 | the two digits printed for each octet make the same number |
| HexForm.TextReads | framework-rest/libraries/boringssl/crypto/bn/convert.c:200-366 | reading the text of any integer gives it back and uses every character |
| HexForm.PrintAndRead | framework-rest/libraries/boringssl/crypto/bn/convert.c:200-366 | `BN_hex2bn` of what `BN_bn2hex` printed is the number, for every number of at most 8388607 words |
| Pipes.WriteKeeps | framework-rest/libraries/boringssl/crypto/bio/pair.c:491-565 | writing keeps the invariant and the history |
| Pipes.ReadKeeps | framework-rest/libraries/boringssl/crypto/bio/pair.c:405-489 | reading, copied or in place, delivers the front of the queue and never moves the write offset under a zero-copy writer |
| Pipes.DoneWriteKeeps | framework-rest/libraries/boringssl/crypto/bio/pair.c:354-403 | committing a region appends exactly the committed bytes |
| Pipes.StepGood | framework-rest/libraries/boringssl/crypto/bio/pair.c:157-565 | every call, from any reachable state, keeps: offset < size, len <= size, written = taken ++ queue, a handed-out region starts at the write offset, lies in free space and keeps its place and length until it is committed, nothing is written meanwhile, and a closed end stays closed |
| Pipes.RunDelivers | framework-rest/libraries/boringssl/crypto/bio/pair.c:62-86 | under every interleaving of calls of both ends, what each direction has delivered is exactly what its reader was handed, in order |
| Pipes.FreshPairDelivers | framework-rest/libraries/boringssl/crypto/bio/pair.c:62-86 | on a fresh pair each direction delivers a prefix of what it accepted and holds back at most its buffer size |
| Pipes.EndOfStream | framework-rest/libraries/boringssl/crypto/bio/pair.c:429-452 | a reader is told 0 exactly at the end of a closed and drained stream, and -1 exactly when more may come |
| Pipes.EmptyRingWithOffset | framework-rest/libraries/boringssl/crypto/bio/pair.c:62-86 | witness: the structure comment's "offset 0 if len is 0" is false with a zero-copy writer |
| BioPair.RingAppend | framework-rest/libraries/boringssl/crypto/bio/pair.c:535-562 | copying a chunk behind the live part of the ring appends it to the queue |
| BioPair.RingDrop | framework-rest/libraries/boringssl/crypto/bio/pair.c:455-486 | a chunk at the read offset is the front of the queue, and dropping it leaves the rest |
| BioPair.RingFree | framework-rest/libraries/boringssl/crypto/bio/pair.c:278-320 | writing into free space leaves the queue alone |
| BioPair.Half.constructor | framework-rest/libraries/boringssl/crypto/bio/pair.c:88-100 | a new half is an empty queue of the size asked for, 17 KiB by default |
| BioPair.Half.CopyIn | framework-rest/libraries/boringssl/crypto/bio/pair.c:525-562 | the one or two chunks of the copy loop append the data |
| BioPair.Half.CopyOut | framework-rest/libraries/boringssl/crypto/bio/pair.c:445-488 | the one or two chunks of the copy loop return the front of the queue, and an emptied ring starts over unless a zero-copy writer relies on its offset |
| BioPair.Half.Write | framework-rest/libraries/boringssl/crypto/bio/pair.c:491-565 | the ring buffer refines the queue step for `BIO_write`: state and return value |
| BioPair.Half.Read | framework-rest/libraries/boringssl/crypto/bio/pair.c:405-489 | the ring buffer refines the queue step for `BIO_read` |
| BioPair.Half.GetRead | framework-rest/libraries/boringssl/crypto/bio/pair.c:157-218 | the region handed out is the front of the queue, as long as it does not wrap |
| BioPair.Half.DoneRead | framework-rest/libraries/boringssl/crypto/bio/pair.c:220-276 | refines the queue step; an overlong or unlocked commit is refused |
| BioPair.Half.GetWrite | framework-rest/libraries/boringssl/crypto/bio/pair.c:278-352 | refines the queue step and records the region that is handed out |
| BioPair.Half.Store | framework-rest/libraries/boringssl/crypto/bio/pair.c:278-352 | a byte the holder of a region puts into it changes neither queue nor history |
| BioPair.Half.DoneWrite | framework-rest/libraries/boringssl/crypto/bio/pair.c:354-403 | refines the queue step: the committed bytes are those lying in the region |
| BioPair.Bio.Write | framework-rest/libraries/boringssl/crypto/bio/bio.c:144-187 | through the counting wrapper: this end's queue takes the step, the other direction is untouched, the counters still match |
| BioPair.Bio.Read | framework-rest/libraries/boringssl/crypto/bio/bio.c:144-187 | the peer's queue takes the step, this direction is untouched, the counters still match |
| BioPair.Bio.GetRead | framework-rest/libraries/boringssl/crypto/bio/pair.c:193-218 | the peer's queue takes the step; an unpaired BIO gets nothing |
| BioPair.Bio.DoneRead | framework-rest/libraries/boringssl/crypto/bio/pair.c:220-276 | the peer's queue takes the step and the read counter follows |
| BioPair.Bio.GetWrite | framework-rest/libraries/boringssl/crypto/bio/pair.c:322-352 | this end's queue takes the step; an unpaired BIO gets nothing |
| BioPair.Bio.DoneWrite | framework-rest/libraries/boringssl/crypto/bio/pair.c:354-403 | this end's queue takes the step and the write counter follows |
| BioPair.Bio.ShutdownWr | framework-rest/libraries/boringssl/crypto/bio/pair.c:680-684 | the direction is closed and its bytes stay, with a peer and without |
| BioPair.Bio.MakePair | framework-rest/libraries/boringssl/crypto/bio/pair.c:567-639 | fails exactly when an end has a peer already, changing nothing; otherwise two empty directions, also for the ends of earlier pairs, whose counters go on |
| BioPair.Bio.DestroyPair | framework-rest/libraries/boringssl/crypto/bio/pair.c:102-132 | both ends are cut off and both rings emptied, ready to be paired again; nothing happens without a peer |
| BioPair.Conservation | framework-rest/libraries/boringssl/crypto/bio/bio.c:144-187 | in every state of a live pair, counting from when it was made: writer's count = reader's count + bytes in the ring, in both directions |
| BioPair.NewBioPair | framework-rest/libraries/boringssl/crypto/bio/pair.c:747-791 | a fresh pair with empty queues of the sizes asked for |
| BnCtx.Run | framework-rest/libraries/boringssl/crypto/bn/ctx.c:150-198 | any well-bracketed trace, with allocations failing anywhere, leaves frames and overflow depth as they were, and a blocked context entirely |
| BnCtx.FrameRestores | framework-rest/libraries/boringssl/crypto/bn/ctx.c:150-198 | a start/end frame around anything restores the live count, the frames, the overflow depth and the block on gets |
| BnCtx.HandedFresh | framework-rest/libraries/boringssl/crypto/bn/ctx.c:161-180 | nothing that is live when a trace starts is handed out while it runs |
| BnCtx.BlockedHandsNothing | framework-rest/libraries/boringssl/crypto/bn/ctx.c:161-180 | after a failed get, or in an overflowed frame, nothing is handed out until the frame ends |
| BnCtx.LinkAfter | framework-rest/libraries/boringssl/crypto/bn/ctx.c:258-297 | appending a block keeps the doubly linked list |
| BnCtx.Pool.Extend | framework-rest/libraries/boringssl/crypto/bn/ctx.c:259-288 | a new block becomes tail and current block |
| BnCtx.Pool.Get | framework-rest/libraries/boringssl/crypto/bn/ctx.c:258-297 | the k-th live bignum is slot k%16 of block k/16; it fails exactly when a block is needed and cannot be had |
| BnCtx.Pool.Advance | framework-rest/libraries/boringssl/crypto/bn/ctx.c:290-296 | current moves to the block of the next bignum |
| BnCtx.Pool.Release | framework-rest/libraries/boringssl/crypto/bn/ctx.c:299-311 | releasing walks back to the block of the last live slot |
| BnCtx.LiveDistinct | framework-rest/libraries/boringssl/crypto/bn/ctx.c:258-311 | no two live bignums share a slot |
| BnCtx.Stack.Push | framework-rest/libraries/boringssl/crypto/bn/ctx.c:211-230 | a frame is pushed unless the stack must grow and cannot; growing keeps the frames |
| BnCtx.Stack.Pop | framework-rest/libraries/boringssl/crypto/bn/ctx.c:232-234 | the last frame pushed comes off |
| BnCtx.Ctx.constructor | framework-rest/libraries/boringssl/crypto/bn/ctx.c:124-138 | a new context has nothing live and no frame |
| BnCtx.Ctx.Start | framework-rest/libraries/boringssl/crypto/bn/ctx.c:150-159 | refines the abstract start step, also when pushing fails |
| BnCtx.Ctx.Get | framework-rest/libraries/boringssl/crypto/bn/ctx.c:161-180 | refines the abstract get step; the bignum handed out is zero and none of the live ones, and every other bignum of the pool keeps its value |
| BnCtx.Ctx.End | framework-rest/libraries/boringssl/crypto/bn/ctx.c:182-198 | refines the abstract end step: exactly the bignums of the frame are released |
| Asn1Header.HeaderRoundTrip | framework-rest/libraries/boringssl/crypto/asn1/asn1_lib.c:128-265 | for every class, tag, form and length and whatever follows: reading what was written gives exactly those fields back, if and only if the tag is allowed and the reader's int count of the remaining octets is as large as it insists on, one octet beyond the header in the long form |
| Asn1Header.HeaderReads | framework-rest/libraries/boringssl/crypto/asn1/asn1_lib.c:128-265 | when the content follows and the data is counted by an int, every header with an allowed tag reads back |
| Asn1Header.LongFormAtTheEnd | framework-rest/libraries/boringssl/crypto/asn1/asn1_lib.c:196-233 | witness: 04 81 00 is refused at the end of the data and accepted before another octet |
| Asn1Header.GetBounds | framework-rest/libraries/boringssl/crypto/asn1/asn1_lib.c:128-194 | a header that was read, and its content unless flagged, lies inside the data; an indefinite length comes only with a constructed encoding |
| Asn1Header.ReadTagOctets | framework-rest/libraries/boringssl/crypto/asn1/asn1_lib.c:141-157 | high tag numbers in base 128 read back, for every int |
| Asn1Header.ReadOctets | framework-rest/libraries/boringssl/crypto/asn1/asn1_lib.c:209-227 | n length octets read as their number exactly when n octets beyond the current one are promised |
| Asn1.GetLength | framework-rest/libraries/boringssl/crypto/asn1/asn1_lib.c:196-233 | the cursor loop computes the specified reading of the length octets |
| Asn1.GetTag | framework-rest/libraries/boringssl/crypto/asn1/asn1_lib.c:141-157 | the cursor loop computes the specified reading of a high tag number |
| Asn1.GetObject | framework-rest/libraries/boringssl/crypto/asn1/asn1_lib.c:128-194 | the function computes the specified reading of the header, with all its error bits |
| Asn1.PutTag | framework-rest/libraries/boringssl/crypto/asn1/asn1_lib.c:247-259 | the tag octets are written backwards into place, everything else stays |
| Asn1.PutLength | framework-rest/libraries/boringssl/crypto/asn1/asn1_lib.c:276-297 | the length octets are written backwards into place, everything else stays |
| Asn1.PutObject | framework-rest/libraries/boringssl/crypto/asn1/asn1_lib.c:237-265 | exactly the header is written at the cursor, everything else stays |
| Asn1.ObjectSize | framework-rest/libraries/boringssl/crypto/asn1/asn1_lib.c:299-325 | the octets that header, content and, for an indefinite length, end-of-contents take, kept in an int: the exact number if and only if it is at most INT_MAX |
| Asn1.FindEnd | framework-rest/libraries/boringssl/crypto/asn1/tasn_dec.c:1087-1135 | the loop over cursor, length and counter computes the flat search |
| Asn1.FlatSkips | framework-rest/libraries/boringssl/crypto/asn1/tasn_dec.c:1087-1135 | once a balanced sequence of encodings and its end-of-contents are passed, the flat counter is exactly one lower |
| Asn1.FlatFinds | framework-rest/libraries/boringssl/crypto/asn1/tasn_dec.c:1087-1135 | whenever the flat counter finds an end, a balanced sequence ends there |
| Asn1.FindEndExact | framework-rest/libraries/boringssl/crypto/asn1/tasn_dec.c:1087-1135 | the flat counter is the recursive grammar: it succeeds with e if and only if the data starts with a balanced sequence whose end-of-contents ends at e |
| Asn1.WriteReads | framework-rest/libraries/boringssl/crypto/asn1/tasn_dec.c:1255-1342 | every tree of definite and indefinite elements, written anywhere in data of any size, is read back with its shape if and only if every header is legible: the octets behind its tag, counted with an int, are as many as the length reader wants |
| Asn1.FindEndOfTree | framework-rest/libraries/boringssl/crypto/asn1/tasn_dec.c:1087-1135 | on any such tree closed by its end-of-contents the search stops exactly after it, whatever follows, if and only if every header is legible; otherwise it fails |
| Asn1.SmallReadable | framework-rest/libraries/boringssl/crypto/asn1/tasn_dec.c:1087-1135 | in data of at most INT_MAX octets every header is legible |
| Asn1.EmptyTagZero | framework-rest/libraries/boringssl/crypto/asn1/tasn_dec.c:1235-1247 | witness: an empty primitive element of universal tag 0 is taken for the end-of-contents |
| Calendar.JulianCounts | framework-rest/libraries/boringssl/crypto/time_support.c:87-91 | day numbers count days: the next Gregorian day has the next number |
| Calendar.JulianParts | framework-rest/libraries/boringssl/crypto/time_support.c:87-91 | the one-line expression is the count of days by 400-year cycle, century, year and March month |
| Calendar.DateRoundTrip | framework-rest/libraries/boringssl/crypto/time_support.c:87-106 | `julian_to_date` inverts `date_to_julian` on every valid date from the first year of the day count on |
| Calendar.DateExists | framework-rest/libraries/boringssl/crypto/time_support.c:93-106 | every day number belongs to a valid date |
| Calendar.JulianRoundTrip | framework-rest/libraries/boringssl/crypto/time_support.c:87-106 | `julian_to_date` yields the one valid date with that number |
| TimeSupport.NoOverflow | framework-rest/libraries/boringssl/crypto/time_support.c:87-91 | no int product of `date_to_julian` overflows on the years allowed |
| TimeSupport.SplitOffset | framework-rest/libraries/boringssl/crypto/time_support.c:114-128 | the truncating split gets the seconds right for every long offset, and the days modulo 2^32 |
| TimeSupport.JulianAdj | framework-rest/libraries/boringssl/crypto/time_support.c:109-148 | day and second of the shifted time, carries in both directions included; fails exactly on a negative day |
| TimeSupport.GmtimeAdj | framework-rest/libraries/boringssl/crypto/time_support.c:150-178 | succeeds exactly when the target year is 1900 to 9999 and changes nothing otherwise; the instant moves by exactly offset_day days and offset_sec seconds if and only if the days moved fit an int |
| TimeSupport.ShiftLost | framework-rest/libraries/boringssl/crypto/time_support.c:114-139 | witness: a shift of 2^32 days in seconds is taken for no shift |
| TimeSupport.AdjReaches | framework-rest/libraries/boringssl/crypto/time_support.c:150-178 | every target date of the years 1900 to 9999 that an int of days reaches is reached |
| TimeSupport.GmtimeDiff | framework-rest/libraries/boringssl/crypto/time_support.c:180-212 | days and seconds add up to the true difference of the instants and never have opposite signs |
| TimeSupport.DifferenceUnique | framework-rest/libraries/boringssl/crypto/time_support.c:180-212 | those conditions leave only one answer |
| UtcTime.ReadFields | framework-rest/libraries/boringssl/crypto/asn1/a_utctm.c:102-158 | the field loop accepts exactly two-digit fields in range and fills the time with them |
| UtcTime.ReadZone | framework-rest/libraries/boringssl/crypto/asn1/a_utctm.c:159-186 | the zone is nothing, Z or a signed hour and minute; its offset is added |
| UtcTime.ToTm | framework-rest/libraries/boringssl/crypto/asn1/a_utctm.c:102-189 | accepts exactly the strings of the form stated and yields the instant with the zone added, which is the instant that X.680 gives the string if and only if there is no offset |
| UtcTime.PrintReads | framework-rest/libraries/boringssl/crypto/asn1/a_utctm.c:102-277 | every printed time of 1950 to 2049 reads back field by field, if and only if it is not a leap second |
| UtcTime.Adj | framework-rest/libraries/boringssl/crypto/asn1/a_utctm.c:223-277 | the printed string reads back as the shifted time, exactly offset days and seconds later; it fails only for times it cannot reach or print |
| UtcTime.CmpTime | framework-rest/libraries/boringssl/crypto/asn1/a_utctm.c:280-303 | the order of the two instants; -2 exactly for a malformed string or an instant before day 0 |
| UtcTime.OffsetSign | framework-rest/libraries/boringssl/crypto/asn1/a_utctm.c:159-186 | witness: 8201020700-0500 is read ten hours before 8201021200Z, the instant X.680 gives it |
| UtcTime.NoZoneAccepted | framework-rest/libraries/boringssl/crypto/asn1/a_utctm.c:159-189 | witness: twelve digits without a zone are accepted |
| Utf8.GetPut | framework-rest/libraries/boringssl/crypto/asn1/a_utf8.c:75-210 | reading what was written gives every value below 2^31 back, whatever follows; what happens to larger ones |
| Utf8.PutGet | framework-rest/libraries/boringssl/crypto/asn1/a_utf8.c:75-210 | what was read is exactly the encoding of the value: no other octets decode to it |
| Utf8.GetExact | framework-rest/libraries/boringssl/crypto/asn1/a_utf8.c:75-143 | reading fails on non-empty input exactly when no encoding is there |
| Utf8.HighBitLost | framework-rest/libraries/boringssl/crypto/asn1/a_utf8.c:75-210 | witness: 2^31 + 65 is written in a form that is refused, 2^31 + 2^26 reads back as 2^26 |
| Utf8.Getc | framework-rest/libraries/boringssl/crypto/asn1/a_utf8.c:75-143 | all six forms, with the codes for short, illegal and overlong input |
| Utf8.Putc | framework-rest/libraries/boringssl/crypto/asn1/a_utf8.c:154-210 | exactly the encoding is written, or -1 and nothing when there is no room |
| MbString.UnitsRead | framework-rest/libraries/boringssl/crypto/asn1/a_mbstr.c:247-278 | text written in a form that can hold it is read back |
| MbString.FixedWidth | framework-rest/libraries/boringssl/crypto/asn1/a_mbstr.c:107-142 | in the fixed-width forms a text is well formed exactly when its length is a multiple of the width |
| MbString.ChosenIsMinimal | framework-rest/libraries/boringssl/crypto/asn1/a_mbstr.c:158-179 | the type chosen holds every character and is the first such type of the mask; only an unknown mask bit makes it UTF8String unasked |
| MbString.CountUtf8 | framework-rest/libraries/boringssl/crypto/asn1/a_mbstr.c:284-290 | counts the characters, or fails exactly on malformed UTF-8 |
| MbString.NarrowAll | framework-rest/libraries/boringssl/crypto/asn1/a_mbstr.c:306-321 | after the pass the mask holds exactly the types that can hold the whole text |
| MbString.Utf8Length | framework-rest/libraries/boringssl/crypto/asn1/a_mbstr.c:294-299 | the sizing pass counts exactly the bytes of the UTF-8 text |
| MbString.CopyAll | framework-rest/libraries/boringssl/crypto/asn1/a_mbstr.c:325-374 | the copy pass fills exactly the bytes that were allowed for |
| MbString.CountChars | framework-rest/libraries/boringssl/crypto/asn1/a_mbstr.c:106-142 | the number of characters, or an error for a malformed text |
| MbString.NCopy | framework-rest/libraries/boringssl/crypto/asn1/a_mbstr.c:90-240 | fails exactly for an unknown form, a malformed text, too few or too many characters, or no type left; otherwise the chosen type and its bytes |
| MbString.Convert | framework-rest/libraries/boringssl/crypto/asn1/a_mbstr.c:208-240 | the output is the text in the chosen form |
| MbString.TextPreserved | framework-rest/libraries/boringssl/crypto/asn1/a_mbstr.c:90-240 | the output, decoded in its own form, is the same text, if and only if it is not text of another form going to UTF-8 with a character of 2^31 or more |
| MbString.HighCharacterLost | framework-rest/libraries/boringssl/crypto/asn1/a_mbstr.c:90-240 | witness: a universal character of 2^31 + 2^26 becomes another character in UTF-8 |
| MbString.NulIsPrintable | framework-rest/libraries/boringssl/crypto/asn1/a_mbstr.c:377-390 | witness: the terminating NUL passes as a PrintableString character |
| MbString.UnknownMaskBit | framework-rest/libraries/boringssl/crypto/asn1/a_mbstr.c:158-179 | witness: a mask of one unknown bit selects UTF8String, which it does not allow |
| Base64.EncodeBlock | framework-rest/libraries/boringssl/crypto/base64/base64.c:177-207 | the loop computes the groups of section 4 of RFC 4648 |
| Base64.BlockDecodes | framework-rest/libraries/boringssl/crypto/base64/base64.c:177-263 | decoding an encoded block of any length gives the bytes |
| Base64.DecodeBase64 | framework-rest/libraries/boringssl/crypto/base64/base64.c:217-263 | strict decoding: fails exactly without room, on a length that is no multiple of four, on bad characters or on padding before the last group |
| Base64.DecodeGroup | framework-rest/libraries/boringssl/crypto/base64/base64.c:228-258 | shifting four digits together and cutting out the bytes decodes one group |
| Base64.DecodeBlock | framework-rest/libraries/boringssl/crypto/base64/base64.c:430-460 | white space cut off at both ends, padding filled with zero bytes, a decoded length above INT_MAX refused |
| Base64.BlockShape | framework-rest/libraries/boringssl/crypto/base64/base64.c:177-207 | an encoded block is plain characters and then one = for every missing byte |
| Base64.EncodedBlockDecodes | framework-rest/libraries/boringssl/crypto/base64/base64.c:430-460 | a decoded block is the bytes and one zero byte for every =, and is refused exactly when that is more than an int counts |
| Base64.BadBlock | framework-rest/libraries/boringssl/crypto/base64/base64.c:217-460 | a block with a character outside the alphabet does not decode, wherever the character is and whatever the padding |
| Base64Stream.LinesSplit | framework-rest/libraries/boringssl/crypto/base64/base64.c:120-175 | the text is its complete lines and the line of what is pending |
| Base64Stream.MoreBytes | framework-rest/libraries/boringssl/crypto/base64/base64.c:120-163 | more bytes behind what is pending complete the same lines as all bytes at once |
| Base64Stream.EncodeCtx.Update | framework-rest/libraries/boringssl/crypto/base64/base64.c:120-163 | every line that is completed goes out, the rest is kept |
| Base64Stream.EncodeCtx.Final | framework-rest/libraries/boringssl/crypto/base64/base64.c:165-175 | the pending bytes go out as the last line |
| Base64Stream.SplitIndependent | framework-rest/libraries/boringssl/crypto/base64/base64.c:120-175 | for every split of the input over the calls, the concatenated output is the same text of 64-character lines |
| Base64Stream.EncodeAll | framework-rest/libraries/boringssl/crypto/base64/base64.c:120-175 | init, any number of updates, final: the text of the concatenated bytes |
| Base64Reader.DecodeCtx.Store | framework-rest/libraries/boringssl/crypto/base64/base64.c:297-324 | white space, line ends and - are skipped, everything else is kept |
| Base64Reader.DecodeCtx.FlushLine | framework-rest/libraries/boringssl/crypto/base64/base64.c:361-399 | a held line is decoded, its padding taken off, and the end of the input noted |
| Base64Reader.DecodeCtx.Close | framework-rest/libraries/boringssl/crypto/base64/base64.c:343-399 | which characters complete a line |
| Base64Reader.DecodeCtx.Feed | framework-rest/libraries/boringssl/crypto/base64/base64.c:290-401 | one round of the loop refines the character step |
| Base64Reader.DecodeCtx.Update | framework-rest/libraries/boringssl/crypto/base64/base64.c:272-410 | the loop refines the run of character steps, from any state of the context |
| Base64Reader.DecodeCtx.Final | framework-rest/libraries/boringssl/crypto/base64/base64.c:412-428 | what is still held is decoded as a block |
| Base64Reader.FullLine | framework-rest/libraries/boringssl/crypto/base64/base64.c:272-410 | a line of 64 characters and its newline give back its 48 bytes and the state at the start of a line |
| Base64Reader.PaddedFullLine | framework-rest/libraries/boringssl/crypto/base64/base64.c:272-410 | a full line with padding gives back its bytes and ends the input |
| Base64Reader.ShortLine | framework-rest/libraries/boringssl/crypto/base64/base64.c:272-410 | a short last line gives back its bytes |
| Base64Reader.LinesDecode | framework-rest/libraries/boringssl/crypto/base64/base64.c:272-410 | one update over the text of any bytes gives exactly those bytes |
| Base64Reader.DecodeText | framework-rest/libraries/boringssl/crypto/base64/base64.c:265-428 | init, one update over the whole encoded text, final: exactly the original bytes |
| Base64Reader.BadRun | framework-rest/libraries/boringssl/crypto/base64/base64.c:272-410 | from any state inside a line, with a character outside the alphabet held or to come before the line is decoded: nothing more is written; -1 exactly for a third =, 0 with nothing held when the line is decoded, 1 with all of it held when the input ends before |
| Base64Reader.BadText | framework-rest/libraries/boringssl/crypto/base64/base64.c:265-428 | a text that goes wrong behind any number of complete lines: exactly those lines are written, the result is -1, 0 or 1 as above, and with 1 the end fails |
| Base64Reader.BadCharacterUnseen | framework-rest/libraries/boringssl/crypto/base64/base64.c:265-428 | witness: the text A!AA and a newline is reported as a complete empty text |
| Base64Reader.OutputContiguous | framework-rest/libraries/boringssl/crypto/base64/base64.c:272-410 | in every call, whatever the calls before left, each line is written where the count of the bytes written says, so the moving output pointer leaves no gap; and every state it ends in allows the same for the next call |
| Asn1Integer.ShortestUnique | framework-rest/libraries/boringssl/crypto/asn1/a_int.c:88-113 | there is only one shortest two's complement encoding (section 8.3.2 of X.690) of a number |
| Asn1Integer.TwosRange | framework-rest/libraries/boringssl/crypto/asn1/a_int.c:88-113 | the range of n contents octets |
| Asn1Integer.NegatedValue | framework-rest/libraries/boringssl/crypto/asn1/a_int.c:157-173 | keeping trailing zeros, negating the last other octet and complementing the rest negates modulo 256^n |
| Asn1Integer.ContentsValue | framework-rest/libraries/boringssl/crypto/asn1/a_int.c:115-177 | the octets written are two's complement of the value, and the shortest when the magnitude has no leading zeros |
| Asn1Integer.ParsedValue | framework-rest/libraries/boringssl/crypto/asn1/a_int.c:181-266 | the sign and magnitude read are exactly the two's complement value, with a normal magnitude from shortest octets |
| Asn1Integer.ReadThenWrite | framework-rest/libraries/boringssl/crypto/asn1/a_int.c:115-266 | writing what was read restores the octets if and only if they were the shortest |
| Asn1Integer.WriteThenRead | framework-rest/libraries/boringssl/crypto/asn1/a_int.c:115-266 | reading what was written restores every integer in normal form |
| Asn1Integer.I2c | framework-rest/libraries/boringssl/crypto/asn1/a_int.c:115-177 | the backward loops write exactly those octets into the buffer |
| Asn1Integer.C2i | framework-rest/libraries/boringssl/crypto/asn1/a_int.c:181-266 | the object holds exactly the two's complement value of any octets, none included |
| Asn1Integer.CompareOctets | framework-rest/libraries/boringssl/crypto/asn1/asn1_lib.c:488-503 | comparing octets of one length is comparing magnitudes |
| Asn1Integer.Compare | framework-rest/libraries/boringssl/crypto/asn1/a_int.c:68-87 | the result has the sign of the difference if and only if the two are not zeros of different sign and, with equal signs, the one with more octets has the larger magnitude; always for integers in normal form; what the other cases answer |
| Asn1Integer.OrderedByLength | framework-rest/libraries/boringssl/crypto/asn1/a_int.c:68-87 | witness: the integers read from 00 00 01 and from 02 are ordered 1 above 2 |
| Asn1Integer.FlipTwos | framework-rest/libraries/boringssl/crypto/asn1/x_long.c:108-176 | complementing every octet of v gives -1 - v and keeps an encoding shortest |
| Asn1Integer.LongAgrees | framework-rest/libraries/boringssl/crypto/asn1/x_long.c:108-143 | the two codecs agree: `long_i2c` writes for every value the octets `i2c_ASN1_INTEGER` writes |
| Asn1Integer.LongI2c | framework-rest/libraries/boringssl/crypto/asn1/x_long.c:108-143 | the shortest octets of every long, LONG_MIN with its wrapping negation included, and -1 for the value that stands for an absent one |
| Asn1Integer.LongC2i | framework-rest/libraries/boringssl/crypto/asn1/x_long.c:145-176 | the two's complement value of at most eight octets; refused exactly above that or for the absent value |
| Asn1Integer.Set | framework-rest/libraries/boringssl/crypto/asn1/a_int.c:338-376 | the object holds the long, LONG_MIN with its wrapping negation included, its magnitude without leading zeros |
| Asn1Integer.LowOctets | framework-rest/libraries/boringssl/crypto/asn1/a_int.c:359-371 | the loop of at most eight arithmetic shifts yields the octets of the magnitude of every long |
| Asn1Integer.Get | framework-rest/libraries/boringssl/crypto/asn1/a_int.c:378-405 | the value whenever a long holds it; -1 for more than eight octets, wrapped otherwise |
| RunOnce.StepKeeps | framework-rest/libraries/boringssl/crypto/thread_win.c:34-75 | every step of every thread keeps: at most one thread is inside init, and the word says which phase it is |
| RunOnce.OnceOnly | framework-rest/libraries/boringssl/crypto/thread_win.c:34-75 | for any number of callers and every schedule: init is entered at most once, no call has returned before it completed, abort is never reached |
| RunOnce.NeverStuck | framework-rest/libraries/boringssl/crypto/thread_win.c:34-75 | from every reachable state there is a way on by which every call returns |
| RefCount.StepExplained | framework-rest/libraries/boringssl/crypto/refcount_c11.c:37-65 | every step keeps the invariant, and the call that takes effect with it is one call of the locked version |
| RefCount.Linearises | framework-rest/libraries/boringssl/crypto/refcount_c11.c:37-65 | under every schedule, with spurious failures anywhere, the calls in the order they take effect are a run of the locked version with the same results and count |
| RefCount.EffectOnce | framework-rest/libraries/boringssl/crypto/refcount_c11.c:37-65 | every finished call took effect exactly once, with the result it returned |
| RefCount.CountsReferences | framework-rest/libraries/boringssl/crypto/refcount_lock.c:29-51 | whatever the history, as long as the count is below saturation it is references taken less references given back |
| RefCount.SaturationIsPermanent | framework-rest/libraries/boringssl/crypto/refcount_lock.c:29-51 | 0xffffffff never changes again and no call reports zero |
| RefCount.LastReference | framework-rest/libraries/boringssl/crypto/refcount_lock.c:37-51 | callers that only give back references they hold never abort; the count is the references held unless it has saturated; zero is reported by the call that gives up the last reference and by no other |
| RefCount.ReleaseOfNothing | framework-rest/libraries/boringssl/crypto/refcount_c11.c:49-65 | under every schedule in which no thread takes a reference, from count 0: every release aborts and the count stays 0 |
| RefCount.AbortsOnlyAtZero | framework-rest/libraries/boringssl/crypto/refcount_c11.c:37-65 | under every schedule only a release aborts, and only when every reference taken has been given back |
| Signing.EncodeUrl | framework-rest/jni/URLSignature.cpp:58-78 | the loop computes the percent encoding |
| Signing.DecodeEncode | framework-rest/jni/URLSignature.cpp:24-78 | the encoding can be undone, for every NUL-free string |
| Signing.EncodeInjective | framework-rest/jni/URLSignature.cpp:24-78 | different strings have different encodings |
| Signing.EncodeIsEncoded | framework-rest/jni/URLSignature.cpp:24-78 | an encoding contains neither & nor = |
| Signing.ToParamList | framework-rest/jni/fmrest.cpp:355-387 | one text key=value for each index both arrays have and both strings can be read at, in order |
| Signing.PairInjective | framework-rest/jni/fmrest.cpp:370-377 | the text of a pair determines the pair |
| Signing.SamePairs | framework-rest/jni/fmrest.cpp:355-387 | two lists of texts are permutations of each other exactly when the lists of pairs are |
| Signing.Sort | framework-rest/jni/URLSignature.cpp:82-88 | a sorted permutation |
| Signing.OrderDetermined | framework-rest/jni/URLSignature.cpp:82-88 | the order is determined by which texts there are: two sorted lists of the same texts are equal |
| Signing.JoinInjective | framework-rest/jni/URLSignature.cpp:90-95 | texts without & come apart again after joining |
| Signing.EncodeParams | framework-rest/jni/URLSignature.cpp:86-99 | sort, join with &, encode once more |
| Signing.ParamsCanonical | framework-rest/jni/URLSignature.cpp:86-99 | the encoded parameters are equal if and only if one list of pairs is a permutation of the other |
| Signing.BuildMessage | framework-rest/jni/fmrest.cpp:417-432 | the copied parts make the message and its NUL in a buffer of exactly that size |
| Signing.MessageDetermines | framework-rest/jni/fmrest.cpp:389-442 | for a fixed secret two messages are equal if and only if method, URL and the pairs up to their order are |
| Signing.SignedMessage | framework-rest/jni/fmrest.cpp:355-432 | from the arrays of names and values to the canonical message |

## Left out

- 32-bit builds (`BN_BITS2 == 32`), where the limits of the binary inversion and of the decimal blocks differ.
- Implementations taken by contract: BN_mul, BN_sqr, BN_mul_word, shifts, bit counts, bn_div_words, Montgomery multiplication and its set-up.
- Assembly, RSAZ, bn_scatter5/bn_power5 and every other build-dependent fast path; timing and cache access of the constant-time code.
- Failing allocations outside BN_CTX and BN_reciprocal, the error queue, wiping and freeing of memory.
- The dispatch in BN_mod_exp, BN_exp, BN_mod_sqr, BN_mod_word, BN_kronecker and the MPI and printing helpers of convert.c.
- The refusal of bn_wexpand above 8388607 words is stated for the operations on `Big` and for the three readers of text and octets; the operations on `BigNum` values (word arithmetic, division, powers) are modelled without it.
- BinaryForm.Bn2BinPadded: sizes of the array and of the output are below 2^63, as constant_time_le_size_t demands.
- Wrap-around of the unsigned counters of BN_CTX after 2^32 bignums or frames.
- Callbacks, retry flags, external buffers, bio_puts and the other controls of the BIO pair; bio_io beyond its counters.
- BioPair.Bio.MakePair: the two buffers are there already; allocating them is BioPair.Half.constructor.
- d2i_ASN1_UINTEGER, BN_to_ASN1_INTEGER and ASN1_INTEGER_to_BN; the template engine of tasn_dec.c, the cached header of asn1_check_tlen and its tag matching.
- Asn1.FindEnd: overflow of the int counter by more than INT_MAX nested indefinite encodings.
- Overflow of int output lengths in string conversion and base64; EVP_EncodedLength, EVP_DecodedLength and the NUL that is put behind base64 text.
- UtcTime.ToTm: after a field the code's `++o > l` lets it read the octet one past the length, which the model takes for the end; that is so for the NUL-terminated strings that ASN1_UTCTIME objects hold.
- gmtime itself and years outside -4799 to 1465000; the type check of UTCTime objects; GeneralizedTime.
- Weak memory orders: the steps of RunOnce and RefCount are sequentially consistent.
- Signing.Sort: list::sort by its outcome; its comparison is not a strict weak order, which the standard asks for, and the model takes a sorted permutation as the result.
- JNI calls, the checks of package and fingerprint, the key tables, HMAC and SHA-1.
- AES, the file, socket and printf BIOs, BIO_f_asn1, NDEF streaming, thread-local destructors and the JavaScript bridge.
