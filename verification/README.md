# Verified models of the ZRTP library's arithmetic, primes, AES and UTF-8 conversion

The project models, in Dafny, the parts of a ZRTP implementation that are hard to get right by reading:

* **bnlib**, the multiprecision library behind finite-field Diffie-Hellman. Numbers are little-endian arrays of 32-bit
  words; a C pointer is an array with an offset. `Words` gives them their value, and every routine is specified on
  values: Knuth's Algorithm D with the quotient stored over the dividend (`LbnKnuth`, on the half-word 2/1 division of
  `LbnDiv21`), halve-and-double squaring (`LbnSquare`), Montgomery reduction with Newton's inverse (`LbnMont`), four
  exponentiation engines (`LbnExp`, `LbnDoubleExp`, `LbnTwoExp`, `LbnPrecomp`), the inverse by one unsigned cosequence
  (`LbnInv`) and byte insertion and extraction (`LbnBytes`). `Window` holds the sliding-window argument apart from any
  arithmetic on the base.
* **The number objects** on top of it (`BigNumber`), a class whose methods change its buffer and size in place.
* **Primes**: the bit-packed sieve (`SieveBits`, `Sieve`), the primality test (`PrimeTest`) and one pass of the shuffled
  search (`PrimeSearch`). `NumberTheory` proves what they rest on: Fermat's theorem, the square roots of one and Euler's
  criterion for 2.
* **AES** from tables (`AesField`, `AesCipher`, `AesBlock`, `AesKeys`) with its folded decryption key schedule, against
  the cipher and key expansion of FIPS 197 on bytes (`AesStandard`), and the stateful stream modes (`AesModes`).
* **The UTF-8 to UTF-16 converter** (`Utf8`, `Utf16`): an unchecked fast loop, a checked loop, a counting loop and the
  variant for strings that end with a zero byte, all against one pure decoder.

The main results, end to end: `LbnExp.ExpMod`, `LbnDoubleExp.DoubleExpMod`, `LbnTwoExp.TwoExpMod` and
`LbnPrecomp.BasePrecompExp` return the modular power they are named after for every exponent; `LbnKnuth.Div` divides;
`LbnInv.Inv` inverts exactly the numbers that have an inverse; `PrimeTest.PrimeVerdict` says that of the odd primes
exactly those above 17 are accepted, so that no larger prime is ever rejected, and `PrimeTest.AcceptedIsStrong` that
what is accepted are strong probable primes to all seven bases, which `PrimeTest.AcceptsMeans` says in powers alone;
`PrimeSearch.PrimeIsFound` says which primes of a window the sieve leaves, and `PrimeSearch.Pass` that a pass over a
window that holds one of them, a prime above 2^16 that no exponent excludes, cannot come back empty; `AesBlock.Encrypt`
and `AesKeys.SetEncryptKey` are those of FIPS 197, and `AesKeys.RoundTrip` says that decryption undoes encryption for
every key length and either order of the decryption schedule; `AesModes.AnySplitting` and `AesModes.CtrAnySplitting` say
that a stream may be cut into calls anywhere; `AesModes.RunIsStandard` ties the feedback modes to SP 800-38A;
`Utf16.FromUtf8` is independent of the capacity of its buffer, and `Utf8.ErrorTakes` says what a malformed sequence
takes.

Where the code and its documentation disagree the model follows the code:

* `lbnDoubleExpMod_32` exchanges bases and exponents when the second exponent is longer, but not the bases' lengths.
  `DoubleExpMod` states what is then computed. `DoubleMeetsPromise` says when that is the documented product: if nothing is
  exchanged or the words of both bases between the two lengths are zero, exactly when no lone exponent of 0 or 1 leaves an
  unreduced number. `LengthsNotExchanged` gives bases of different lengths for which the result is wrong.
* The exponentiations copy the base unreduced for exponent 1 and return 1 for exponent 0 even modulo 1;
  `ExpResultIsPower` states exactly when that is the power.
* Of two branches in `lbnInv_32` that would carry into words above a shorter product, one names the wrong accumulator;
  `AddProduct` proves that neither can be entered. For a number above 1 that divides the modulus the function does not
  return its failure code but stops in a division by a number of no words; `Inv` says that this happens for exactly those.
* An exponent of 1 passes the odd check of `primeGen`, but of the candidates, all of which are 1 modulo 1, the first one is
  left; `ExclusionIsExact` says that exponent 1 is the only one for which the removal is not exact.
* Bytes inserted into a number object and extracted again come back exactly when the number still reaches up to them:
  zero bytes put above its top are dropped, and the extraction then counts below zero. `InsertThenExtract` states the
  condition on the number before the insertion, and `ZerosAreLost` gives such an insertion.
* In counter mode two calls need not leave the saved state of one. `TwoCalls` says exactly when they do, `EightAndEight`
  gives a case where they do not, and `BehindSame` says that the output never tells the states apart.

`dafny verify dfyconfig.toml` checks the whole project.

## Model

| member | source | states |
|---|---|---|
| LbnBasic.Add1 | bnlib/lbn32.c:227-242 | value after plus the carry out of the top is the value before plus the word; other words unchanged |
| LbnBasic.Sub1 | bnlib/lbn32.c:284-299 | the same for subtraction with its borrow |
| LbnBasic.AddN | bnlib/lbn32.c:331-347 | sum and carry of two numbers, also when they overlap from above |
| LbnBasic.SubN | bnlib/lbn32.c:388-405 | difference and borrow |
| LbnBasic.Neg | bnlib/lbn32.c:185-203 | two's complement negation: B^len minus the number, or zero for zero |
| LbnBasic.Cmp | bnlib/lbn32.c:434-449 | the sign of the difference, from the highest word that differs |
| LbnBasic.Norm | bnlib/lbn32.c:1127-1135 | the length without leading zero words, with the same value |
| LbnBasic.Bits | bnlib/lbn32.c:1145-1166 | the number of significant bits, bounded on both sides by powers of two |
| LbnBasic.LeadingZeros | bnlib/lbn32.c:1332-1342 | the halving search finds the shift that brings a word's top bit to the top |
| LbnBasic.Lshift | bnlib/lbn32.c:669-687 | value after plus the bits pushed out is the value times 2^shift |
| LbnBasic.Double | bnlib/lbn32.c:694-709 | twice the value, with the carry out |
| LbnBasic.Rshift | bnlib/lbn32.c:716-735 | quotient by 2^shift in place, remainder returned |
| LbnMul.MulN1 | bnlib/lbn32.c:524-540 | product of a number and a word |
| LbnMul.MulAdd1 | bnlib/lbn32.c:581-599 | accumulating a product by a word; the returned word is the carry |
| LbnMul.MulSub1 | bnlib/lbn32.c:638-659 | subtracting a product by a word; the returned word is the borrow |
| LbnMul.Mul | bnlib/lbn32.c:747-769 | the full product, also when the second factor lies in the product's own high words |
| LbnSquare.SquareSplits | bnlib/lbn32.c:1027-1066 | a square is its diagonal plus twice its off-diagonal part |
| LbnSquare.Square | bnlib/lbn32.c:1067-1120 | halving, accumulating, doubling and mending give exactly the square; every discarded carry is zero |
| LbnDiv21.Div21 | bnlib/lbn32.c:1243-1288 | two words by one normalised word, from half-word digits that are at most two too large |
| LbnDiv.Div1 | bnlib/lbn32.c:1314-1374 | quotient, its top word and remainder of a division by one word, normalised or not |
| LbnDiv.ModQ | bnlib/lbn32.c:1432-1448 | the remainder by a 16-bit divisor, half a word at a time |
| LbnKnuth.EstimateBounds | bnlib/lbn32.c:1680-1720 | an estimate that passes the two-word test is never low and at most one too high |
| LbnKnuth.NextEstimate | bnlib/lbn32.c:1742-1789 | the corrections leave such an estimate, including the saturated case |
| LbnKnuth.SubtractDigit | bnlib/lbn32.c:1799-1812 | multiply, subtract and at most one add-back leave the exact digit and remainder |
| LbnKnuth.DivLoop | bnlib/lbn32.c:1733-1815 | the digits so far and the remainder so far make up the dividend, while quotient words overwrite dividend words |
| LbnKnuth.Div | bnlib/lbn32.c:1551-1824 | n = (qhigh B^(nlen-dlen) + q) d + r with r < d, d restored, nothing else touched, also when q overlays n |
| LbnMont.NewtonBits | bnlib/lbn32.c:1826-1848 | each Newton step at least doubles the number of correct low bits |
| LbnMont.MontInv1 | bnlib/lbn32.c:1837-1848 | inv times x is -1 modulo 2^32 for every odd x; the loop terminates |
| LbnMont.ClearLow | bnlib/lbn32.c:2006-2028 | adding multiples of the modulus clears the low half and carries at most one out of the top |
| LbnMont.SubtractModulus | bnlib/lbn32.c:2028-2037 | both subtraction loops end, with a value below the modulus in the same class |
| LbnMont.MontReduce | bnlib/lbn32.c:2006-2037 | for every input of 2 mlen words the top half t satisfies t B^mlen = n (mod m) and t < m |
| LbnMont.MontProduct | bnlib/lbn32.c:2044-2072 | reducing the product of two Montgomery forms gives the form of the product |
| LbnMont.MontMul | bnlib/lbn32.c:2044-2056 | the high half becomes the form of the product of the two numbers |
| LbnMont.MontSquare | bnlib/lbn32.c:2059-2070 | the high half becomes the form of the square |
| LbnMont.ToMont | bnlib/lbn32.c:2077-2085 | conversion to Montgomery form by division |
| LbnMont.FromMontHigh | bnlib/lbn32.c:2091-2099 | conversion back gives the residue itself |
| Window.WinRead | bnlib/lbn32.c:2482-2501 | taking in an exponent bit keeps: accumulated + pending + buffer + unread bits = exponent |
| Window.PendingBlocks | bnlib/lbn32.c:2503-2517 | while a multiply is pending the buffer's top bit cannot be set, so nothing pending is overwritten |
| Window.WinSchedule | bnlib/lbn32.c:2503-2514 | scheduling the buffer's odd part keeps the exponent, and its position is neither negative nor above the current one |
| Window.WinEnd | bnlib/lbn32.c:2531-2549 | at position 0 the accumulated exponent is the whole exponent and the window is empty |
| ExpReader.BitOfWord | bnlib/lbn32.c:2493-2501 | the bit under the mask in its word is that bit of the number |
| LbnExp.WindowBits | bnlib/lbn32.c:2316-2319 | the window width from the threshold table, always below the exponent's length |
| LbnExp.BuildTable | bnlib/lbn32.c:2358-2386 | table entry i holds the form of g^(2i+1) |
| LbnExp.ExpLoop | bnlib/lbn32.c:2482-2549 | with deferred multiplies and swapped accumulators the loop yields the form of g^e |
| LbnExp.ExpMod | bnlib/lbn32.c:2271-2574 | the modular power for every exponent, mod restored, the base possibly in the result buffer |
| LbnExp.ExpResultIsPower | bnlib/lbn32.c:2294-2311 | the returned number is n^e mod m if and only if the modulus is not 1 for e = 0 and n < m for e = 1 |
| LbnDoubleExp.DoubleLoop | bnlib/lbn32.c:2955-3067 | two windows of different widths over one position counter yield g1^e1 g2^e2, both empty at the end |
| LbnDoubleExp.DoubleExpMod | bnlib/lbn32.c:2607-3095 | what is returned for all bases and exponents, including the exchange that keeps the old lengths; a base has to be as long as the other one only if they are exchanged |
| LbnDoubleExp.DoubleMeetsPromise | bnlib/lbn32.c:2576-2649 | with nothing exchanged, or with zero words between the two lengths, the result is n1^e1 n2^e2 mod m if and only if a lone exponent of 0 has m > 1 and a lone exponent of 1 a base below m |
| LbnDoubleExp.DoubleIsProduct | bnlib/lbn32.c:2576-2599 | the same of the bases as they are read, without the lengths |
| LbnDoubleExp.BaseKept | bnlib/lbn32.c:2644-2649 | a base read with the other one's length keeps its value exactly when the words between the lengths are zero |
| LbnDoubleExp.LengthsNotExchanged | bnlib/lbn32.c:2644-2649 | bases of different lengths for which the result differs from the product |
| LbnTwoExp.TakePrefix | bnlib/lbn32.c:3139-3164 | the largest prefix of the exponent below the modulus's bit count, and where reading stops |
| LbnTwoExp.PrefixBelow | bnlib/lbn32.c:3139-3176 | the starting power of two is below the odd modulus |
| LbnTwoExp.DoubleMod | bnlib/lbn32.c:3224-3236 | doubling with a strict comparison stays reduced, since the modulus is odd |
| LbnTwoExp.TwoExpMod | bnlib/lbn32.c:3102-3276 | 2^exp mod m for every positive exponent and odd modulus above 1 |
| LbnPrecomp.BucketStep | bnlib/lbn32.c:3780-3793 | the two running sums of the bucket method from one digit value to the next |
| LbnPrecomp.BucketEnds | bnlib/lbn32.c:3780-3793 | they start at zero and end at the exponent itself |
| LbnPrecomp.NextDigit | bnlib/lbn32.c:3855-3867 | the cross-word bit buffer delivers the exponent's digits |
| LbnPrecomp.Pass | bnlib/lbn32.c:3850-3885 | one walk of the exponent multiplies in the entries of exactly the digits equal to i |
| LbnPrecomp.Level | bnlib/lbn32.c:3849-3900 | one turn of the descending loop adds the digits equal to i to b, and b to a |
| LbnPrecomp.BasePrecompBegin | bnlib/lbn32.c:3714-3778 | entry k is the form of g^(2^(k bits)) |
| LbnPrecomp.BasePrecompExp | bnlib/lbn32.c:3793-3918 | g^exp mod m for every exponent below 2^(n bits) |
| LbnPrecomp.DoubleBasePrecompExp | bnlib/lbn32.c:3936-4073 | the product of two fixed-base powers |
| Euclid.GcdDivisors | bnlib/lbn32.c:3475-3488 | the divisors of the greatest common divisor are exactly the common divisors |
| LbnInv.GcdN | bnlib/lbn32.c:3489-3514 | the named array holds the greatest common divisor |
| LbnInv.CoStep | bnlib/lbn32.c:3516-3526 | a t1 + b t0 = mod and the alternating signs are kept by every half step |
| LbnInv.AddProduct | bnlib/lbn32.c:3609-3624 | t0 += p; growth is monotone, so the carry-propagating branch is never entered |
| LbnInv.HalfStep | bnlib/lbn32.c:3592-3624 | one half of the loop, with all products inside their buffers |
| LbnInv.InvStart | bnlib/lbn32.c:3577-3588 | remainder, quotient and cosequence after the first division; the remainder has no words exactly when the number divides the modulus |
| LbnInv.Inv | bnlib/lbn32.c:3527-3704 | inverts if and only if a is coprime to mod, with a r = 1 (mod mod) and r <= mod; stopped if and only if a > 1 divides mod; otherwise refused |
| LbnBytes.ExtractBig | bnlib/lbn32.c:3293-3317 | the bytes from lsbyte on, most significant first, from any offset |
| LbnBytes.ExtractLittle | bnlib/lbn32.c:3380-3399 | the same, least significant first |
| LbnBytes.Insert | bnlib/lbn32.c:3332-3448 | the inserted bytes are in place and no other byte changes, for ranges that start or end inside a word |
| LbnBytes.InsertThenExtract | bnlib/lbn32.c:3293-3448 | extraction returns what was inserted, in either order |
| LbnBytes.ByteOfValue | bnlib/lbn32.c:3279-3292 | byte k of the words is byte k of the number |
| LbnBytes.BytesDetermine | bnlib/bn32.c:179-269 | a number is determined by its bytes, so that the contract of InsertBytes fixes the result |
| LbnBytes.ByteAbove | bnlib/bn32.c:218-264 | a number has more than n words exactly when a byte from place 4n on is not zero |
| BigNumber.BigNum.InsertBytes | bnlib/bn32.c:201-269 | the inserted bytes are in place, every other byte of the number keeps its value, no leading zero words are left |
| BigNumber.BigNum.ExtractBytes | bnlib/bn32.c:184-245 | the bytes of the number with zeros above it, in either order, exactly when lsbyte is at most 4 size; otherwise the count wraps |
| BigNumber.BigNum.InsertThenExtract | bnlib/bn32.c:184-269 | the bytes come back if and only if lsbyte is at most 4 size after the insertion, as a condition on the number before it |
| BigNumber.CoversUp | bnlib/bn32.c:184-269 | that condition is: lsbyte is 0, or an inserted byte is not zero, or a byte kept from the word below lsbyte on is not zero |
| BigNumber.ZerosAreLost | bnlib/bn32.c:184-223 | a zero byte inserted at byte 8 of the number 5 does not meet it |
| BigNumber.BigNum.SizeCheck | bnlib/bn32.c:130-150 | room for len words, the words in use kept |
| BigNumber.BigNum.CopyFrom | bnlib/bn32.c:162-170 | takes the other number's value |
| BigNumber.BigNum.LSWord | bnlib/bn32.c:272-276 | the number modulo 2^32 |
| BigNumber.BigNum.BitLength | bnlib/bn32.c:290-294 | the bit count; 1 exactly for the number 1 |
| BigNumber.BigNum.Add | bnlib/bn32.c:297-328 | the sum, also of a number with itself |
| BigNumber.BigNum.Sub | bnlib/bn32.c:336-368 | the absolute difference and its sign |
| BigNumber.BigNum.SetQ | bnlib/bn32.c:390-402 | takes a small value |
| BigNumber.BigNum.AddQ | bnlib/bn32.c:405-422 | adds a word |
| BigNumber.BigNum.SubQ | bnlib/bn32.c:428-447 | the absolute difference to a word and its sign |
| BigNumber.BigNum.CmpTo | bnlib/bn32.c:453-464 | the order of two numbers, leading zero words or not |
| BigNumber.BigNum.SquareOf | bnlib/bn32.c:467-494 | the square, also in place |
| BigNumber.BigNum.MulOf | bnlib/bn32.c:497-539 | the product, with any of the three objects the same |
| BigNumber.BigNum.ModOf | bnlib/bn32.c:601-626 | the remainder, also in place; the divisor unchanged |
| BigNumber.BigNum.Residue | bnlib/bn32.c:629-643 | the remainder by any 16-bit divisor, powers of two cut out of the lowest word |
| BigNumber.MaskIsRemainder | bnlib/bn32.c:638-641 | a divisor without a bit in common with its predecessor is a power of two, and masking the lowest word gives the remainder |
| BigNumber.BigNum.ExpModOf | bnlib/bn32.c:646-678 | the modular power, also into the base; an even modulus is refused |
| BigNumber.BigNum.TwoExpModOf | bnlib/bn32.c:716-737 | the modular power of two; an even modulus is refused |
| BigNumber.BigNum.RShift | bnlib/bn32.c:870-889 | the quotient by 2^amt |
| BigNumber.BigNum.MakeOdd | bnlib/bn32.c:896-946 | divides out and counts all factors of two; zero is left alone |
| SieveBits.Single | bnlib/sieve.c:242-278 | clears exactly the places start, start + step, start + 2 step, ... |
| SieveBits.Search | bnlib/sieve.c:290-343 | the next set bit, or 0 if there is none |
| Sieve.ModInvert | bnlib/sieve.c:180-210 | an inverse if and only if one exists; every intermediate value fits a word |
| Sieve.Small | bnlib/sieve.c:350-391 | bit k is set exactly when 2k + 1 is prime |
| Sieve.HitIsDivided | bnlib/sieve.c:404-428 | the places visited from the computed start are exactly the candidates that p divides |
| Sieve.SievePrime | bnlib/sieve.c:510-551 | one prime removes exactly the candidates of which it divides a member of the chain n, 2n + 1, ... |
| Sieve.ChainClosed | bnlib/sieve.c:404-420 | the chain's member j is 2^j n + 2^j - 1 |
| Sieve.SurvivesMeans | bnlib/sieve.c:404-428 | candidate m is left if and only if it is odd for an odd step and 2^j m + 2^j - 1 leaves a remainder by every prime in question for all j up to the doubling count |
| Sieve.Build | bnlib/sieve.c:429-560 | a bit stays set exactly when the candidate is odd (odd step) and no odd prime below 2^16 not dividing the step removes it |
| NumberTheory.Fermat | bnlib/prime.c:176-190 | a^(p-1) = 1 modulo a prime that does not divide a |
| NumberTheory.EulerForTwo | bnlib/prime.c:184-189 | 2^((p-1)/2) is 1 modulo p for p = 1, 7 (mod 8) and -1 for p = 3, 5 |
| NumberTheory.RootsOfOne | bnlib/prime.c:197-206 | modulo a prime only 1 and -1 square to 1 |
| PrimeTest.FirstStage | bnlib/prime.c:214-265 | the Euler stage accepts exactly what its comment says, and leaves bn - 1 = e 2^k with e odd |
| PrimeTest.StrongTest | bnlib/prime.c:270-291 | accepts exactly when the power is 1 or meets -1 within k - 1 squarings; with a reduced base, exactly the strong probable primes |
| PrimeTest.Test | bnlib/prime.c:132-298 | 0 exactly for accepted numbers, 1 if the first stage fails, otherwise the count up to the first base that fails; bn unchanged |
| PrimeTest.PrimeIsStrong | bnlib/prime.c:260-291 | a prime passes the strong test to every base below it |
| PrimeTest.PrimeFirstOk | bnlib/prime.c:178-257 | a prime passes the Euler stage |
| PrimeTest.PrimeVerdict | bnlib/prime.c:132-298 | of the odd primes, exactly those above 17 are accepted |
| PrimeTest.AcceptedIsStrong | bnlib/prime.c:178-298 | accepted are exactly the numbers that pass the first stage and the strong test to all seven bases |
| PrimeTest.StrongMeans | bnlib/prime.c:270-291 | with n - 1 = d 2^k, the test to base a passes if and only if a^d = 1 or a^(d 2^i) = -1 modulo n for some i < k |
| PrimeTest.FirstOkMeans | bnlib/prime.c:214-257 | the first stage in powers of 2 modulo n, by n modulo 8 |
| PrimeTest.AcceptsMeans | bnlib/prime.c:132-298 | a number is accepted if and only if it passes that and is a strong probable prime to 2, 3, 5, 7, 11, 13 and 17, in powers and congruences alone |
| PrimeTest.Carmichael | bnlib/prime.c:270-291 | 252601 passes Fermat's test to every base that it shares no factor with |
| PrimeTest.CarmichaelRejected | bnlib/prime.c:270-291 | it is rejected |
| PrimeTest.AcceptedIsFermat | bnlib/prime.c:132-298 | whatever is accepted passes Fermat's test to all seven bases |
| PrimeSearch.AddMult | bnlib/prime.c:304-315 | adds x y in steps that fit 16 bits |
| PrimeSearch.SubMult | bnlib/prime.c:317-328 | subtracts x y |
| PrimeSearch.SieveExponent | bnlib/prime.c:484-503 | removes exactly the candidates that are 1 modulo the exponent, for exponent 1 all but the first |
| PrimeSearch.ExclusionIsExact | bnlib/prime.c:484-503 | the candidates removed are those that are 1 modulo t if and only if t > 1 |
| PrimeSearch.EligibleMeans | bnlib/prime.c:473-503 | eligible are the numbers of the window that no odd prime below 2^16 divides and that are 1 modulo no exponent; with 1 among the exponents at most the first |
| PrimeSearch.Draw | bnlib/prime.c:533-544 | drawing an entry and replacing it keeps each set bit counted once |
| PrimeSearch.Walk | bnlib/prime.c:508-559 | for any choices each set bit is tried at most once, and all of them if none is accepted |
| PrimeSearch.Pass | bnlib/prime.c:473-566 | the accepted number is bn0 + 2q with q eligible, or all eligible ones were rejected and bn is bn0 + 16 SIEVE; a window that holds a prime the sieve leaves is never given up |
| PrimeSearch.PrimeIsFound | bnlib/prime.c:473-566 | a prime of any window is eligible if and only if it is above 2^16 and no exponent excludes it, and is then accepted |
| AesField.InvMixLinear | cryptcommon/aesopt.h:712-722 | the inverse column mix is linear |
| AesField.InvMixMix | cryptcommon/aestab.c:136-163 | the inverse mix of the tables undoes the forward mix of the tables |
| AesField.Twice | cryptcommon/aestab.c:155-158 | the macros for 4 and 8 are the one for 2 applied twice and three times |
| AesStandard.Multiples | cryptcommon/aestab.c:155-163 | what the macros compute are the products by 2, 3, 9, 11, 13 and 14, as carry-less products reduced by X^8 + X^4 + X^3 + X + 1 |
| AesStandard.ProductExample | cryptcommon/aesopt.h:572-575 | the example of section 4.2 of FIPS 197 |
| AesStandard.MixMatrix | cryptcommon/aestab.c:141-144 | the column mix of the tables is the matrix of section 5.1.3 of FIPS 197 |
| AesStandard.InvMixMatrix | cryptcommon/aestab.c:146-149 | the inverse mix is the matrix of section 5.3.3 |
| AesStandard.CipherIsStandard | cryptcommon/aescrypt.c:90-157 | the table-driven rounds are SubBytes, ShiftRows, MixColumns and AddRoundKey of section 5.1 on 16 bytes |
| AesStandard.InvCipherIsStandard | cryptcommon/aescrypt.c:206-288 | decryption is the equivalent inverse cipher of section 5.3.5 on 16 bytes |
| AesCipher.RoundsAre | cryptcommon/aescrypt.c:66-205 | the table-driven rounds are substitution, row shift, mix and key addition |
| AesCipher.RoundBack | cryptcommon/aescrypt.c:183-205 | an inverse round with a mixed key undoes a round, up to substitution and shift |
| AesCipher.Backwards | cryptcommon/aescrypt.c:222-288 | after j inverse rounds the state is that of encryption with n - 1 - j rounds done |
| AesCipher.DecryptEncrypt | cryptcommon/aescrypt.c:90-288 | decryption undoes encryption for any number of rounds, any invertible S-box and any keys |
| AesBlock.Encrypt | cryptcommon/aescrypt.c:90-157 | the fall-through switch runs 10, 12 or 14 rounds of the cipher of section 5.1 of FIPS 197; other contexts fail |
| AesBlock.Decrypt | cryptcommon/aescrypt.c:206-288 | the same for the equivalent inverse cipher, with the schedule in either order |
| AesKeys.EncryptKey | cryptcommon/aeskey.c:70-210 | the working words run through the expanded key, for all key lengths |
| AesKeys.ExpandedIsStandard | cryptcommon/aeskey.c:70-210 | byte by byte that is the key expansion of section 5.2 of FIPS 197: rotation, substitution and round constant at the start of a cycle, a second substitution for 256-bit keys |
| AesKeys.OneExpansion | cryptcommon/aeskey.c:70-210 | that recurrence determines the schedule |
| AesKeys.SlotInjective | cryptcommon/aeskey.c:230-237 | the index map of the reversed schedule is one to one |
| AesKeys.FoldStep | cryptcommon/aeskey.c:259-278 | the folded working words telescope: each step is one addition |
| AesKeys.FirstCycle | cryptcommon/aeskey.c:259-269 | the first cycle of the folded schedule |
| AesKeys.MiddleCycle | cryptcommon/aeskey.c:271-278 | the middle cycles mix only what is new |
| AesKeys.LastCycle | cryptcommon/aeskey.c:280-286 | the last cycle recovers the unmixed words |
| AesKeys.DecryptKey128 | cryptcommon/aeskey.c:314-348 | the stored words are the inverse mix of the encryption schedule, with both end keys unmixed |
| AesKeys.DecryptKeyLong | cryptcommon/aeskey.c:367-527 | the same for 192-bit and 256-bit keys |
| AesKeys.KeyBytes | cryptcommon/aeskey.c:213-222 | which lengths are taken for a key, in bytes or in bits |
| AesKeys.SetEncryptKey | cryptcommon/aeskey.c:213-222 | stores the key expansion of the standard; other lengths fail |
| AesKeys.DecryptionIsStandard | cryptcommon/aeskey.c:230-542 | inversely mixed words are the round keys of section 5.3.5, byte by byte |
| AesKeys.SetDecryptKey | cryptcommon/aeskey.c:533-542 | stores the schedule for the equivalent inverse cipher that belongs to the key's expansion; other lengths fail |
| AesKeys.RoundTrip | cryptcommon/aescrypt.c:90-288 | setting both keys, encrypting and decrypting returns the block |
| AesModes.Stream.Crypt | cryptcommon/aes_modes.c:456-845 | partial block, whole blocks and rest of the three feedback functions give the byte-at-a-time stream and register; from the start of a block, the modes of SP 800-38A |
| AesModes.RunIsStandard | cryptcommon/aes_modes.c:456-845 | cipher feedback adds the encryption of the ciphertext block before, output feedback that of the output block before (sections 6.3 and 6.4 of SP 800-38A), with a short last block and the register left |
| AesModes.CallsAreStandard | cryptcommon/aes_modes.c:456-845 | the same for a stream cut into calls anywhere |
| AesModes.RunSplit | cryptcommon/aes_modes.c:456-845 | two calls give the output and register of one |
| AesModes.AnySplitting | cryptcommon/aes_modes.c:456-845 | any splitting into calls gives the output and register of one |
| AesModes.RunInverse | cryptcommon/aes_modes.c:456-845 | decryption restores the stream and leaves the same register |
| AesModes.CounterStream.Crypt | cryptcommon/aes_modes.c:849-941 | byte k is added to byte (pos + k) mod 16 of the cipher of the saved counter incremented (pos + k) / 16 times; the counter and position left, 16 included |
| AesModes.CounterStream.CryptAll | cryptcommon/aes_modes.c:849-941 | a sequence of calls on one object gives the output of one call, and its state or that before the last increment |
| AesModes.TwoCalls | cryptcommon/aes_modes.c:861-884 | two calls leave the state of one if and only if the second does not exactly fill a block that the first began |
| AesModes.EightAndEight | cryptcommon/aes_modes.c:861-884 | 16 bytes leave (inc c, 0), twice 8 bytes leave (c, 16) |
| AesModes.SameOffset | cryptcommon/aes_modes.c:849-941 | two states at one offset are equal or (inc c, 0) and (c, 16) |
| AesModes.BehindSame | cryptcommon/aes_modes.c:861-884 | such states give the same output |
| AesModes.CtrAnySplitting | cryptcommon/aes_modes.c:849-941 | any splitting into calls, each from the state the one before left, gives the output of one, and its state or that before the last increment |
| AesModes.CtrIsStandard | cryptcommon/aes_modes.c:849-941 | block j is added to the encryption of the j-th counter block, for any sequence of counter blocks that follow each other (section 6.5 of SP 800-38A) |
| AesModes.CtrInverse | cryptcommon/aes_modes.c:849-941 | the same operation restores the stream |
| Utf8.EncodeDecodes | common/icuUtf8.c:129-187 | the encoding of every scalar value is well formed and decodes to it |
| Utf8.DecodeEncodes | common/icuUtf8.c:129-187 | a well-formed sequence is the encoding of the scalar value it stands for |
| Utf8.Checks | common/icuUtf8.c:164-186 | the checks on bits, shortest form, surrogates and range accept exactly the sequences of section 4 of RFC 3629 |
| Utf8.TrailsAnnounced | common/icuUtf.h:161-164 | the announced number of trail bytes is one less than the leading one bits of the lead byte |
| Utf8.ErrorTakes | common/icuUtf8.c:172-183 | exactly the malformed sequences are errors; an error takes its lead byte and the trail bytes after it, up to the announced number, the end or the first other byte |
| Utf8.NextPointer | common/icuUtf8.c:129-187 | the decoder with a limit is the pure decoder, and this is what an error takes |
| Utf8.NextTerminated | common/icuUtf8.c:59-118 | the decoder for strings that end with a zero byte is the same, and never reads past the zero |
| Utf16.UnitsDecode | common/icuUtf.h:116-132 | surrogate pairs are those of section 2.1 of RFC 2781 |
| Utf16.Inline | common/icuUtf8.c:345-378 | the in-line cases agree with the decoder |
| Utf16.FastBurst | common/icuUtf8.c:331-404 | three bytes and one unit per count are always left, and every burst makes progress |
| Utf16.SlowOne | common/icuUtf8.c:406-453 | one character of the checked loop, including a pair of which only half fits |
| Utf16.CountOne | common/icuUtf8.c:454-495 | one character of the counting loop |
| Utf16.Terminate | common/icuUtf8.c:22-47 | the terminating zero and the three ways a string can fit |
| Utf16.FromUtf8 | common/icuUtf8.c:190-511 | length, substitutions, status and the units that fit are those of the pure decoder, for every capacity and both kinds of string |
| Utf16.ErrorConverts | common/icuUtf8.c:436-442 | an error counts once, gives the substitute, and the conversion goes on after what it takes |
| Utf16.CutShort | common/icuUtf8.c:172-183 | E2 82 41 converts to FFFD 0041 with one error |
| Utf16.EncodedConverts | common/icuUtf8.c:190-511 | an encoded string of scalar values converts to its UTF-16 form without an error |

## Left out

- Allocation failure and the recovery from it (smaller tables, error returns), memory wiping and `bnYield` calls: allocation always succeeds.
- The assembly hooks, the `PRODUCT_SCAN` blocks, the big-endian macro arms and the arms for machines without a double word in `bnlib/lbn32.c`; the textual copies `lbn16.c`, `lbn64.c`, `bn16.c` and `bn64.c`.
- The widths of `unsigned` counters and indices, which are unbounded here; the exponentiations require a bit count below 2^32, and the multiply position that wraps below zero in the code is a negative integer.
- Pointers into the same buffer beyond the overlaps that the contracts name. The AES blocks and streams, the source of the UTF-8 conversion and the shuffle table of the prime search are values, so that overlapping input and output buffers are not captured there.
- DoubleExpMod: two exponents of 1 require base lengths that add up to the modulus's, because the code would copy words it never wrote.
- TwoExpMod: exponent 0 and modulus 1 are excluded, as the code asserts.
- ExpModOf: base 2 with exponent 0 or modulus 1 is excluded for the same reason, and the base has no more words than the modulus, as the code asserts.
- RShift: shifts by more words than the number has are excluded, because the code would move a negative count.
- Residue: divisors of more than 16 bits are excluded, as for `lbnModQ_32`.
- Search: the check for a wrapping start index is not modelled.
- Build: the assertions that no candidate shares a small factor with the step and that the first number is odd for an even step are not required; the stated result holds without them. `sieveBuildBig` runs the same loop with the step's residues taken from a number object.
- Pass: exponents of more than 16 bits, the endless retry around it, the callback that reports progress and the source of random numbers are left out; any choice of table entries is allowed. `primeGenStrong` and `germain.c` walk candidates in the same way.
- The remaining wrappers of `bnlib/bn32.c` (`bnDivMod`, `bnGcd`, `bnInv`, `bnLShift`, the precomputation wrappers), `jacobi.c` and `bnprint.c`.
- The contents of the AES S-box and round-constant tables: the results hold for any invertible S-box and any constants. The VIA ACE code, dynamic table generation and the word-at-a-time buffer variants.
- Crypt: the block cipher never fails here; a context without a key makes the code stop in the middle of a stream. ECB and CBC modes are left out.
- FromUtf8: null pointers, an error code that is already set, lengths below -1 and lengths beyond 32 bits are left out.
- The ZRTP protocol engine, the key storage, the hash, Twofish, Skein and elliptic-curve code.
