# Verified parts of the Elys node

This project models four parts of the Elys chain and proves what they promise.

**Real powers of fixed-point decimals** (`utils/`). A decimal is the integer it stores, its value times 10^18;
one unit of that integer is an ulp. `Decimal` and `BigDecimal` write out the arithmetic of the decimal library,
which the repository only imports: products round half to even, a quotient keeps 18 guard digits that are cut
before it is rounded half to even, division by an integer cuts toward zero. `SquareMultiply` is the loop by which
both raise numbers to whole powers, `WholePowers` how near that comes to the exact power. `Exponential`, `Logarithm` and
`Maclaurin` hold the three series loops, `Powers` the dispatch between them and the mutual recursion with `Pow`.
Each loop is a method that equals a recursive function, and the theorems are about that function. `MutableDecimal`
has the operations that overwrite a number in place, and the Maclaurin loop runs on such shared numbers.
`BinomialSeries` and `SeriesAccuracy` have the exact series over the reals, and show that each loop, stopping where
it does, is within its precision of all later partial sums, roundings included. `Convergence` finds out for which
arguments the two loops that may run into their limit return; `RealPowers` and `BinomialWeights` have the bounds on
exact powers and terms that this takes.

**The protobuf codec** (`api/`). `Varint` and `Wire` define the wire format by functions on byte strings,
`Messages` how fields are folded into a message, `RepeatedFields` what lists of nested messages have in common, `DenomLiquidity`, `AccountedPool` and `GenesisState` the three
messages. `Codec` and `MessageObjects` have the loops: size, the writer that fills its buffer from the end, the
reader with its index checks under 64-bit wrap-around. Each equals the functions. `WireGrammar` says what is
accepted without them: varints, padded or not, under tags, in the five forms of values, groups nested. A nested coin has the same two
fields as `DenomLiquidity`, which stands for it. The format is that of Protocol Buffers Encoding, "Base 128
Varints", "Length-Delimited Records" and "Last One Wins"; the runtime's `Skip`, `Sov` and `EncodeVarint` are
imported by the repository and are written out here.

**Admission rules** (`app/ante/`). `Commission` has projected voting power and its decorator, `GovVote` the stake
needed to vote, `FeePriority` the priority by fee, `Authz` the one-level opening of wrapped messages.

**The oracle migration** (`app/oracle.go`). `OracleMigration` has the loops that build the new parameters.

Some promises do not hold as one would first state them. Each has a counterexample and the exact condition:

- The comment on the loop of `computeLn` (utils/pow_approx.go:82-84) says that it always breaks. It runs into its limit
  on 4, 8, 16, ... and on 2 - 10^-18 (`LnFailures`), and returns exactly when the argument, reduced to [0.5, 2], is at
  most t, for a t that is 1.999956652671816 to 2 * 10^-15 (`LnExactly`). So 4 to any fractional power but 1/2 is an
  error, 3 and 5 are fine.
- The series loop panics for bases near 2 (utils/pow_approx.go:257-259): for each exponent exactly above some base,
  which is at least 1.999956652671814 (`MaclaurinExactly`). For exponents from 1/2 on and up to 0.00149 it never panics
  (`AlwaysReturns`), for those from 0.00155 to 0.399 it does at 2 - 10^-18 (`PanicsNearTwo`). `ReturnsExactly` joins
  this with the logarithm for all bases.
- The comment on that loop (utils/pow_approx.go:207-214) calls it incorrect that a last term below the precision means
  an error below it, and hopes that it holds where it is needed. It holds for 0.5 <= base <= 1.5 to 69 ulp, and up to 2
  with 1.3 times the precision (`RefinesExactSeries`).
- The round trip of a message with unknown bytes (`RoundTripMayFail`, `RoundTrip`).
- Voting power that grows with the amount (`PowerMayFall`, `PowerGrowsExactly`), and a delegation that passes since a
  larger one does (`SmallerPassExactly`).
- A delegation that passes since it does as a redelegation: not with the validator itself as the source, which is checked
  with amount 0, nor with nothing bonded (`SelfRedelegation`, `RedelegationImpliesExactly`).
- The priority as plain minimum (`PlainMinimumExactly`), powers of ten by a loop with a signed bound (`Pow10`).
- A power to a negative exponent, which the comment on `Pow` leaves open: the code wraps the whole part to an unsigned
  count, so the value is a power to a positive one, on the base's side of 1 where the true power is on the other
  (`NegativeExponentFails`, `NegativeExponents`).

## Model

| member | source | states |
|---|---|---|
| Exponential.ComputeExp | utils/pow_approx.go:13-54 | the loop computes the function `Exp`, about which the next rows are |
| Exponential.ExpBounds | utils/pow_approx.go:13-54 | wherever it returns: at least 1 + x with no slack, at most 1 for x <= 0, zero exactly from -42 downward |
| Exponential.ExpReturns | utils/pow_approx.go:25-42 | for -42 < x <= 10^15 it returns, and 28 passes do as well as 150000 |
| Exponential.ReductionSmall | utils/pow_approx.go:25-27 | after range reduction 0 <= y <= 0.7 for every x in [0, 10^15] |
| Exponential.SeriesAlternates | utils/pow_approx.go:33-42 | for y <= 0 every later partial sum lies between the last two |
| Exponential.TwoPowerIs | utils/pow_approx.go:44-51 | the power of two is exact upward; downward 2^-k, for k up to 60, is the reciprocal to half an ulp and the guard digits |
| Exponential.ScalesByTwo | utils/pow_approx.go:44-53 | the result is the sum times 2^k, exactly or to an ulp |
| Exponential.TwoPowerNegative | utils/pow_approx.go:44-51 | for 1 <= k <= 60 the rounded 2^-k never vanishes, and is exactly a half for k = 1 |
| Decimal.PowerOfTwo | utils/pow_approx.go:44-49 | square-and-multiply with rounded products gives 2^n exactly |
| SquareMultiply.PowerLoopSide | utils/pow.go:42-42 | for any product that keeps the side of 1, square-and-multiply keeps it |
| Decimal.PowerOfWhole | utils/pow_approx.go:133-136 | square-and-multiply gives the exact power of a whole number, negative or not |
| WholePowers.PowerIsPower | utils/pow_approx.go:133-136 | the n-th power of any base that is not negative: to n/2 ulp up to 1, above 1 the exact power of a base that differs by half an ulp of 1, relatively |
| WholePowers.BigPowerIsPower | utils/pow.go:42-42 | the same in 36 digits |
| Decimal.MulIsRounded | utils/pow_approx.go:26-26 | a product is the nearest decimal, and of two the even one |
| Decimal.QuoIsRounded | utils/pow_approx.go:71-71 | a quotient is the nearest decimal, but for the guard digits that are cut, for all signs |
| BigDecimal.BigMulIsRounded | utils/pow.go:53-53 | a product of 36 digits is the nearest, and of two the even one |
| SeriesAccuracy.ExpRefinesTaylor | utils/pow_approx.go:13-54 | x is k ln 2 + y with y small, ln 2 being any late partial sum of its series; the result is 2^k times a sum, exactly or to an ulp, that is within 10^-8 and 58 ulp of every Taylor sum of e^y from the m-th on, m <= 28 |
| SeriesAccuracy.TaylorTail | utils/pow_approx.go:33-42 | all that follows a term of the exact series adds up to no more than that term |
| SeriesAccuracy.EulerIsTaylorSum | utils/pow.go:15-15 | the constant e is every Taylor sum from 20 terms on, to 1.5 ulp |
| SeriesAccuracy.Ln2Is | utils/pow.go:13-13 | the constant ln 2 is every partial sum of -ln(1/2) from 60 terms on, to half an ulp |
| Logarithm.ComputeLn | utils/pow_approx.go:56-106 | the three loops compute the function `Ln` |
| Logarithm.LnBounds | utils/pow_approx.go:56-106 | wherever it returns: x > 0, at most x - 1 with no slack, the sign of x - 1, above -42 |
| Logarithm.ReductionRange | utils/pow_approx.go:67-77 | range reduction ends in [0.5, 2], only one loop runs, scaling up is exact, scaling down k times is off by less than 2^k ulp |
| Logarithm.LnReturns | utils/pow_approx.go:82-103 | for 0 < x <= 1.5 it returns, and 27 passes do as well as 150000 |
| Logarithm.LnAlternates | utils/pow_approx.go:85-103 | for 0 <= y <= 1 terms alternate and never grow, so the sum stays within the next term |
| Logarithm.LnDescends | utils/pow_approx.go:85-103 | for -0.5 <= y <= 0 all terms are negative, and what is still to come is at most 2.05 times the power at hand |
| Logarithm.LnTermsShrink | utils/pow_approx.go:85-103 | for either sign of y in [-1, 1] and of the power a term never exceeds the one before in magnitude |
| Convergence.LnExactly | utils/pow_approx.go:67-103 | the routine returns exactly when the reduced argument is at most t, and t is located to 4000 ulp |
| Convergence.LnMonotone | utils/pow_approx.go:85-103 | where the loop returns it returns for every smaller y in [0, 1] |
| Convergence.LnFailures | utils/pow_approx.go:69-100 | 2^j, j >= 2, and the largest decimal below 2 run into the iteration limit |
| SeriesAccuracy.LnRefinesSeries | utils/pow_approx.go:56-106 | wherever it returns, the result is k ln 2, ln 2 being any late partial sum of its series, plus a sum that is within 10^-8 and 2m + 2 ulp of every partial sum of the series of ln z from the m-th on; z is the reduced argument, m <= 27 if that is at most 1.5 |
| SeriesAccuracy.LogTail | utils/pow_approx.go:85-103 | for y in [-0.5, 1] all that follows a term of the exact series adds up to no more than that term |
| Maclaurin.MaclaurinSeries | utils/pow_approx.go:171-262 | equals `MaclaurinValue` of the arguments, on numbers overwritten through aliases; the caller's numbers are outside the frame |
| Maclaurin.SumSeries | utils/pow_approx.go:221-261 | the loop; at every head the working copy equals the exponent and bigK equals i - 1 |
| Maclaurin.NextTermMut | utils/pow_approx.go:229-238 | one pass in place: the new term, working copy restored, bigK advanced |
| MutableDecimal.AbsDifferenceWithSign | utils/math.go:54-62 | overwrites and returns its first argument with the distance, and reports the sign, also when both arguments are one number |
| Maclaurin.MaclaurinBounds | utils/pow_approx.go:219-261 | 0 < exp <= 1, not 1/2: result in [1, base] for base in [1, 2], in [base - 68 ulp, 1] for base in [0.5, 1], and at most 1 + exp (base - 1) rounded |
| Maclaurin.Bernoulli | utils/pow_approx.go:219-261 | Bernoulli's inequality survives all rounding, for any precision up to 1 |
| Maclaurin.RefinesExactSeries | utils/pow_approx.go:207-261 | for base in [0.5, 1.5] it returns, also with a limit of 28 passes, within 10^-8 and 69 ulp of every partial sum of the exact series from the n-th on, n <= 27; up to 2, when it returns, within 1.3 * 10^-8 |
| Maclaurin.FewPasses | utils/pow_approx.go:228-260 | base in [0.5, 1.5]: at most 27 passes are made from the start, a limit of 28 gives the same value as 150000 |
| Maclaurin.Tracks | utils/pow_approx.go:228-260 | from any pass on, for any limit: one exact term a pass, the rounded sum stays near the exact one, and the first exact term left out is as small as the stopping tests ask |
| BinomialSeries.HalvingRest | utils/pow_approx.go:191-206 | for x in magnitude <= 1/2 all that follows a partial sum is at most twice the next term |
| BinomialSeries.AlternatingRest | utils/pow_approx.go:191-206 | for 0 <= x <= 1 all that follows a partial sum lies between 0 and the next term |
| Convergence.MaclaurinExactly | utils/pow_approx.go:228-260 | for each exponent there is a base in [1.999956652671814, 2) up to which the loop returns and above which it panics |
| Convergence.SeriesMonotone | utils/pow_approx.go:228-260 | where the loop returns it returns for every base nearer to 1, on either side |
| Convergence.MaclaurinByTerms | utils/pow_approx.go:228-260 | it returns if the last exact term is below the precision and panics if it is above, to 40000 ulp |
| Convergence.ReturnsUpToLow | utils/pow_approx.go:228-260 | for every exponent the loop returns for bases from 0.5 to 1.999956652671814 |
| Convergence.AlwaysReturns | utils/pow_approx.go:228-260 | exponents from 1/2 on, and up to 0.00149: the panic is unreachable for every base in [0.5, 2] |
| Convergence.PanicsNearTwo | utils/pow_approx.go:257-259 | exponents from 0.00155 to 0.399: the largest base below 2 makes it panic |
| BinomialWeights.StoreFrom | utils/pow_approx.go:191-206 | near x = 1 the n-th exact term falls no faster than n^(-1-b), for b = 1/q or 2/5 above the exponent |
| BinomialWeights.SpreadAtMost | utils/pow_approx.go:191-206 | from exponent 1/2 on it falls at least as fast as n^(-3/2) |
| BinomialWeights.WeightDecays | utils/pow_approx.go:191-206 | for every exponent a it is at most a x^n / n |
| Maclaurin.AboveBase | utils/pow_approx.go:219-261 | for base in [0.5, 1] the result is at least base - 68 ulp |
| Maclaurin.TermsShrink | utils/pow_approx.go:198-205 | with all three roundings no term exceeds the one before |
| BinomialSeries.PartialAtLeastBase | utils/pow_approx.go:191-206 | exact partial sums of (1+x)^a are at least 1 + x for -1 <= x <= 0, 0 < a <= 1 |
| Powers.FractionalPowerSide | utils/pow_approx.go:110-166 | exponents in [0, 1]: a returned value is positive and on the base's side of 1; the square root is assumed so only for exponent 1/2 |
| Powers.PowerSide | utils/pow_approx.go:110-148 | the same side of 1 for every exponent, whole, fractional or mixed |
| Powers.WholeExponent | utils/pow_approx.go:118-136 | for any base a whole exponent gives the power, in the sense of `PowerIsPower`, up to 2^63 - 1, and panics from there on |
| Powers.HalfExponent | utils/pow_approx.go:126-132 | exponent 1/2 gives the square root that the library returns, or its error |
| Powers.PowSplits | utils/pow.go:27-54 | Pow of n and a fraction for any base: the n-th power, times the fractional power of the base and the fraction cut to 18 digits, rounded once; a panic if that fails |
| Powers.MixedExponent | utils/pow_approx.go:138-141 | exponents above 1 that are not whole: the same, cut to 18 digits |
| Powers.Refused | utils/pow_approx.go:110-116 | bases that are not positive, negative exponents and exponents from 2^63 on are refused, by error or panic |
| Powers.PowSide | utils/pow.go:27-54 | Pow keeps the side of 1 for all 36-digit bases and exponents |
| Powers.NegativeExponents | utils/pow.go:39-54 | exactly which negative exponents give a value, and which power it is: the whole part wrapped to 64 bits |
| Powers.NegativeExponentFails | utils/pow.go:42-42 | 2 to the -1 comes out no less than 1 |
| Powers.ExpLogSide | utils/pow_approx.go:156-166 | the exp/log method gives a positive value on the base's side of 1, and at least 1 + exp ln(base) as rounded |
| Powers.ExpLogRefines | utils/pow_approx.go:156-166 | whenever it returns the two exact series are composed: the logarithm is k ln 2 and a sum within 10^-8 and 2m + 2 ulp of all late partial sums; its rounded product with the exponent is j ln 2 + w; the result is 2^j times a sum within 10^-8 and 58 ulp of those of e^w |
| Powers.PowerIsAccurate | utils/pow_approx.go:143-145 | for base in [0.5, 2) the value is within 10^-8 and 69 ulp (1.3 * 10^-8 above 1.5) of the limit of the binomial series |
| Powers.WholePowerExact | utils/pow_approx.go:133-136 | a whole base to a whole exponent is the exact integer power, no rounding in any product |
| BigDecimal.BigPowerOfWhole | utils/pow.go:42-42 | the same in 36 digits |
| Powers.WholeBaseSplits | utils/pow.go:39-54 | for a whole base a, Pow of n + f is exactly a^n times the fractional power, and panics when that fails |
| Powers.ReturnsExactly | utils/pow_approx.go:110-166 | fractional exponents but 1/2: a value exactly for bases up to tm, for 2, and for those above 2 that reduce to at most tl; a panic exactly between tm and 2; tl is located to 4000 ulp, tm lies in [1.999956652671814, 2) |
| Powers.PowersOfTwoFail | utils/pow_approx.go:147-160 | 4, 8, 16, ... to a fractional exponent other than 1/2 is an error |
| TenPowers.Pow10 | utils/math.go:30-41 | a power of ten exactly when the argument is below 2^63; otherwise the loop does not run and the result is 1 |
| TenPowers.TableHoldsPowers | utils/math.go:8-28 | entry n of the table is the power of ten that the loop would compute |
| Varint.ReadOfWrite | api/elys/accountedpool/accounted_pool.pulsar.go:1404-1418 | every 64-bit value written as a varint is read back, whatever follows |
| Varint.SovIsLength | api/elys/accountedpool/accounted_pool.pulsar.go:1270-1284 | the closed size formula is the number of bytes written |
| Varint.ReadRange | api/elys/accountedpool/accounted_pool.pulsar.go:1404-1418 | a varint, however padded, is read from no fewer bytes than its written form has |
| WireGrammar.ReadOfDigits | api/elys/accountedpool/accounted_pool.pulsar.go:1404-1418 | one to ten digits of seven bits, padded or not, are read as their number modulo 2^64 |
| WireGrammar.ReadFails | api/elys/accountedpool/accounted_pool.pulsar.go:1377-1384 | a varint cannot be read exactly if ten bytes, or all there are, have the high bit |
| WireGrammar.FieldNumberIs | api/elys/accountedpool/accounted_pool.pulsar.go:1391-1392 | the field number is the tag without its wire type, cut to 32 bits and signed |
| WireGrammar.FieldOfItem | api/elys/accountedpool/accounted_pool.pulsar.go:1371-1508 | a field of any form, eight and four bytes, groups and unknown numbers included, is read as that field and as long as it is, whatever follows |
| WireGrammar.ItemOfField | api/elys/accountedpool/accounted_pool.pulsar.go:1371-1508 | whatever is read as a field has one of these forms |
| WireGrammar.ParseOfItems | api/elys/accountedpool/accounted_pool.pulsar.go:1369-1509 | fields one after the other are read as these |
| WireGrammar.ItemsOfParse | api/elys/accountedpool/accounted_pool.pulsar.go:1369-1509 | bytes read without an error are such fields one after the other |
| WireGrammar.UnknownOnlyExactly | api/elys/accountedpool/accounted_pool.pulsar.go:1487-1502 | bytes are unknown fields throughout exactly when they are such fields, all of unknown numbers |
| WireGrammar.FieldErrors | api/elys/accountedpool/accounted_pool.pulsar.go:1391-1446 | for what a tag is refused, in order, and when a length is negative |
| Codec.ReadVarint | api/elys/accountedpool/accounted_pool.pulsar.go:1377-1390 | the reading loop: value modulo 2^64, at most ten bytes, index advanced inside the input, both errors |
| Codec.ReadTag | api/elys/accountedpool/accounted_pool.pulsar.go:1375-1398 | the tag checks, with their order and errors |
| Codec.ReadScalar | api/elys/accountedpool/accounted_pool.pulsar.go:1404-1418 | a number field |
| Codec.ReadChunk | api/elys/accountedpool/accounted_pool.pulsar.go:1423-1452 | a length-delimited field: payload bounds stay inside the input despite 64-bit wrap-around |
| Codec.SkipUnknown | api/elys/accountedpool/accounted_pool.pulsar.go:1487-1502 | an unknown field is kept as exactly its bytes; the index strictly advances inside the input |
| Codec.Skip | api/elys/accountedpool/accounted_pool.pulsar.go:1489-1489 | the skipping loop with groups equals the recursive definition, errors included |
| Codec.EncodeVarint | api/elys/accountedpool/accounted_pool.pulsar.go:1325-1325 | writes the varint directly before what is there and returns the new cursor |
| Codec.PutChunk | api/elys/accountedpool/accounted_pool.pulsar.go:1323-1327 | payload, length and tag are placed before what is there |
| Codec.PutScalar | api/elys/accountedpool/accounted_pool.pulsar.go:1346-1350 | number and tag are placed before what is there |
| Wire.ParseOfWritten | api/elys/accountedpool/accounted_pool.pulsar.go:1369-1509 | written fields followed by any bytes parse as those fields followed by the parse of the bytes |
| Wire.ParseAppend | api/elys/accountedpool/accounted_pool.pulsar.go:1369-1509 | if a parses, a ++ b parses as the fields of a followed by those of b |
| Wire.ParsePosition | api/elys/accountedpool/accounted_pool.pulsar.go:1441-1446 | where a message starts in the input decides at most which error is reported |
| Wire.ParseWritable | api/elys/accountedpool/accounted_pool.pulsar.go:1369-1509 | every field read can be written, and all of them in no more bytes |
| Wire.NextFieldRange | api/elys/accountedpool/accounted_pool.pulsar.go:1487-1507 | a field that is read has at least one byte and ends inside the input |
| Wire.UnknownOnlyIsRaw | api/elys/accountedpool/accounted_pool.pulsar.go:1499-1501 | bytes are unknown fields throughout exactly when their raw parts are all of them |
| Messages.DecodeConcat | api/elys/accountedpool/accounted_pool.pulsar.go:1361-1510 | for any message type: reading a ++ b is reading a, then b into the result |
| Messages.LeaveAppend | api/elys/accountedpool/accounted_pool.pulsar.go:1361-1510 | when reading fails, everything read before the failing part is in the message |
| Messages.LeaveOfDecode | api/elys/accountedpool/accounted_pool.pulsar.go:1361-1510 | what reading leaves is what was read if nothing failed |
| DenomLiquidity.RoundTrip | api/elys/amm/denom_liquidity.pulsar.go:320-490 | a written message is read back exactly when its unknown bytes are unknown fields |
| DenomLiquidity.Layout | api/elys/amm/denom_liquidity.pulsar.go:320-363 | the written bytes, tags 0x0a and 0x12 |
| DenomLiquidity.ReadIs | api/elys/amm/denom_liquidity.pulsar.go:364-490 | for each string the last field given wins, else it stays; unknown fields are appended |
| DenomLiquidity.ReadWriteRead | api/elys/amm/denom_liquidity.pulsar.go:320-490 | read, write, read gives what the first read gave, in no more bytes |
| DenomLiquidity.ReadAppend | api/elys/amm/denom_liquidity.pulsar.go:364-490 | reading a ++ b is reading a, then b into the same message |
| DenomLiquidity.ReadDiscarding | api/elys/amm/denom_liquidity.pulsar.go:479-481 | reading with unknown fields discarded is reading and dropping them |
| RepeatedFields.FoldChunks | api/elys/accountedpool/accounted_pool.pulsar.go:1423-1486 | reading a written list appends what its elements read back as, or fails with the first error |
| AccountedPool.RoundTrip | api/elys/accountedpool/accounted_pool.pulsar.go:1294-1510 | a written message is read back exactly when every unknown part, nested or not, is made of unknown fields |
| AccountedPool.Layout | api/elys/accountedpool/accounted_pool.pulsar.go:1294-1360 | the written bytes, tags 0x08, 0x12 and 0x1a |
| AccountedPool.BrokenElement | api/elys/accountedpool/accounted_pool.pulsar.go:1449-1451 | a nested message that cannot be read is an error, and in the list as far as it was read |
| AccountedPool.BrokenNumber | api/elys/accountedpool/accounted_pool.pulsar.go:1403-1418 | a number that cannot be read is an error, and replaced by what was read of it |
| AccountedPool.RoundTripMayFail | api/elys/accountedpool/accounted_pool.pulsar.go:1310-1313 | unknown bytes that spell a known field are read as that field |
| AccountedPool.ReadWriteRead | api/elys/accountedpool/accounted_pool.pulsar.go:1294-1510 | for every accepted byte string: read, write, read gives what the first read gave, in no more bytes |
| AccountedPool.ReadAppend | api/elys/accountedpool/accounted_pool.pulsar.go:1369-1509 | reading a ++ b is reading a, then b into the same message |
| AccountedPool.ReadMerges | api/elys/accountedpool/accounted_pool.pulsar.go:1404-1503 | reading into a message: lists and unknown bytes are appended, the number is the last one given or what it was |
| AccountedPool.ReadDiscarding | api/elys/accountedpool/accounted_pool.pulsar.go:1499-1501 | discarding unknown fields while reading is reading and dropping them at every level |
| AccountedPool.BytesSize | api/elys/accountedpool/accounted_pool.pulsar.go:1257-1292 | the length of the written message is the sum of its fields' sizes |
| GenesisState.RoundTrip | api/elys/accountedpool/genesis.pulsar.go:356-498 | a written state with any number of pools is read back exactly when every unknown part is made of unknown fields |
| GenesisState.Layout | api/elys/accountedpool/genesis.pulsar.go:356-401 | the written bytes, tag 0x0a |
| GenesisState.ReadDiscarding | api/elys/accountedpool/genesis.pulsar.go:402-498 | discarding unknown fields while reading is reading and dropping them at every level |
| GenesisState.ReadWriteRead | api/elys/accountedpool/genesis.pulsar.go:356-498 | read, write, read gives what the first read gave, in no more bytes |
| GenesisState.ReadAppend | api/elys/accountedpool/genesis.pulsar.go:402-498 | reading a ++ b is reading a, then b into the same state |
| MessageObjects.DenomLiquidityMessage.Size | api/elys/amm/denom_liquidity.pulsar.go:290-318 | the computed size is the written length |
| MessageObjects.DenomLiquidityMessage.Marshal | api/elys/amm/denom_liquidity.pulsar.go:320-363 | the buffer filled from its end holds the written message, the cursor ends at 0 |
| MessageObjects.DenomLiquidityMessage.Unmarshal | api/elys/amm/denom_liquidity.pulsar.go:364-490 | updates the message to what `Read` says; on an error reports it and keeps the fields before it |
| MessageObjects.AccountedPoolMessage.Size | api/elys/accountedpool/accounted_pool.pulsar.go:1257-1292 | the computed size is the written length, for any list lengths |
| MessageObjects.AccountedPoolMessage.Marshal | api/elys/accountedpool/accounted_pool.pulsar.go:1294-1360 | the buffer filled from its end holds the written message, the cursor ends at 0 |
| MessageObjects.AccountedPoolMessage.Unmarshal | api/elys/accountedpool/accounted_pool.pulsar.go:1361-1510 | updates the message to what `Read` says and ends with the index at the length; on an error reports it and leaves the fields before it, with the broken number or nested message as far as it was read |
| MessageObjects.GenesisStateMessage.Size | api/elys/accountedpool/genesis.pulsar.go:328-354 | the computed size is the written length |
| MessageObjects.GenesisStateMessage.Marshal | api/elys/accountedpool/genesis.pulsar.go:356-401 | the buffer filled from its end holds the written state, the cursor ends at 0 |
| MessageObjects.GenesisStateMessage.Unmarshal | api/elys/accountedpool/genesis.pulsar.go:402-498 | updates the state to what `Read` says; on an error reports it and leaves the pools before it and the broken one as far as it was read |
| Commission.QuoMonotone | app/ante/commission.go:72-103 | with both roundings a larger fraction never gives a smaller decimal |
| Commission.DelegateIsShare | app/ante/commission.go:76-89 | the power is the share of the validator's tokens with the amount in the bonded ones with the amount, to half an ulp and the guard digits |
| Commission.RedelegateIsShare | app/ante/commission.go:92-104 | the same, with nothing new bonded |
| Commission.ValidatorIsShare | app/ante/commission.go:56-73 | the same for a validator whose only tokens are the amount |
| Commission.DelegateMonotone | app/ante/commission.go:76-89 | with validator tokens <= bonded tokens, power is non-decreasing in the amount |
| Commission.RedelegateMonotone | app/ante/commission.go:92-104 | redelegation power is non-decreasing in the amount |
| Commission.ValidatorMonotone | app/ante/commission.go:56-73 | a new validator's power is non-decreasing in the amount |
| Commission.PowerGrowsExactly | app/ante/commission.go:76-89 | power is non-decreasing for all amounts exactly when the peak, the present share if anything is bonded, rounds to at most 1 |
| Commission.CapIsClosedExactly | app/ante/commission.go:76-89 | a cap that lets an amount through lets all smaller ones through, exactly when the peak is at most 1 or the cap is not in [1, peak) |
| Commission.PowerMayFall | app/ante/commission.go:76-89 | three tokens, one bonded: delegating nothing has power 3, delegating one has power 2 |
| Commission.RedelegateAtLeastDelegate | app/ante/commission.go:76-104 | once anything is bonded, redelegating counts at least as much as delegating |
| Commission.NothingBonded | app/ante/commission.go:76-104 | with nothing bonded redelegation counts zero while delegation counts at least 1 |
| Commission.Chain.AnteHandle | app/ante/commission.go:209-222 | reports the first error of the messages in one-level order |
| Commission.Chain.ValidAuthz | app/ante/commission.go:192-207 | the same for the messages of one execution |
| Commission.PassesExactly | app/ante/commission.go:106-225 | a transaction passes exactly when each message, executions opened once, unpacks and: a new validator has the minimum rate and its power fits; an edited rate is at least the minimum; delegations, redelegations and stakes of uelys name a known validator whose power fits; anything else passes |
| Commission.Reasons | app/ante/commission.go:117-190 | exactly when each of the errors is reported |
| Commission.SmallerIsValid | app/ante/commission.go:117-190 | a valid message stays valid with a smaller amount, if a validator delegated to has at most the bonded tokens |
| Commission.SmallerTransactionPasses | app/ante/commission.go:106-225 | an accepted transaction stays accepted when any of its amounts, wrapped or not, are made smaller, if the validators delegated to in it have at most the bonded tokens |
| Commission.SmallerPassExactly | app/ante/commission.go:117-190 | all delegations below an accepted one are accepted, exactly when the peak is at most 1 or the maximum power is not in [1, peak) |
| Commission.RedelegationImpliesDelegation | app/ante/commission.go:140-172 | with anything bonded, an amount that passes as a redelegation from another validator passes as a delegation |
| Commission.SelfRedelegation | app/ante/commission.go:140-172 | from a validator to itself it need not: that is checked with amount 0 |
| Commission.RedelegationImpliesExactly | app/ante/commission.go:140-172 | every amount that passes as a redelegation passes as a delegation exactly if: the source is another, the share is at least 1, its present share does not fit, or 1 fits; with nothing bonded, if no power or the peak fits |
| Authz.NoErrorExactly | app/ante/gov_vote_ante.go:116-143 | no error exactly when each plain message is valid and each packed one unpacks and is valid |
| Authz.FirstErrorIs | app/ante/gov_vote_ante.go:116-143 | what is reported is the error of the first message that has one |
| GovVote.EnoughStake | app/ante/gov_vote_ante.go:83-105 | the iteration with early exit and cap answers whether some found delegation among the first 100 completes the minimum |
| GovVote.TokensAreCutShare | app/ante/gov_vote_ante.go:93-95 | the worth of a delegation is its exact share of the validator's tokens, cut once |
| GovVote.EnoughExactly | app/ante/gov_vote_ante.go:83-111 | for a positive minimum: accepted exactly when the first min(n, 100) delegations are worth it |
| GovVote.Chain.ValidMsg | app/ante/gov_vote_ante.go:59-114 | one vote: address, zero minimum, stake, in that order |
| GovVote.Chain.ValidAuthz | app/ante/gov_vote_ante.go:116-128 | the first error of the messages of one execution |
| GovVote.Chain.ValidateVoteMsgs | app/ante/gov_vote_ante.go:58-144 | reports the first error of the messages in one-level order |
| GovVote.PassesExactly | app/ante/gov_vote_ante.go:58-144 | for any minimum from 0 on, a list passes exactly when each message, executions opened once, unpacks and each vote is by a valid address with the stake |
| FeePriority.GetTxPriority | app/ante/validator_tx_fee.go:77-91 | the loop computes the fold of the clamped prices, within 64 bits |
| FeePriority.PriceIs | app/ante/validator_tx_fee.go:80-84 | a price is the amount per unit of gas, cut, unless clamped to 2^63 - 1 |
| FeePriority.PriorityIsSuffixMinimum | app/ante/validator_tx_fee.go:77-91 | the priority is the minimum over the longest zero-free suffix, 0 if that is empty |
| FeePriority.PlainMinimumExactly | app/ante/validator_tx_fee.go:73-91 | it is the plain minimum exactly when no price is zero or the last one is |
| OracleMigration.BuildParams | app/oracle.go:356-401 | the lists are parallel and are those of all visits; each entry's pool is the migrated one, nothing else of it changes |
| OracleMigration.VisitPool | app/oracle.go:386-399 | the loop over one pool's assets |
| OracleMigration.IndexAssets | app/oracle.go:362-374 | last asset of each denom, last USDT and USDC asset |
| OracleMigration.SetFirst | app/oracle.go:392-397 | the first entry of the denom with an external provider is overwritten, no other |
| OracleMigration.FinalPools | app/oracle.go:382-401 | over any run of visits: the last pool for a first entry, unchanged otherwise |
| OracleMigration.LastPoolIsLastHolder | app/oracle.go:383-399 | the last pool visited for a name is the last oracle pool holding an asset of that name, none for stablecoins |
| OracleMigration.FinalPoolsAreMigrated | app/oracle.go:382-401 | both together: an entry's pool in terms of the pools and assets alone |
| OracleMigration.MigratedListsParallel | app/oracle.go:305-401 | the three lists have one length; at each position they have the entry of one asset in full: USDT or its default, USDC, then one a visit |
| OracleMigration.VisitsInOrder | app/oracle.go:382-386 | pools are visited in order |
| OracleMigration.VisitsOfOne | app/oracle.go:384-384 | only oracle pools are |
| OracleMigration.AssetsInOrder | app/oracle.go:385-386 | the assets of a pool are visited in order |
| OracleMigration.VisitsOfAsset | app/oracle.go:386-388 | each is looked up by its denom, stablecoins are skipped |
| OracleMigration.LookupIsLast | app/oracle.go:362-364 | the lookup finds the last asset of a denom |
| OracleMigration.LastDisplayedIsLast | app/oracle.go:365-373 | and the last asset of a stablecoin's name |
| OracleMigration.VisitsSkipStablecoins | app/oracle.go:388-388 | no visited asset displays as USDC or USDT |

## Left out

- Bit limits of the decimal library (it panics past 315 or 1024 bits): numbers are unbounded here, so what is proved for every returned value holds in particular where the library does not panic; "it returns" is meant up to those limits.
- Exponents in (0.00149, 0.00155) and (0.399, 0.5): whether some base between 1.999956652671814 and 2 panics there is left open.
- The error of a composed power as one number: `ExpLogRefines` bounds both stages, in ulp of their own results.
- Bases of more than 10^15 binary digits in `ReturnsExactly` and `ExpLogRefines`; the library stops at 315.
- The library's square root is a parameter; the only assumption about it, used for exponent 1/2, is that it is positive and on its argument's side of 1.
- Sizes and written lengths beyond 2^63 bytes, which no Go slice has.
- Nested messages are values inside their parent, so two parents cannot share one; nil messages, nil list elements and the caller's output buffer are not modelled.
- LegacyAccountedPool, query messages and the remaining generated messages: the same shapes again.
- Reflection methods, descriptors and gRPC stubs of the generated code.
- Bech32 parsing is a set of valid addresses, unpacking a message is given or not, staking stores are maps.
- GovVote.EnoughExactly assumes that no delegation is worth a negative amount, as in the staking module.
- FeePriority.GetTxPriority is for gas > 0; zero gas divides by zero in the source.
- The minimum-fee check and its override for price feeds, consensus parameters, and moving feeders, prices and assets between stores: one call an element.
- EVM precompiles, keepers, module wiring, logging and scripts.
