# Verified models of TASE's arithmetic, run-time and translator code

The repository interprets x86 programs and brings its own run-time support: a soft-float and wide-integer run-time
library, a translator from x86 to C++ fragments, and numeric benchmark programs.  This project models the parts whose
correctness is hardest to see and proves what they promise.  `dafny verify dfyconfig.toml` checks everything.

| area | modules |
|---|---|
| `factor`: trial division by inverses, binary gcd, Montgomery arithmetic, Miller-Rabin, Lucas proofs, Pollard rho, factor lists | Words, BinaryGcd, Montgomery, MillerRabin, FactorList, TrialDivision, Factoring, NumberTheory |
| `factor`: decimal input and output | Decimal |
| wide division: Knuth's Algorithm D (Knuth volume 2, section 4.3.1) and two shift-and-subtract dividers | KnuthDivision, WideDivision, ShiftDivision, SignedDivision |
| integer to float: IEEE 754-2008 sections 4.3.1 and 5.4.1 | FloatRounding, FloatConversion |
| `cksum`: the CRC of IEEE Std 1003.1 | CrcTable, Cksum |
| `atomic.c`: lock-free operations and striped spinlocks | Atomic, AtomicProtocol, AtomicCondition |
| `emutls.c`: emulated thread-local storage | Emutls, EmutlsInvariant |
| parseltongue86: handlers, emitter and batching of basic blocks | CartridgeIR, CartridgeEmitter, Emitter (module TextEmitter), Cartridges |
| parseltongue86: what the emitted code computes | AluFlags, Operands, Addresses, AluChain, Effects, Conditions, Products, Aliasing |
| shared arithmetic, bit operators and options | Arith, Bits, Options |

Conventions:

- Machine words are integers with an explicit range; C's unsigned operators are written out modulo 2^64, 2^32 or
  2^128.  The CRC accumulator is a 64-bit vector.  `|` of fields without a common bit is the bitwise operator of Bits
  in the run-time library and plain addition in the macros of `factor.c`.
- Concurrent code is a state machine: any number of threads take the smallest steps that others can observe, in any
  order, and theorems speak of all runs.
- A float is its bit pattern; magnitudes are counted in units of the smallest positive float, so "nearest" is a
  statement over all floats, fractional ones included, in integer arithmetic.
- The loops of `factor.c` that search for a divisor can run forever.  They take a fuel argument and report
  `OutOfFuel`; everything that is claimed is claimed for calls that return.  The table of `primes.h` is a parameter
  with the properties that the code relies on: consecutive primes and their differences, inverses modulo 2^64,
  quotient limits, and the sentinels behind the last entry.

- The emitted C++ of parseltongue86 has a small semantics of its own in CartridgeIR: local copies of the registers,
  numbered temporaries of given widths and signs, memory, and blocks.  Where C++ leaves a result undefined (a zero
  divisor, a shift count outside the width) the semantics picks 0.  A handler is a function from the text so far to the
  text after it, and the class `TextEmitter.Emitter` writes the same text statement by statement.

Some promises turned out to hold only under a condition, and the condition is proved to be exact.

- Atomic operations: the locks are found by hashing the start address, so objects that overlap across a 16-byte boundary
  can have different locks, and a lock-free object takes no lock at all.  `AtomicCondition.AtomicIffGuarded` shows that
  all runs on a set of objects are atomic if and only if objects that share a byte share a lock or are both lock-free;
  `AtomicCondition.UnguardedPair` and `AtomicCondition.MixedPair` give pairs for which they are not, and
  `Atomic.BlocksAreGuarded` the usual case in which they are.
- Signed division: quotients are truncated quotients if and only if the operands are not the most negative number
  and -1 (`SignedDivision.Divmodti4`, `SignedDivision.Divmoddi4`).
- Emulated thread-local storage: an object lies inside the block that was asked for if and only if the size of the
  request does not wrap around (`Emutls.BaseInside`, with `Emutls.WrappingRequest` as the input that does).  The
  theorems about runs are for controls whose requests do not.
- Temporaries of parseltongue86: each is declared once over the whole output if and only if no instruction in it is a
  cmc (`Cartridges.TemporariesAreUnique`); the code of a cmc declares its temporary twice
  (`Cartridges.CmcDeclaresTwice`), which no C++ compiler accepts.
- Cartridges: functions open and close alternately up to the end of the output if and only if no cartridge ends past the
  last instruction (`Cartridges.Translate`, `Cartridges.OpenExactly`, with `Cartridges.CutCartridge` as the input for
  which one does), when instructions and cartridges do not overlap and cartridges end where instructions end.
- `imul`: its factors are fetched without their signs.  The high half of the product is right if and only if no factor is
  negative, one is zero, or both are the most negative number; CF and OF are wrong if and only if a factor is negative,
  neither is zero and the product fits (`Products.SignedMultiplyExactly`, with `Products.MinusOneTimesOne` as an input
  for which both are wrong).
- `div` and `idiv`: quotient and remainder make up the dividend if and only if the dividend is within the reach of the
  divisor, for `div` if and only if the high half is below the divisor (`Products.DivideExactly`, with
  `Products.DivideOverflows` as an input for which it is not; the hardware traps there).  After a sign extension that is,
  unless the most negative number is divided by -1 (`Products.DivideAfterSignFill`).
- `not` on the low byte or half of a register also changes the rest of the register, and only there
  (`Effects.NotIsExact`); so does a sign-extending move of a negative number (`Effects.MovExtends`, with
  `Effects.MovsbwBorrows` as the input).
- `push` and `pop` are right on every machine if and only if their operand does not involve rsp (`Aliasing.PushExactly`,
  `Aliasing.PopExactly`): push reads its operand after it has moved rsp, and pop stores before
  (`Aliasing.PushOfRsp`, `Aliasing.PopOfRsp`).  The two errors of `push %rsp` and `pop %rsp` cancel
  (`Aliasing.PushPopRestores`).
- `xchg` and `xadd` are right on every machine if and only if they do not exchange a register with memory addressed
  through it, the register first (`Aliasing.XchgExactly`, `Aliasing.XaddExactly`): the second store goes to another place
  (`Aliasing.XchgThroughItself`).  The source operand of xadd is a register, as in the instruction set.
- `cmov` is right on every machine if and only if it does not move four bytes from memory with a 64-bit address that
  counts the destination (`Aliasing.CmovExactly`): the destination is cut to four bytes before the source is read
  (`Aliasing.CmovThroughItself`).

## Model

| member | source | states |
|---|---|---|
| `Words.UmulPpmm` | test/microbenchmarks/concrete/factor/factor.c:331-354 | two words multiply to the exact two-word product, including the carry out of the middle sum |
| `Words.UdivQrnnd` | test/microbenchmarks/concrete/factor/factor.c:362-382 | 64 shift-and-subtract steps divide a two-word number by a word that exceeds its high word: dividend = q d + r with r < d |
| `Words.Rsh2By` | test/microbenchmarks/concrete/factor/factor.c:395-399 | a two-word right shift is division by a power of two |
| `Words.CompareJoin` | test/microbenchmarks/concrete/factor/factor.c:407-411 | the two-word comparisons compare the numbers |
| `Words.SubDdmmss` | test/microbenchmarks/concrete/factor/factor.c:413-420 | two-word subtraction with borrow is exact when it does not go below zero |
| `Words.Submod` | test/microbenchmarks/concrete/factor/factor.c:450-455 | the masked subtraction is the difference modulo n |
| `Words.Addmod` | test/microbenchmarks/concrete/factor/factor.c:457-458 | addition by subtracting n - b is the sum modulo n |
| `Words.StripTwos` | test/microbenchmarks/concrete/factor/factor.c:438-447 | counting trailing zeros and shifting gives an odd number times 2^count |
| `BinaryGcd.BranchFreeMin` | test/microbenchmarks/concrete/factor/factor.c:476-480 | the sign mask of a wrapped difference selects the smaller of two halved words and the absolute difference |
| `BinaryGcd.GcdOdd` | test/microbenchmarks/concrete/factor/factor.c:512-548 | for every pair with an odd member, zero included, the loop ends and returns the greatest common divisor, in spite of the halved representation |
| `BinaryGcd.ShiftOdd` | test/microbenchmarks/concrete/factor/factor.c:561-577 | dropping factors of two keeps the common divisors with an odd number |
| `BinaryGcd.Gcd2Odd` | test/microbenchmarks/concrete/factor/factor.c:550-592 | the same for two-word numbers with an odd second operand |
| `Montgomery.BinvertTableInverse` | test/microbenchmarks/concrete/factor/factor.c:944-963 | each of the 128 table entries is the inverse of 2i+1 modulo 2^8 |
| `Montgomery.NewtonStep` | test/microbenchmarks/concrete/factor/factor.c:972-974 | one Newton step squares the modulus for which x is an inverse |
| `Montgomery.Binv` | test/microbenchmarks/concrete/factor/factor.c:965-986 | for every odd n the result is the inverse of n modulo 2^64 |
| `Montgomery.Divexact21` | test/microbenchmarks/concrete/factor/factor.c:988-1006 | division of a two-word multiple of an odd word by that word is exact |
| `Montgomery.Mulredc` | test/microbenchmarks/concrete/factor/factor.c:1041-1054 | whenever a b < m B the result is below m and congruent to a b / B |
| `Montgomery.MontMul` | test/microbenchmarks/concrete/factor/factor.c:1041-1054 | the residues of x and y multiply to the residue of x y |
| `Montgomery.Powm` | test/microbenchmarks/concrete/factor/factor.c:1127-1145 | for every exponent the result is the fully reduced residue of the power |
| `NumberTheory.Fermat` | test/microbenchmarks/concrete/factor/factor.c:1188-1209 | Fermat's little theorem, by which the test never rejects a prime |
| `NumberTheory.SquareRootOfOne` | test/microbenchmarks/concrete/factor/factor.c:1199-1207 | modulo a prime only 1 and -1 square to 1 |
| `NumberTheory.Lucas` | test/microbenchmarks/concrete/factor/factor.c:1298-1318 | Lucas' theorem: an element of order n - 1 makes n prime |
| `MillerRabin.Millerrabin` | test/microbenchmarks/concrete/factor/factor.c:1188-1209 | acceptance implies x^(n-1) = 1 mod n; a prime n that does not divide the base is always accepted |
| `FactorList.InsertWellFormed` | test/microbenchmarks/concrete/factor/factor.c:594-625 | inserting a prime keeps the list strictly increasing and its members prime |
| `FactorList.InsertProduct` | test/microbenchmarks/concrete/factor/factor.c:594-625 | inserting multiplies the product of the list by p^m |
| `FactorList.CountBound` | test/microbenchmarks/concrete/factor/factor.c:295-296 | a strictly increasing list of prime powers with product below 2^128 has at most 26 members, by comparison with the primorial |
| `FactorList.ExponentBound` | test/microbenchmarks/concrete/factor/factor.c:313-319 | exponents stay below 128, so an unsigned char holds them |
| `FactorList.SlotIsFree` | test/microbenchmarks/concrete/factor/factor.c:633-638 | a product below 2^128 cannot hold two factors of two words, so the slot for one is written at most once |
| `FactorList.Factors.Clear` | test/microbenchmarks/concrete/factor/factor.c:2288-2289 | a cleared list stands for 1 |
| `FactorList.Factors.Locate` | test/microbenchmarks/concrete/factor/factor.c:602-608 | the backward scan finds the last entry that is not above the prime |
| `FactorList.Factors.InsertBehind` | test/microbenchmarks/concrete/factor/factor.c:610-620 | the entries above the place move up by one and the others stay |
| `FactorList.Factors.InsertMultiplicity` | test/microbenchmarks/concrete/factor/factor.c:594-625 | the list becomes the sorted insertion of p^m, stays within 26 entries, and its value is multiplied by p^m |
| `FactorList.Factors.InsertLarge` | test/microbenchmarks/concrete/factor/factor.c:629-641 | the value is multiplied by the two-word factor and the assertion that the slot is free holds |
| `TrialDivision.OneWordTest` | test/microbenchmarks/concrete/factor/factor.c:793-824 | the inverse test accepts a word if and only if p divides it, and then gives the quotient |
| `TrialDivision.TwoWordTest` | test/microbenchmarks/concrete/factor/factor.c:854-868 | the same for two words, through the high word of q0 p |
| `TrialDivision.ShiftTwos` | test/microbenchmarks/concrete/factor/factor.c:830-845 | casting out twos leaves an odd number times the power taken out |
| `TrialDivision.CastOutTwos` | test/microbenchmarks/concrete/factor/factor.c:830-848 | the twos go to the list and nothing is lost |
| `TrialDivision.DivideOut2` | test/microbenchmarks/concrete/factor/factor.c:854-868 | a prime is divided out of a two-word number completely |
| `TrialDivision.Refind` | test/microbenchmarks/concrete/factor/factor.c:784-791 | stepping through the differences finds the prime of a later table entry |
| `TrialDivision.DivBlock` | test/microbenchmarks/concrete/factor/factor.c:874-884 | one block divides out one table prime; entries past the table never divide |
| `TrialDivision.DivideTwoWords` | test/microbenchmarks/concrete/factor/factor.c:850-870 | the two-word loop clears the primes it has passed |
| `TrialDivision.DivideOneWord` | test/microbenchmarks/concrete/factor/factor.c:886-904 | the one-word loop leaves 1, a prime, or a number without a prime divisor below 5003 |
| `TrialDivision.FactorUsingDivision` | test/microbenchmarks/concrete/factor/factor.c:826-905 | what is recorded times what is left is the number, and what is left is 1, prime, or free of prime divisors below 5003 |
| `Factoring.Redcify` | test/microbenchmarks/concrete/factor/factor.c:1008-1013 | one division gives the residue of a word |
| `Factoring.Precompute` | test/microbenchmarks/concrete/factor/factor.c:1278-1286 | n - 1 is an odd part times a power of two, and 1 and 2 have their residues |
| `Factoring.LucasProves` | test/microbenchmarks/concrete/factor/factor.c:1300-1318 | a base that passes the powers for every listed prime of n - 1 proves n prime |
| `Factoring.LucasTest` | test/microbenchmarks/concrete/factor/factor.c:1304-1309 | the inner loop returns true if and only if no listed power is 1 |
| `Factoring.LucasLoop` | test/microbenchmarks/concrete/factor/factor.c:1298-1342 | over all bases, whenever the loop returns its answer is whether n is prime |
| `Factoring.PrimeP` | test/microbenchmarks/concrete/factor/factor.c:1263-1343 | whenever prime_p returns, it returns true exactly if n is prime, for every n that is prime or has no prime divisor below 5003 |
| `Factoring.Prime2P` | test/microbenchmarks/concrete/factor/factor.c:1345-1357 | with a zero high word the answer is that of prime_p |
| `Factoring.RhoStep` | test/microbenchmarks/concrete/factor/factor.c:1551-1552 | one step of the walk is x^2 / B + a modulo n |
| `Factoring.RhoSearch` | test/microbenchmarks/concrete/factor/factor.c:1547-1575 | the search stays within residues and stops only where the product and n are not coprime |
| `Factoring.RhoReplay` | test/microbenchmarks/concrete/factor/factor.c:1577-1586 | the replay returns a divisor of n above 1 |
| `Factoring.RecordFactor` | test/microbenchmarks/concrete/factor/factor.c:1597-1600 | a divisor that was found is recorded as a prime or factored further, without loss |
| `Factoring.FactorUsingPollardRho` | test/microbenchmarks/concrete/factor/factor.c:1528-1612 | on return the whole of n has been moved into the list, across restarts and recursion |
| `Factoring.Rho2Search` | test/microbenchmarks/concrete/factor/factor.c:1632-1676 | whatever residues the two-word walk produces, what it returns divides n and exceeds 1 |
| `Factoring.RecordLarge` | test/microbenchmarks/concrete/factor/factor.c:1705-1708 | a two-word divisor is recorded or factored further, without loss |
| `Factoring.FactorUsingPollardRho2` | test/microbenchmarks/concrete/factor/factor.c:1614-1733 | on return the whole two-word number has been moved into the list |
| `Factoring.Factor` | test/microbenchmarks/concrete/factor/factor.c:2285-2313 | whenever factor returns, the list is strictly increasing, its one-word members are prime, and its product with the large factor is the number |
| `Decimal.ReadWritten` | test/microbenchmarks/concrete/factor/factor.c:2337-2396 | the decimal form of a number is a non-empty digit string that denotes it |
| `Decimal.WriteRead` | test/microbenchmarks/concrete/factor/factor.c:2337-2396 | a digit string without leading zero is the decimal form of what it denotes |
| `Decimal.PushDigit` | test/microbenchmarks/concrete/factor/factor.c:2361-2390 | one digit takes n to 10 n + c, and overflow is reported exactly if that needs more than 128 bits |
| `Decimal.Strto2uintmax` | test/microbenchmarks/concrete/factor/factor.c:2337-2396 | accepts exactly the non-empty digit strings of value below 2^128 and returns that value; tells invalid strings from overflow |
| `Decimal.SplitDigits` | test/microbenchmarks/concrete/factor/factor.c:2502-2506 | a number is written as its leading part followed by its last k digits |
| `Decimal.PaddedDigits` | test/microbenchmarks/concrete/factor/factor.c:2484-2488 | the last k digits of a number below 10^k are its decimal form padded with zeros |
| `Decimal.Umaxtostr` | test/microbenchmarks/concrete/factor/factor.c:170-189 | the digits written backwards into 21 characters are the decimal form, and they fit |
| `Decimal.LineBuffer.Putint` | test/microbenchmarks/concrete/factor/factor.c:2476-2489 | appends the decimal form padded with zeros to the width |
| `Decimal.LineBuffer.PrintUintmaxes` | test/microbenchmarks/concrete/factor/factor.c:2491-2508 | the recursion by 10^9 appends the decimal form of the two-word number |
| `Decimal.PrintThenParse` | test/microbenchmarks/concrete/factor/factor.c:2491-2508 | parsing what was printed gives back both words, for every two-word number |
| `KnuthDivision.QuotientDigit` | compiler-rt_soft_float/udivmodti4.c:54-64 | one digit is exact, its correction loop runs at most twice, and no product in the loop test wraps |
| `KnuthDivision.PartialRemainder` | compiler-rt_soft_float/udivmodti4.c:66-66 | the partial remainder is exact although computed modulo 2^64 |
| `KnuthDivision.ShiftDividend` | compiler-rt_soft_float/udivmodti4.c:34-44 | normalisation multiplies the dividend by 2^s and keeps its high word below the divisor |
| `KnuthDivision.DivideNormalised` | compiler-rt_soft_float/udivmodti4.c:46-80 | two digits give quotient and remainder by a divisor with its top bit set |
| `KnuthDivision.Udiv128By64To64` | compiler-rt_soft_float/udivmodti4.c:23-82 | for every u1 < v: u1 2^64 + u0 = q v + r with r < v |
| `WideDivision.MaskCompares` | compiler-rt_soft_float/udivmodti4.c:147-150 | the sign of the wrapped difference is the comparison, when the dividend is below twice the divisor and has the top bit if the divisor has |
| `WideDivision.AlignDivisor` | compiler-rt_soft_float/udivmodti4.c:133-136 | aligning leading bits makes the divisor fit and exceed half the dividend |
| `WideDivision.DivideByWord` | compiler-rt_soft_float/udivmodti4.c:113-132 | the one- or two-step path for a 64-bit divisor |
| `WideDivision.DivideByDouble` | compiler-rt_soft_float/udivmodti4.c:133-155 | the shift-and-subtract loop, up to operands with bit 127 set |
| `WideDivision.Udivmodti4` | compiler-rt_soft_float/udivmodti4.c:100-156 | a = q b + r with r < b for all 128-bit a and b != 0 |
| `ShiftDivision.SplitShort` | compiler-rt_soft_float/udivmoddi4.c:100-104 | for sr below 32 the halves hold n split at bit sr |
| `ShiftDivision.SplitMiddle` | compiler-rt_soft_float/udivmoddi4.c:127-131 | for sr = 32 whole halves move |
| `ShiftDivision.SplitLong` | compiler-rt_soft_float/udivmoddi4.c:137-142 | for sr above 32 the halves hold n split at bit sr |
| `ShiftDivision.ShiftLeft` | compiler-rt_soft_float/udivmoddi4.c:177-181 | four half-word shifts are one shift of the register pair |
| `ShiftDivision.HighPartBelow` | compiler-rt_soft_float/udivmoddi4.c:123-126 | sr chosen from leading zeros leaves a high part below the divisor |
| `ShiftDivision.Iterate` | compiler-rt_soft_float/udivmoddi4.c:176-191 | an iteration keeps the division state and its mask is the comparison r >= d, in every reachable state |
| `ShiftDivision.ShiftSubtract` | compiler-rt_soft_float/udivmoddi4.c:170-195 | from n split at sr to quotient and remainder |
| `ShiftDivision.DivideByHighPower` | compiler-rt_soft_float/udivmoddi4.c:76-86 | a power of two in the high half: shift and mask |
| `ShiftDivision.DivideByLowPower` | compiler-rt_soft_float/udivmoddi4.c:107-119 | a power of two in the low half: shift and mask |
| `ShiftDivision.DivideByHighHalf` | compiler-rt_soft_float/udivmoddi4.c:145-168 | a divisor with a high half, including a shift count that wraps when the dividend is shorter |
| `ShiftDivision.DivideByLowHalf` | compiler-rt_soft_float/udivmoddi4.c:120-143 | a divisor in the low half, through all three ways to split |
| `ShiftDivision.Udivmoddi4` | compiler-rt_soft_float/udivmoddi4.c:27-196 | a = q b + r with r < b for all 64-bit a and b != 0, through every branch |
| `SignedDivision.Magnitude` | compiler-rt_soft_float/divmodti4.c:21-24 | xor and subtract give the absolute value of every signed word, the most negative included |
| `SignedDivision.SignedQuotient` | compiler-rt_soft_float/divmodti4.c:25-29 | signs put back on the unsigned results give truncated division if and only if it is not MIN / -1 |
| `SignedDivision.Divmodti4` | compiler-rt_soft_float/divmodti4.c:19-30 | quotient truncated toward zero exactly if not MIN / -1; the remainder always has the sign of the dividend and is below the divisor |
| `SignedDivision.Divmoddi4` | compiler-rt_soft_float/divmoddi4.c:17-28 | the same for 64 bits |
| `FloatRounding.NearestUnique` | compiler-rt_soft_float/floattisf.c:17-17 | rounding to nearest with ties to even has one answer |
| `FloatRounding.NearestOfTwo` | compiler-rt_soft_float/floattisf.c:51-58 | between two neighbouring floats the nearer one, or the even one in the middle, is nearest among all floats |
| `FloatRounding.StickyShift` | compiler-rt_soft_float/floattisf.c:46-48 | the shift with a sticky bit keeps the order of the lost part relative to one half |
| `FloatRounding.Sticky` | compiler-rt_soft_float/floattisf.c:40-49 | all three cases of the switch leave M + 2 bits of which the last stands for everything below |
| `FloatRounding.RoundUp` | compiler-rt_soft_float/floattisf.c:50-53 | or P into R, increment, drop two bits: adds one exactly for more than half, or half and an odd significand |
| `FloatRounding.RoundedConversion` | compiler-rt_soft_float/floattisf.c:50-59 | the rounded significand, with a carry into the exponent, is the nearest float |
| `FloatRounding.Convert` | compiler-rt_soft_float/floattisf.c:30-63 | for all widths N >= M + 3 and precisions M, significand and exponent of the float nearest to a, ties to even |
| `FloatConversion.PackSingle` | compiler-rt_soft_float/floattisf.c:64-68 | packing sign, exponent and fraction gives the bits of that float, infinity included |
| `FloatConversion.PackDouble` | compiler-rt_soft_float/floattidf.c:65-70 | the same for a double in two halves |
| `FloatConversion.Floattisf` | compiler-rt_soft_float/floattisf.c:24-69 | the nearest single for every signed 128-bit integer |
| `FloatConversion.Floattidf` | compiler-rt_soft_float/floattidf.c:25-71 | the nearest double for every signed 128-bit integer |
| `FloatConversion.Floatuntisf` | compiler-rt_soft_float/floatuntisf.c:24-66 | the nearest single for every unsigned 128-bit integer, with overflow to infinity |
| `FloatConversion.Floatuntidf` | compiler-rt_soft_float/floatuntidf.c:25-68 | the nearest double for every unsigned 128-bit integer |
| `FloatConversion.Floatdisf` | compiler-rt_soft_float/floatdisf.c:22-67 | the nearest single for every signed 64-bit integer |
| `FloatConversion.Floatundisf` | compiler-rt_soft_float/floatundisf.c:22-64 | the nearest single for every unsigned 64-bit integer |
| `FloatConversion.OverflowsToInfinity` | compiler-rt_soft_float/floatuntisf.c:57-64 | the result is infinity exactly from 2^128 - 2^103 on |
| `FloatConversion.RoundWordDecides` | compiler-rt_soft_float/floatsisf.c:44-50 | comparing the word of dropped bits with its top bit rounds to nearest even |
| `FloatConversion.RoundWord` | compiler-rt_soft_float/floatsisf.c:35-54 | the round-word code gives the nearest single, with the carry into the exponent field |
| `FloatConversion.Floatsisf` | compiler-rt_soft_float/floatsisf.c:20-57 | the nearest single for every signed 32-bit integer |
| `FloatConversion.Floatunsisf` | compiler-rt_soft_float/floatunsisf.c:20-49 | the nearest single for every unsigned 32-bit integer |
| `FloatConversion.SameBits` | compiler-rt_soft_float/floatsisf.c:20-57 | two conversions that round to nearest even give the same bits |
| `FloatConversion.ConvertSignedBothWays` | compiler-rt_soft_float/floatsisf.c:20-57 | round-word and sticky-bit code agree on every signed 32-bit integer |
| `FloatConversion.ConvertUnsignedBothWays` | compiler-rt_soft_float/floatunsisf.c:20-49 | round-word and sticky-bit code agree on every unsigned 32-bit integer |
| `Cksum.PowersOfX` | test/microbenchmarks/concrete/cksum/cksum.c:129-141 | for every i the recurrence of fill_r holds x^(32+i) modulo the generating polynomial in its low half |
| `Cksum.FillR` | test/microbenchmarks/concrete/cksum/cksum.c:133-141 | the array holds the remainders of x^32 ... x^39 by the generating polynomial |
| `CrcTable.CrcRemainder` | test/microbenchmarks/concrete/cksum/cksum.c:143-153 | for every byte the loop produces the entry of the table that the program carries |
| `CrcTable.GeneratedTable` | test/microbenchmarks/concrete/cksum/cksum.c:181-235 | all 256 literal entries are what the generator computes |
| `CrcTable.TimesXLinear` | test/microbenchmarks/concrete/cksum/cksum.c:138-140 | multiplication by x modulo the generating polynomial is linear |
| `CrcTable.ByteIsEightBits` | test/microbenchmarks/concrete/cksum/cksum.c:283-284 | the table step equals eight steps of one bit |
| `CrcTable.StepFeedsByte` | test/microbenchmarks/concrete/cksum/cksum.c:283-284 | bits above bit 31 of the 64-bit accumulator never reach its low half |
| `Cksum.RemainderUnique` | test/microbenchmarks/concrete/cksum/cksum.c:122-127 | division by the generating polynomial has one remainder |
| `Cksum.FeedBit` | test/microbenchmarks/concrete/cksum/cksum.c:138-140 | one step of the register is one step of long division |
| `Cksum.FeedRemainder` | test/microbenchmarks/concrete/cksum/cksum.c:283-284 | feeding n bits keeps the register the remainder of the bits so far |
| `Cksum.OneMoreOctet` | test/microbenchmarks/concrete/cksum/cksum.c:283-284 | the accumulator stays the remainder when an octet is added |
| `Cksum.Accumulate` | test/microbenchmarks/concrete/cksum/cksum.c:275-287 | the loop over a buffer extends the message by the buffer |
| `Cksum.AccumulateLength` | test/microbenchmarks/concrete/cksum/cksum.c:305-306 | the loop over the length appends its octets, least significant first |
| `Cksum.Checksum` | test/microbenchmarks/concrete/cksum/cksum.c:275-308 | for every message and every split into chunks the result is the complement of the remainder of message and length times x^32; 2^64 octets or more are refused |
| `Atomic.LockInTable` | compiler-rt_soft_float/atomic.c:113-127 | every address hashes to one of the 1024 locks |
| `Atomic.BlocksAreGuarded` | compiler-rt_soft_float/atomic.c:113-118 | locked objects inside one 16-byte block share a lock if they share a byte; with no lock-free object across them, all is guarded |
| `Atomic.CombinedNumber` | compiler-rt_soft_float/atomic.c:327-337 | a read-modify-write leaves the operator applied to the numbers, modulo the width |
| `AtomicProtocol.ThreadStep` | compiler-rt_soft_float/atomic.c:176-241 | a step under the lock keeps what the thread knows of its object |
| `AtomicProtocol.DirectKeeps` | compiler-rt_soft_float/atomic.c:129-164 | a lock-free operation takes effect at once and disturbs no thread under a lock |
| `AtomicProtocol.TryLockKeeps` | compiler-rt_soft_float/atomic.c:102-107 | taking a free lock, failing, and failing spuriously keep the invariant |
| `AtomicProtocol.ReleaseKeeps` | compiler-rt_soft_float/atomic.c:97-99 | at the unlock the operation takes effect in the abstract memory |
| `AtomicProtocol.StepKeeps` | compiler-rt_soft_float/atomic.c:95-241 | every step of every thread keeps the invariant |
| `AtomicProtocol.MutualExclusion` | compiler-rt_soft_float/atomic.c:95-110 | whatever the objects, in every reachable state a lock word is set if and only if exactly one thread is between its lock and unlock |
| `AtomicProtocol.RunsAreAtomic` | compiler-rt_soft_float/atomic.c:176-241 | every run on guarded objects is explained by its operations taking effect one at a time, in the order of their unlocks and lock-free steps |
| `AtomicProtocol.HolderAdvances` | compiler-rt_soft_float/atomic.c:182-186 | a thread under its lock can always step, gets nearer to its unlock, and is not hindered by others |
| `AtomicCondition.TornRun` | compiler-rt_soft_float/atomic.c:229-241 | a run in which a store under another lock falls between the two copies of an exchange |
| `AtomicCondition.DirectTornRun` | compiler-rt_soft_float/atomic.c:203-241 | a run in which a lock-free store falls between the two copies of a locked exchange |
| `AtomicCondition.TornNotSerializable` | compiler-rt_soft_float/atomic.c:227-241 | no order of the two operations explains such a run |
| `AtomicCondition.AtomicIffGuarded` | compiler-rt_soft_float/atomic.c:112-164 | all runs on a set of objects are atomic if and only if objects that share a byte share a lock or are both lock-free |
| `AtomicCondition.UnguardedPair` | compiler-rt_soft_float/atomic.c:113-127 | two locked objects that overlap across a 16-byte boundary and have different locks |
| `AtomicCondition.MixedPair` | compiler-rt_soft_float/atomic.c:129-137 | a locked object and its first word, which is lock-free |
| `Emutls.NewSizeHolds` | compiler-rt_soft_float/emutls.c:336-344 | the new table holds the index and with its header fills a multiple of 16 words |
| `Emutls.BaseInside` | compiler-rt_soft_float/emutls.c:65-81 | the object is aligned, and it lies inside the block from malloc with the pointer saved before it, if and only if the request does not wrap around |
| `Emutls.WrappingRequest` | compiler-rt_soft_float/emutls.c:70-75 | a size for which 14 bytes are asked for and the object does not lie inside them |
| `EmutlsInvariant.NextNumber` | compiler-rt_soft_float/emutls.c:318-320 | the next index does not wrap, and nobody else has a number in hand |
| `EmutlsInvariant.KeepsIndices` | compiler-rt_soft_float/emutls.c:312-325 | every step keeps the indices unique and within the counter |
| `EmutlsInvariant.GrowKeepsTables` | compiler-rt_soft_float/emutls.c:352-375 | making or growing a table keeps every slot and the index is inside it |
| `EmutlsInvariant.FillKeepsTables` | compiler-rt_soft_float/emutls.c:380-381 | filling a slot changes that thread and control only |
| `EmutlsInvariant.Keeps` | compiler-rt_soft_float/emutls.c:312-383 | every step of every thread keeps the whole invariant |
| `EmutlsInvariant.StepIsStable` | compiler-rt_soft_float/emutls.c:312-383 | an index that is set and an address in a slot never change |
| `EmutlsInvariant.RunIsStable` | compiler-rt_soft_float/emutls.c:312-383 | the same over whole runs |
| `EmutlsInvariant.IndicesAreUnique` | compiler-rt_soft_float/emutls.c:312-325 | in every reachable state indices are distinct and lie in 1..emutls_num_object |
| `EmutlsInvariant.SlotsAreInBounds` | compiler-rt_soft_float/emutls.c:377-383 | the slot that is read is inside the table |
| `EmutlsInvariant.AddressesAreStable` | compiler-rt_soft_float/emutls.c:377-383 | a thread gets the same address for a control every time, across growth |
| `EmutlsInvariant.AddressesAreObjects` | compiler-rt_soft_float/emutls.c:289-309 | a returned address is that of an aligned object inside a block of its own |
| `EmutlsInvariant.ObjectsAreDisjoint` | compiler-rt_soft_float/emutls.c:377-383 | objects of different controls or threads share no byte |
| `CartridgeIR.ExecFrame` | parseltongue86/translator/operand.py:106-119 | a text changes only the registers that it assigns |
| `CartridgeIR.ExecAgrees` | parseltongue86/translator/instruction.py:570-580 | a closed text acts the same whatever other temporaries there are |
| `CartridgeIR.CallIsExec` | parseltongue86/translator/instruction.py:537-568 | a function that writes back all that it assigns leaves the register file as its local copies are |
| `CartridgeIR.BatchIsSequence` | parseltongue86/translator/instruction.py:440-568 | one function with the texts of several does what they do one after the other |
| `CartridgeEmitter.InstrCode` | parseltongue86/translator/instruction.py:440-535 | the text of every dispatched instruction declares each temporary before it is used, alone in its scope, and all but cmc declare consecutive numbers once each |
| `TextEmitter.TrackCovers` | parseltongue86/translator/operand.py:37-47 | the registers listed after a text are those listed before and those it assigns, in blocks too |
| `Cartridges.CartridgeIsSequence` | parseltongue86/translator/instruction.py:440-574 | a cartridge function has the same effect on registers and memory as the functions of its instructions in order, for all dispatched instructions but loop |
| `Cartridges.LayoutAlternates` | parseltongue86/parseltongue86.py:109-139 | functions are opened and closed alternately, text stands only inside them, and only the last one can lack its end |
| `Cartridges.InstrDeclares` | parseltongue86/translator/instruction.py:570-580 | an instruction declares temporaries of its own range of numbers only, each once exactly if it is not a cmc |
| `Cartridges.TemporariesAreUnique` | parseltongue86/translator/instruction.py:570-574 | every temporary is declared once over the whole output if and only if no instruction in it is a cmc |
| `Cartridges.CmcDeclaresTwice` | parseltongue86/translator/instruction.py:800-804 | the code of a cmc declares its temporary twice |
| `Cartridges.OpenExactly` | parseltongue86/parseltongue86.py:113-131 | when instructions and cartridges do not overlap and cartridges end where instructions end, a cartridge is open at the end if and only if one ends past the last instruction |
| `Cartridges.CutCartridge` | parseltongue86/parseltongue86.py:122-131 | a cartridge whose last instruction is missing leaves the output inside a function |
| `Cartridges.Translate` | parseltongue86/parseltongue86.py:109-139 | the output is the functions of groups of consecutive instructions, each equivalent to its instructions one by one; it alternates, declares each temporary once if and only if there is no cmc, and ends inside a function if and only if a cartridge ends past the last instruction |
| `Operands.StorePuts` | parseltongue86/translator/operand.py:318-349 | a store replaces exactly the named part of a register (all of it for four bytes) or the bytes of memory |
| `Operands.StoredValue` | parseltongue86/translator/operand.py:301-349 | a fetch after a store to the same register field or memory operand gives what was stored |
| `Effects.MovExtends` | parseltongue86/translator/instruction.py:925-936 | mov, movz and movsx store the source, extended with zeros or its sign, and nothing else, if and only if it is not a negative number for the low byte or half of a register |
| `Effects.MovsbwBorrows` | parseltongue86/translator/instruction.py:925-936 | a sign-extending move to half a register that also changes the rest of it |
| `Effects.CallThenReturn` | parseltongue86/translator/instruction.py:890-902 | after any callee that keeps the stack pointer and the return address, ret goes back behind the call with the caller's stack pointer |
| `Effects.EnterThenLeave` | parseltongue86/translator/instruction.py:1004-1030 | after any body that keeps the frame pointer and the saved one, leave undoes enter |
| `Effects.NotIsExact` | parseltongue86/translator/instruction.py:762-765 | not complements its operand and nothing else if and only if that is not the low byte or half of a register |
| `Conditions.LogicalIsExact` | parseltongue86/translator/instruction.py:749-760 | and, or and xor store the bitwise result, clear CF and OF and set ZF and SF by it; test sets the flags only |
| `Conditions.SkipTestExact` | parseltongue86/translator/instruction.py:868-888 | the emitted test is true if and only if the condition on the flags does not hold |
| `Conditions.JumpIsExact` | parseltongue86/translator/instruction.py:916-922 | a jump goes to its target if and only if its condition holds, and changes nothing else |
| `Conditions.SetIsExact` | parseltongue86/translator/instruction.py:769-777 | set stores one if and only if its condition holds, zero otherwise, and changes nothing else |
| `Conditions.CompareThenJump` | parseltongue86/translator/instruction.py:868-922 | after cmp a conditional jump is taken if and only if the operands are in the relation it names, with and without signs, at every width |
| `Products.MultiplyIsExact` | parseltongue86/translator/instruction.py:680-721 | mul leaves the exact double-width product, and CF and OF tell whether the high half matters |
| `Products.SignedMultiplyExactly` | parseltongue86/translator/instruction.py:680-721 | imul with one operand: the low half is that of the signed product; the high half if and only if no factor is negative, one is zero, or both are the most negative number; CF and OF are also set whenever a factor is negative and neither is zero |
| `Products.SignedMultiplyLow` | parseltongue86/translator/instruction.py:680-721 | imul with two or three operands leaves the low half of the signed product, with the same CF and OF |
| `Products.MinusOneTimesOne` | parseltongue86/translator/instruction.py:680-721 | the code of imul with -1 in al and 1: the high half is 0 instead of 0xFF, and CF and OF are set |
| `Products.DivideExactly` | parseltongue86/translator/instruction.py:723-747 | div and idiv leave C's remainder, and quotient and remainder make up the dividend if and only if it is within the reach of the divisor; for div, if and only if the high half is below the divisor |
| `Products.DivideOverflows` | parseltongue86/translator/instruction.py:737-747 | the code of div with 1 in the high half, 0 below it and a divisor of 1 leaves 0 and 0 |
| `Products.DivideAfterSignFill` | parseltongue86/translator/instruction.py:947-950 | a sign extension and idiv give C's signed quotient and remainder if and only if it is not the most negative number divided by -1 |
| `Aliasing.PushExactly` | parseltongue86/translator/instruction.py:980-990 | push stores the value that its operand has before the instruction, on every machine, if and only if the operand does not involve rsp |
| `Aliasing.PushOfRsp` | parseltongue86/translator/instruction.py:980-990 | push %rsp stores rsp - 8, on every machine |
| `Aliasing.PopExactly` | parseltongue86/translator/instruction.py:992-1002 | pop stores the top of the stack to its operand as it is after rsp has moved, on every machine, if and only if the operand does not involve rsp |
| `Aliasing.PopOfRsp` | parseltongue86/translator/instruction.py:992-1002 | pop %rsp leaves the popped number plus 8, on every machine |
| `Aliasing.PushThenPop` | parseltongue86/translator/instruction.py:980-1002 | a push and a pop move the operand to the register and leave the stack pointer where it was, on every machine, if and only if neither involves rsp |
| `Aliasing.PushPopRestores` | parseltongue86/translator/instruction.py:980-1002 | pushing and popping a register leaves every register as it was, rsp included |
| `Aliasing.XchgExactly` | parseltongue86/translator/instruction.py:586-592 | xchg swaps the values in the places that its operands have before the instruction and changes nothing else, on every machine, if and only if it does not exchange a register with memory addressed through it, the register first |
| `Aliasing.XchgThroughItself` | parseltongue86/translator/instruction.py:586-592 | xchg %rax,(%rax) stores to another address |
| `Aliasing.XaddExactly` | parseltongue86/translator/instruction.py:594-596 | xadd leaves the sum where its destination was, the old destination in its source and the flags of the sum, on every machine, if and only if the destination is not memory addressed through the source |
| `Aliasing.CmovExactly` | parseltongue86/translator/instruction.py:969-978 | cmov gives its destination the value that the source has before the instruction if and only if the condition holds, and changes nothing else, on every machine, if and only if it does not move four bytes from memory with a 64-bit address that counts the destination |
| `Aliasing.CmovThroughItself` | parseltongue86/translator/instruction.py:969-978 | cmovne (%rax),%eax reads from another address |
| `Addresses.AddrValue` | parseltongue86/translator/operand.py:255-285 | an address is offset, base and scaled index added in 32 or 64 bits |
| `AluFlags.CarryByComparison` | parseltongue86/translator/instruction.py:667-674 | comparing the result with the first operand tells the true carry or borrow, with and without carry in |
| `AluFlags.OverflowBySigns` | parseltongue86/translator/instruction.py:654-666 | the sign bits of operands and result tell signed overflow |
| `AluFlags.AddFlagsExec` | parseltongue86/translator/instruction.py:662-678 | the flag code sets CF, OF, ZF and SF right and changes nothing else |
| `AluFlags.MergedFlags` | parseltongue86/translator/operand.py:156-175 | the masked update takes exactly the flag bits from the new value |
| `AluChain.AddIsExact` | parseltongue86/translator/instruction.py:621-678 | add, adc, sub and sbb leave the reduced result in the destination and the flags of the exact one, at every width |
| `AluChain.CompareIsExact` | parseltongue86/translator/instruction.py:487-488 | cmp changes the flags only |
| `AluChain.BetweenKeepsFlags` | parseltongue86/translator/instruction.py:925-945 | moves and lea leave the flags alone |
| `AluChain.ChainComputes` | parseltongue86/translator/instruction.py:479-486 | an add followed by any number of adc (or sub by sbb), with moves and lea between, computes the exact sum (difference) of numbers of many limbs, with CF as carry out |

## Left out

- Factoring.RhoSearch: the cycle search promises no particular divisor; the contract says where it stops, not that the walk is Brent's.
- Factoring.Rho2Search: the residues of the two-word walk are arbitrary words, because mulredc2, powm2 and mod2 are not modelled as exact arithmetic; conservation does not depend on them.
- Factoring.Prime2P: the answer for a number of two words is arbitrary, so nothing is claimed about the primality of the large factor.
- Factoring.PrimeP: fuel bounds the search loops of the recursive factoring of n - 1; a call that runs out of fuel claims nothing, and termination of the searches is not proved.
- Factoring.Factor: the same fuel bound.
- FactorList.Factors.InsertMultiplicity: the two parallel arrays p and e are one array of pairs.
- FloatRounding.Convert: widths N below M + 3 are excluded; there the carry of the increment does not fit in N bits, and no conversion has such a width.
- CartridgeEmitter.InstrCode: covers every operation that emit_function dispatches but loop, whose early return skips the write-back (pushf and popf, whose operand text is read as the address 0xef, are a push and a pop of that memory); what shifts, rotations, bit tests, byte swaps and single flag instructions compute is not stated, only that batching keeps it.
- AluFlags.AddFlagsExec: claims nothing about PF, whose polarity is not the hardware's, or about CF after inc and dec, which the code clears.
- prime_p with primality proving switched off: the 25-round probabilistic answer.
- SQUFOF, integer square roots and the GMP paths of `factor.c`: disabled or in code that is not part of this model.
- The divq instruction that `__udivmodti4` uses on x86-64: the portable divider that stands in for it elsewhere is modelled.
- Memory orders of `atomic.c`: each step of the model is sequentially consistent.  The lock-free sizes are those of x86-64 without cmpxchg16b: 1, 2, 4 and 8 bytes.
- SignedDivision.Magnitude: `(a ^ s) - s` overflows a signed integer of C for the most negative number (divmodti4.c:21-24), which the language leaves undefined; the model wraps around as the hardware does.
- Thread exit and the destructor of `emutls.c`, the Windows variant, and the memory of the tables themselves; initial values of thread-local objects are not modelled.
- File, pipe and pthread errors, line buffering, and the text of messages.
- objdump parsing, operand syntax and springboards of parseltongue86; segment prefixes.
- Soft-float arithmetic and comparisons, conversions from float to integer, and the remaining run-time library: their bodies are in files that are not part of this model or would only add easy members.
