# Verified model of the LLVM runtime arithmetic and synchronisation code

This project models the runtime support code under `src/llvm-runtime/src` of the
distribution, and the binder exchange rewriter of `src/msp430-elf-adac`, and
proves what that code promises. To check the files, use
`dafny verify dfyconfig.toml`.

## What is modelled

Machine words are naturals below a power of two. The C operators that can leave a
word (`<<`, unary minus, subtraction, casts) are written out with the word's
width; `>>` of a signed word copies the sign, signed arithmetic wraps as
`int_lib.h` states, and `int` is 32 bits wide. Floats are bit patterns; `Magnitude`
and `Value` of `FloatFormat` give the real number a pattern stands for. The
`__SOFT_FP__` branches are the ones modelled. Where two files are one text at two
widths, there is one method with the width as a parameter.

- `Arithmetic`, `Bits`, `Bytes`, `Options`, `Counting`: integer facts, C bit
  operators and bit lengths, numbers as bytes, missing values, pigeonholes.
- `UnsignedDivision`, `SignedDivision`, `Multiplication`: `udivmoddi4.c`,
  `udivmodti4.c`, `udivsi3.c`, the signed wrappers, the multiplications with an
  overflow flag, and multiplication from half words.
- `Rounding`: the reference the float routines are held to. `Rounded(x, p)` is x
  rounded to p significant bits, to nearest with ties to even, with no bound on
  the exponent (section 4.3.1 of IEEE 754-2008). It is proved to be the nearest of
  all p-bit numbers, to keep order and to leave p-bit numbers alone.
- `FloatFormat`, `FloatResult`, `FpLib`: the formats, the pattern that must be
  delivered for a rounded magnitude, and helpers of `fp_lib.h`.
- `Reciprocal`, `SoftDivision`: `divsf3.c` and `divdf3.c`. The chain is: the linear
  guess is off by at most a known amount; each truncating Newton-Raphson step
  squares the error up to two truncations; the nudged reciprocal is strictly low;
  so the quotient estimate is low by less than one and a half; so the residual
  decides the rounding, and a tie cannot happen.
- `IntToFloat`, `FloatCompare`, `CountZeros`: conversions from integers by both
  rounding algorithms, comparison, and the leading and trailing zero counts.
- `AtomicMemory`, `LockTable`: the specification of atomic objects, and the lock
  table of `atomic.c` as an interleaving of compare-and-swaps that may fail for no
  reason, single-byte copies and comparisons, and unlocks. A run of the lock table
  is matched state by state with a run of the atomic memory.
- `TlsIndex`, `EmuMemory`, `TlsAccess`, `EmuTls`, `TlsThread`, `TlsMachine`,
  `TlsCourse`, `TlsProgress`, `TlsAgreement`: `emutls.c`. `TlsIndex` is the
  double-checked index allocation, one memory access at a time. `TlsAccess` says
  what one access makes of a thread's table and of the live blocks, given the
  allocator's answers. `EmuTls` is the storage as methods of one process: growing
  tables, over-aligned objects with a hidden back pointer, and the key destructor,
  over a byte memory and an arbitrary honest `malloc`. `TlsThread` and `TlsMachine`
  are the whole file as a state machine: any number of threads in
  `__emutls_get_address`, numbering included, and in the key's destructor, one
  memory access at a time, with the tables lying in the byte memory too; `malloc`,
  `realloc` and `free` that leave arbitrary bytes behind; and a program that
  allocates, frees and writes as it likes outside of what `emutls.c` has not handed
  out. `TlsCourse` and `TlsProgress` show what every run can be continued to, and
  that an undisturbed access is one of `TlsAccess`; `TlsAgreement` that a call of
  the process is such a run of the machine.
- `BinderExchange`: the parser, printer and rewrite of `msp430-elf-adabind`.
- `Lsda`: ULEB128 numbers, encoded pointers, and the reading of the whole
  language-specific data area in `gcc_personality_v0.c`.

Where the code does something a reader of its comments would not expect, the code
is followed:

- `__divsf3` and `__divdf3` flush every result below the least normal number to
  zero, except one that rounds up to it; `Delivers` says exactly that.
- `__udivsi3` answers division by zero with zero.
- A section with an empty name loses its entries when an exchange file is read,
  a blank line stops the reader, and lines before the first header are dropped.
  `RoundTrip` gives the exact condition under which writing and reading back is
  the identity.
- `readULEB128` shifts an `int`, so it has a meaning only for encodings of at most
  five bytes whose value is below 2^31; `UlebAt` says so and `ReadUleb128` meets it.
- `wideRightShiftWithSticky` shifts a word by its own width when its count is zero
  or exactly one word.

## Model

| member | source | states |
|---|---|---|
| UnsignedDivision.BorrowTrick | src/llvm-runtime/src/udivmoddi4.c:188-190 | the signed shift of d - r - 1 is all ones for d <= r and zero otherwise if and only if the difference fits a signed word |
| UnsignedDivision.LoopDifference | src/llvm-runtime/src/udivmoddi4.c:176-190 | what the loop knows of r keeps that difference in a signed word |
| UnsignedDivision.ShiftedRemainder | src/llvm-runtime/src/udivmoddi4.c:176-181 | the shifted remainder never overflows the double word, and always satisfies the relation the comparison needs |
| UnsignedDivision.DividingStep | src/llvm-runtime/src/udivmoddi4.c:176-191 | one pass keeps: quotient bits found so far times d plus r is the dividend's leading part, with 0 <= r < d |
| UnsignedDivision.ShiftSubtract | src/llvm-runtime/src/udivmodti4.c:170-192 | the loop, from any correctly started state, ends with n = q * d + r and r < d |
| UnsignedDivision.DivideByHighWord | src/llvm-runtime/src/udivmoddi4.c:55-104 | the special cases with a zero low divisor word: exact quotient and remainder |
| UnsignedDivision.DivideByLowWord | src/llvm-runtime/src/udivmodti4.c:102-140 | the special cases with a one-word divisor, power of two or not: exact quotient and remainder |
| UnsignedDivision.DivideByPair | src/llvm-runtime/src/udivmoddi4.c:144-168 | a two-word divisor: exact quotient and remainder, including a divisor longer than the dividend |
| UnsignedDivision.UDivMod | src/llvm-runtime/src/udivmoddi4.c:27-196 | for every b != 0, a = q * b + r with r < b, at any word width (32 for __udivmoddi4, 64 for __udivmodti4) |
| UnsignedDivision.UDivWord | src/llvm-runtime/src/udivsi3.c:20-58 | the one-word quotient is the floor of n / d, and zero for d = 0 |
| SignedDivision.TruncationIsC99 | src/llvm-runtime/src/divdi3.c:15-25 | the specification of / and %: the only q, r with a = q * b + r, abs(r) < abs(b) and r zero or of the sign of a |
| SignedDivision.AbsolutePattern | src/llvm-runtime/src/divdi3.c:19-22 | (a ^ s) - s is the pattern of abs(a), also for the least integer, whose absolute value is only representable unsigned |
| SignedDivision.Divdi3 | src/llvm-runtime/src/divdi3.c:17-25 | truncating quotient for every b != 0, except that MIN / -1 gives MIN |
| SignedDivision.Moddi3 | src/llvm-runtime/src/moddi3.c:17-26 | remainder with the sign of the dividend, for every b != 0 |
| SignedDivision.Divmoddi4 | src/llvm-runtime/src/divmoddi4.c:17-21 | agrees with both, including the wrap of MIN / -1 |
| SignedDivision.Divsi3 | src/llvm-runtime/src/divsi3.c:17-31 | the same as __divdi3, on __udivsi3 |
| SignedDivision.Modsi3 | src/llvm-runtime/src/modsi3.c:17-19 | the truncating remainder out of the quotient, for every b != 0 |
| SignedDivision.GuardDecides | src/llvm-runtime/src/mulodi4.c:41-47 | the two guard divisions exceed exactly when the product leaves the signed range |
| SignedDivision.Mulodi4 | src/llvm-runtime/src/mulodi4.c:19-49 | the product wrapped to 64 bits, and the flag set exactly when the true product is out of range, with the divisions done by __divdi3 |
| SignedDivision.Mulosi4 | src/llvm-runtime/src/mulosi4.c:19-49 | the same at 32 bits, with the divisions done by __divsi3 |
| Multiplication.WideMultiply | src/llvm-runtime/src/fp_lib.h:84-96 | hi * 2^64 + lo = a * b for all a and b: no carry is lost |
| Multiplication.Muldsi3 | src/llvm-runtime/src/muldi3.c:17-34 | the full two-word product of two words from half-word products |
| Multiplication.Muldi3 | src/llvm-runtime/src/muldi3.c:38-47 | the signed product wrapped to two words |
| CountZeros.Clzsi2 | src/llvm-runtime/src/clzsi2.c:19-48 | the branch-free narrowing returns 32 minus the bit length |
| CountZeros.Ctzsi2 | src/llvm-runtime/src/ctzsi2.c:19-53 | the number z with x divisible by 2^z and x / 2^z odd, in spite of the garbage left above |
| CountZeros.Clzdi2 | src/llvm-runtime/src/clzdi2.c:29-35 | 64 minus the bit length of the two-word argument |
| Rounding.RoundedIsNearest | src/llvm-runtime/src/floatdisf.c:13 | no number of p significant bits is nearer than Rounded, and when another is as near the significand chosen is even |
| Rounding.RoundedMonotone | src/llvm-runtime/src/floatdisf.c:13 | rounding keeps order, so converted integers can be compared |
| Rounding.RoundedExact | src/llvm-runtime/src/floatdisf.c:58-61 | a p-bit number is its own rounding |
| Rounding.RoundedRatio | src/llvm-runtime/src/divsf3.c:128-140 | rounding a scaled quotient of integers is integer division with a look at the remainder |
| FloatFormat.ConstantsAgree | src/llvm-runtime/src/fp_lib.h:203-216 | how the constants fit together: bias, top exponent, sign bit, masks, quiet bit, infinity and quiet NaN patterns |
| FloatFormat.FormatWords | src/llvm-runtime/src/fp_lib.h:203-216 | every constant of both formats as a number; in particular the quiet bit is the top bit of the fraction |
| FloatFormat.OneRep | src/llvm-runtime/src/fp_lib.h:213 | the pattern with the bias as its exponent field and no fraction stands for 1 |
| FloatFormat.InfRepIsExponentMask | src/llvm-runtime/src/fp_lib.h:212-214 | absMask ^ significandMask is the pattern of infinity |
| FloatFormat.MagnitudeMonotone | src/llvm-runtime/src/comparesf2.c:59-60 | larger unsigned patterns stand for larger magnitudes, across subnormals and binades |
| FloatFormat.EncodedValue | src/llvm-runtime/src/divsf3.c:179-184 | adding a significand of up to twice the implicit bit to an exponent field lets a rounding carry into the exponent and still gives the right value |
| FloatResult.UnderflowValue | src/llvm-runtime/src/divsf3.c:157-173 | a written exponent below one means a result below the least normal, unless it rounds up to it |
| FpLib.WideRightShiftWithSticky | src/llvm-runtime/src/fp_lib.h:245-260 | the pair becomes its floor over 2^count with the low bit set when anything was dropped |
| FpLib.LogbX | src/llvm-runtime/src/fp_lib.h:266-294 | the exponent of the value for every finite nonzero number, subnormals included; the patterns for NaN, infinities and zeros |
| Reciprocal.FirstGuess | src/llvm-runtime/src/divsf3.c:85-92 | the linear guess is accurate to about 3.5 bits over the whole range |
| Reciprocal.StepContracts | src/llvm-runtime/src/divsf3.c:100-106 | one truncating step turns the deficit e into e^2 up to the two truncations |
| Reciprocal.ThreeSteps | src/llvm-runtime/src/divsf3.c:101-106 | none of the first two steps leaves 32 bits, the third reaches at most 2^32, and the deficit is at most 10 units |
| Reciprocal.StepsAtOne | src/llvm-runtime/src/divdf3.c:108-111 | at a divisor of exactly 1.0 the third step is 2^32, which 32 bits cut to zero |
| Reciprocal.Newton | src/llvm-runtime/src/divdf3.c:90-106 | for every normalised divisor the stored reciprocal, a zero standing for 2^32, is within those bounds |
| Reciprocal.WideReciprocal | src/llvm-runtime/src/divdf3.c:113-126 | after the extended step and -= 2 the reciprocal, as a fraction of 2^63, is strictly below 2^126 / b and at most 124 units below it, so within 2^-56 |
| SoftDivision.ReciprocalSingle | src/llvm-runtime/src/divsf3.c:91-116 | strictly below 2^63 / q31b and at most 12 units of 2^-32 below it, so within 2^-28, also where the last step wrapped |
| SoftDivision.DecrementReciprocal | src/llvm-runtime/src/divdf3.c:108-111 | recip32-- undoes the wrap to zero and leaves a bounded deficit |
| SoftDivision.RefineWide | src/llvm-runtime/src/divdf3.c:113-130 | the four 32-bit partial products make up the double-width step, with the same strict and close underestimate |
| SoftDivision.SingleEstimate | src/llvm-runtime/src/divsf3.c:114-126 | from any strictly low reciprocal that is short by at most 2^-26, the quotient estimate is strictly low by less than one and a half; the source's own bound is 2^-28 |
| SoftDivision.EstimateDouble | src/llvm-runtime/src/divdf3.c:86-141 | the same for the double-precision estimate, from the significands alone |
| SoftDivision.OddFactor | src/llvm-runtime/src/divsf3.c:137-138 | a power of two that divides an odd multiple of b divides b, the reason a tie cannot occur |
| SoftDivision.ResidualRounds | src/llvm-runtime/src/divsf3.c:128-148 | an estimate short by less than one and a half is rounded correctly by comparing twice the residual with b |
| SoftDivision.LowQuotient | src/llvm-runtime/src/divsf3.c:142-144 | an estimate below twice the implicit bit is a full significand of the lower binade, and a <= b |
| SoftDivision.HighQuotient | src/llvm-runtime/src/divsf3.c:145-148 | otherwise half of it is a full significand of the upper binade, still close enough, and b < a |
| SoftDivision.LowResult | src/llvm-runtime/src/divdf3.c:156-159 | in the lower binade the residual modulo the word is all of it and gives the rounded quotient, also when a = b |
| SoftDivision.HighResult | src/llvm-runtime/src/divdf3.c:160-163 | the same in the upper binade |
| SoftDivision.Normalize | src/llvm-runtime/src/fp_lib.h:234-238 | a subnormal significand is brought to the implicit bit, with the exponent that keeps its value |
| SoftDivision.NormalForm | src/llvm-runtime/src/divsf3.c:70-84 | normalised significand and exponent have the operand's magnitude |
| SoftDivision.Unpack | src/llvm-runtime/src/divsf3.c:23-84 | NaN, infinite and zero operands get the results IEEE 754 gives them, and all others come out with sign, significands and exponent |
| SoftDivision.RoundAndPack | src/llvm-runtime/src/divsf3.c:150-185 | the pattern delivered for the rounded significand: infinity on overflow, a signed zero on underflow, the least normal when it rounds up to it, and otherwise the exact value |
| SoftDivision.RoundQuotient | src/llvm-runtime/src/divdf3.c:156-201 | from any close estimate, the correctly rounded or flushed quotient |
| SoftDivision.Divsf3 | src/llvm-runtime/src/divsf3.c:21-186 | for all operands the result of section 5.4.1 of IEEE 754-2008: a / b rounded to 24 bits, ties to even, infinity on overflow, a correctly signed zero below the least normal |
| SoftDivision.NearestQuotient | src/llvm-runtime/src/divsf3.c:121-125 | a finite nonzero result is at least as near to the exact quotient as any number of as many bits, and when another is as near its significand is even |
| SoftDivision.Divdf3 | src/llvm-runtime/src/divdf3.c:21-202 | the same with 53 bits |
| IntToFloat.StickyRounds | src/llvm-runtime/src/floatdisf.c:48-51 | or P into R, add one, drop two bits: exactly rounding to nearest even |
| IntToFloat.GatherPqr | src/llvm-runtime/src/floatdisf.c:38-47 | the three cases of the switch leave the leading bits, Q, and the or of the rest |
| IntToFloat.RoundPqr | src/llvm-runtime/src/floattidf.c:31-64 | significand and exponent of the rounded integer at any width and significand size, carry included |
| IntToFloat.PackDouble | src/llvm-runtime/src/floatdidf.c:88-92 | the two or-ed 32-bit words are sign, exponent and 52-bit mantissa without overlap |
| IntToFloat.FloatSignedSingle | src/llvm-runtime/src/floatdisf.c:22-67 | the integer rounded to nearest even with its sign, for every argument including the least (N = 64; N = 128 is __floattisf) |
| IntToFloat.FloatSignedDouble | src/llvm-runtime/src/floatdidf.c:48-94 | the same to double precision (N = 64; N = 128 is __floattidf) |
| IntToFloat.FloatUnsignedSingle | src/llvm-runtime/src/floatuntisf.c:24-66 | the same unsigned, with infinity where the rounded value is out of range (N = 128; N = 64 is __floatundisf) |
| IntToFloat.FloatUnsignedDouble | src/llvm-runtime/src/floatundidf.c:54-97 | the same unsigned to double precision (N = 64; N = 128 is __floatuntidf) |
| IntToFloat.InfinityThreshold | src/llvm-runtime/src/floatuntisf.c:48-64 | an unsigned 128-bit integer converts to infinity exactly from 2^128 - 2^103 on |
| IntToFloat.RoundWord | src/llvm-runtime/src/floatsisf.c:46-50 | comparing the round word with the sign bit compares the dropped bits with one half |
| IntToFloat.RoundByWord | src/llvm-runtime/src/floatunsisf.c:28-47 | the other algorithm delivers the same rounded value |
| IntToFloat.FloatWordSigned | src/llvm-runtime/src/floatsisf.c:20-57 | the 32-bit integer rounded to nearest even, the least one included |
| IntToFloat.FloatWordUnsigned | src/llvm-runtime/src/floatunsisf.c:20-49 | the same unsigned |
| IntToFloat.ConvertedUnique | src/llvm-runtime/src/floatundisf.c:22-64 | there is only one correct pattern for an integer |
| IntToFloat.SignedConversionsAgree | src/llvm-runtime/src/floatsisf.c:20-57 | __floatsisf(a) and __floatdisf(a) are both the correctly rounded conversion, and so equal bit for bit, for every 32-bit a |
| IntToFloat.UnsignedConversionsAgree | src/llvm-runtime/src/floatundisf.c:22-64 | __floatunsisf(a) and __floatundisf(a) are both the correctly rounded conversion, and so equal bit for bit, for every 32-bit a |
| FloatCompare.CompareIntsOrders | src/llvm-runtime/src/comparedf2.c:55-82 | comparing patterns as signed integers, the sense flipped for two negatives, gives -1, 0 or 1 exactly as the first decoded value is less, equal or greater |
| FloatCompare.ComparisonIsOrder | src/llvm-runtime/src/comparesf2.c:44-134 | on numbers __lesf2 and __gesf2 are -1, 0 or 1 exactly as the first decoded value is less, equal or greater, infinities and subnormals included and +0 equal to -0; with a NaN they are 1 and -1, and __unordsf2 is 1 |
| FloatCompare.ConversionKeepsOrder | src/llvm-runtime/src/comparesf2.c:44-82 | for a <= b the converted integers compare as -1 and, the other way round, as 1, unless they have become the same number, and then as 0; never as unordered |
| FloatCompare.ExactConversion | src/llvm-runtime/src/floatdisf.c:58-61 | an integer of no more bits than the significand converts to its own value |
| FloatCompare.CompareConverted | src/llvm-runtime/src/floatdisf.c:22-67 | the result is __lesf2 of the two converted patterns, which never contradicts the order of the integers and is that order when they have at most 24 bits |
| LockTable.LockIsBits | src/llvm-runtime/src/atomic.c:106-120 | the lock index is in range and is bits 4 to 13 of the pointer exclusive-or bits 20 to 29, whatever the pointer's sign |
| LockTable.GranuleSharesLock | src/llvm-runtime/src/atomic.c:108-111 | all pointers into one 16-byte granule use one lock |
| LockTable.EnterStarts | src/llvm-runtime/src/atomic.c:173-176 | a thread that has just taken the lock is set to end with the operation applied to the whole object |
| LockTable.AdvanceKeepsCourse | src/llvm-runtime/src/atomic.c:208-213 | every byte copied or compared keeps it set to end with the same value and result |
| LockTable.StepKeepsExclusive | src/llvm-runtime/src/atomic.c:90-100 | no step of any thread breaks mutual exclusion, thanks to old being reset to zero before each attempt |
| LockTable.LockWordMeaning | src/llvm-runtime/src/atomic.c:88-102 | in every state of every run a lock word is 1 exactly when one unique thread is inside its critical section, and that thread holds no other lock |
| LockTable.StepKeepsInv | src/llvm-runtime/src/atomic.c:95-100 | exclusion and consistency with memory are kept by every step of every interleaving |
| LockTable.StepRefines | src/llvm-runtime/src/atomic.c:167-232 | every step is a step of the atomic memory or invisible; the successful compare-and-swap is where the operation takes effect |
| LockTable.Linearizable | src/llvm-runtime/src/atomic.c:165-232 | every run looks to its callers like a run of the atomic memory, with the same calls, returns and results |
| LockTable.RunHasHistory | src/llvm-runtime/src/atomic.c:318-328 | every run has one legal sequential history, its calls in lock order, that explains all bytes not being worked on and the result of every call: what a thread returns is the result of the last event it then had |
| LockTable.NoUpdateLost | src/llvm-runtime/src/atomic.c:318-335 | in every run in which an object is only added to, subtracted from and loaded, its bytes, whenever nobody is inside, are its first value plus all additions minus all subtractions in lock order, modulo 2^(8n) |
| LockTable.NoDeadlock | src/llvm-runtime/src/atomic.c:93-100 | every run can be continued, from any state and for any unfinished call, to one that ends with that call's return |
| LockTable.AnyCall | src/llvm-runtime/src/atomic.c:165-167 | in every reachable state a thread outside may call any operation on any object, if its operands are as large as the object |
| LockTable.CriticalSectionEnds | src/llvm-runtime/src/atomic.c:173-176 | a thread inside releases its lock after at most 3n + 6 of its own steps |
| AtomicMemory.StepKeepsInv | src/llvm-runtime/src/atomic.c:165-166 | every run of the specification has a legal history whose replay is the memory, and each call returns its own event's result |
| AtomicMemory.CompareExchangeReports | src/llvm-runtime/src/atomic.c:193-216 | the result is 1 exactly when the expected value was found and replaced by the desired one; otherwise it is 0, nothing changed and the found value is handed back |
| AtomicMemory.LoadIsWhole | src/llvm-runtime/src/atomic.c:165-177 | a load returns a value the object had as a whole |
| AtomicMemory.EventApplies | src/llvm-runtime/src/atomic.c:165-232 | an event is one application of its operation, and changes no other object |
| AtomicMemory.StoreAndExchange | src/llvm-runtime/src/atomic.c:181-232 | a store leaves its value; an exchange leaves its value and hands back the one it found |
| AtomicMemory.FetchCombines | src/llvm-runtime/src/atomic.c:318-344 | a read-modify-write operation hands back the number it found and leaves the sum or difference modulo 2^(8n), or the and, or or exclusive or of each of the 8n bits |
| AtomicMemory.Conservation | src/llvm-runtime/src/atomic.c:318-335 | the sum law for any legal history of additions, subtractions and loads |
| TlsIndex.StepKeepsInv | src/llvm-runtime/src/emutls.c:313-326 | every interleaving keeps indices distinct, dense up to the one in flight, and known to the threads that return them |
| TlsIndex.StepNumbersAtomically | src/llvm-runtime/src/emutls.c:317-323 | a store gives the next number to the storing thread's control, which had none, and no other step does anything, so numbering is atomic |
| TlsIndex.IndicesAreExactly | src/llvm-runtime/src/emutls.c:317-323 | in every state of every run in which the mutex is free the indices are exactly 1..emutls_num_object, one control each |
| TlsIndex.IndexIsForever | src/llvm-runtime/src/emutls.c:319-322 | an index is written once |
| TlsIndex.CallsAgree | src/llvm-runtime/src/emutls.c:312-326 | two calls in one run return the same index exactly when made for the same control |
| EmuMemory.NewSizeIsLeast | src/llvm-runtime/src/emutls.c:337-345 | header and slots fill the least multiple of 16 words with room for the index |
| EmuMemory.AlignedInside | src/llvm-runtime/src/emutls.c:71-78 | the masked address is the first multiple of the alignment with room for the back pointer below, and the object ends inside the block |
| EmuMemory.PowerOfTwoMeans | src/llvm-runtime/src/emutls.c:300-302 | x & (x - 1) is zero for nonzero x exactly when x is a power of two |
| EmuMemory.AlignmentTest | src/llvm-runtime/src/emutls.c:297-302 | an alignment is refused exactly when it is at least eight and no power of two, and one below eight counts as eight |
| EmuMemory.InitialisedMemory | src/llvm-runtime/src/emutls.c:304-308 | back pointer and initial bytes both survive, and nothing outside the block changes |
| EmuTls.AddressesNeverCoincide | src/llvm-runtime/src/emutls.c:378-384 | addresses of different threads or controls differ and their objects do not overlap |
| EmuTls.Process.GetIndex | src/llvm-runtime/src/emutls.c:313-326 | the atomic numbering step of `TlsIndex` on the index words, its number returned, and the invariant kept |
| EmuTls.Process.GrowTable | src/llvm-runtime/src/emutls.c:366-374 | growing keeps every address and every object, and clears the new slots |
| EmuTls.Process.GetAddressArray | src/llvm-runtime/src/emutls.c:355-376 | a table with a slot for the index; abort exactly when a table is needed and malloc, or realloc with the old table given up, refuses its bytes |
| EmuTls.RefusalMeans | src/llvm-runtime/src/emutls.c:297-302 | in the terms of the control: an access aborts exactly when there is no table for it, or no object yet and an alignment of at least eight that is no power of two or malloc refusing size, back pointer and slack |
| EmuTls.FreshlyMeans | src/llvm-runtime/src/emutls.c:297-309 | a fresh object, in the control's own terms: its place, and the template or zeros address by address |
| EmuTls.Process.AllocateObject | src/llvm-runtime/src/emutls.c:290-310 | an object at a multiple of eight and of the alignment asked for, the first such address with room for the back pointer, in a block of its own of exactly the bytes needed, holding the template or zeros; abort exactly on an alignment of at least eight that is no power of two or a failed malloc |
| EmuTls.Process.GetAddress | src/llvm-runtime/src/emutls.c:378-384 | the same address as before if there was one, else a fresh object aligned as asked for, with its initial bytes; no other address and no object's bytes change; all in all what `TlsAccess.Accessed` says: the exact table and live blocks afterwards, one block more being the home of the new slot, and abort exactly when the table is refused, or there is no object yet and its alignment is at least eight and no power of two, or the object is refused in the blocks left by the table |
| EmuTls.Process.ClientWrite | src/llvm-runtime/src/emutls.c:83-90 | writing inside objects cannot damage a back pointer |
| EmuTls.Process.Shutdown | src/llvm-runtime/src/emutls.c:261-269 | frees the block of every object of the table, each once and in slot order, found through its back pointer |
| EmuTls.Process.KeyDestructor | src/llvm-runtime/src/emutls.c:100-115 | puts the table back while rounds are to be skipped, then frees every object and the table and nothing else |
| EmuTls.Process.ThreadExit | src/llvm-runtime/src/emutls.c:15-27 | the table is freed in the round after its skip count, which is never above the configured number |
| EmuTls.HomeListDistinct | src/llvm-runtime/src/emutls.c:264-267 | no block is freed twice |
| TlsThread.WorkKeeps | src/llvm-runtime/src/emutls.c:355-384 | every memory access of a thread, in an access to a variable or in the destructor, keeps what the thread knows, stays inside blocks it owns, and leaves it owning what it owned before except for what it gives to free, and nothing else |
| TlsThread.ObtainKeeps | src/llvm-runtime/src/emutls.c:358-374 | malloc and realloc, the latter moving the table or not, keep the same, the old table being given up |
| TlsThread.OneMoreLive | src/llvm-runtime/src/emutls.c:381-382 | storing the finished object makes its pending block the home of the slot and changes no other slot |
| TlsThread.GrownView | src/llvm-runtime/src/emutls.c:366-373 | after realloc the words of the old table are found at the new place: the skip count, the size, every slot, every object |
| TlsThread.ThreadKept | src/llvm-runtime/src/emutls.c:92-98 | what leaves a thread's table, its unpublished block and its back pointers alone leaves everything the thread knows in place |
| TlsMachine.StepKeepsInv | src/llvm-runtime/src/emutls.c:313-384 | every step of every thread and of the rest of the program keeps the whole invariant: indices, tables, back pointers, blocks owned by one thread each |
| TlsMachine.StepKeepsTable | src/llvm-runtime/src/emutls.c:366-383 | no step but the free of the table changes an occupied slot, and none but the thread's own exits brings that free nearer |
| TlsMachine.OneAddress | src/llvm-runtime/src/emutls.c:378-384 | in every run two calls of a thread for one control return one nonzero address unless its table was freed between |
| TlsMachine.AddressesApart | src/llvm-runtime/src/emutls.c:378-384 | in every run addresses returned for different threads or controls differ and their objects do not overlap, while the first thread is not at its end |
| TlsMachine.StartsInitialised | src/llvm-runtime/src/emutls.c:290-310 | whatever address a call returns was first returned, to that thread for that control, as an object at a multiple of eight and of the control's alignment, holding the template or zeros |
| TlsMachine.ObjectRequest | src/llvm-runtime/src/emutls.c:297-310 | in every run a thread that needs an object aborts at once exactly when the alignment is at least eight and no power of two; otherwise it asks for exactly the bytes needed, may get any free range, and aborts only if refused |
| TlsMachine.AbortsOnly | src/llvm-runtime/src/emutls.c:328-334 | nothing else aborts a run: only a refusal by malloc or realloc of what a call asks for, or such an alignment, and nothing follows |
| TlsMachine.TableLaidOut | src/llvm-runtime/src/emutls.c:36-40 | a first table in memory: the rounds to skip, the number of slots, and that many null slots, at least as many as the index, in a block of their exact size |
| TlsMachine.ReturnedFromSlot | src/llvm-runtime/src/emutls.c:378-384 | what a call returns stands in the slot of the control's index behind the two header words, and the word before the object is the live block it lies in |
| TlsMachine.ReleasedIsLive | src/llvm-runtime/src/emutls.c:83-90 | only live blocks are passed to free and realloc, and only by the thread they belong to |
| TlsMachine.FreedOnce | src/llvm-runtime/src/emutls.c:261-269 | between two frees of one block malloc or realloc has returned it again |
| TlsMachine.DestructorFreesAll | src/llvm-runtime/src/emutls.c:100-115 | a completed destructor frees exactly the blocks its thread owns, each once: those of the live objects in slot order and then the table |
| TlsMachine.EveryBlockFreed | src/llvm-runtime/src/emutls.c:100-115 | nothing leaks: every block malloc or realloc gives a thread is freed by that thread, by nobody before, at the latest with its table, and not again before the allocator has given it out anew |
| TlsMachine.RoundsSkipped | src/llvm-runtime/src/emutls.c:15-27 | in every run, between the making of a thread's table and its free the thread exits exactly once more than the configured number of skipped rounds |
| TlsMachine.StoresStayInside | src/llvm-runtime/src/emutls.c:65-81 | no step of a thread in emutls.c frees, moves or changes a byte of a live block that is not the thread's own |
| TlsMachine.ProgramUsesObject | src/llvm-runtime/src/emutls.c:378-384 | the rest of the program may at any time write anything inside an object it has been given |
| TlsMachine.ProgramWrites | src/llvm-runtime/src/emutls.c:83-90 | and anything in a live block that no thread of emutls.c owns |
| TlsMachine.ProgramAllocates | src/llvm-runtime/src/emutls.c:65-81 | and get any range that meets no live block from malloc |
| TlsCourse.NextKeepsFate | src/llvm-runtime/src/emutls.c:355-384 | every memory access of a thread leaves unchanged what its access will end with: address, table and live blocks, or abort |
| TlsCourse.AnswerKeepsFate | src/llvm-runtime/src/emutls.c:358-374 | so does every answer of malloc and realloc, and a refusal or a bad alignment is met exactly when the access is to abort |
| TlsProgress.AccessAlone | src/llvm-runtime/src/emutls.c:378-384 | a call that no other thread disturbs is one atomic numbering step and one access of `TlsAccess`, table and blocks as it says, and aborts exactly when it says so |
| TlsProgress.CallFinishes | src/llvm-runtime/src/emutls.c:313-384 | any run that has not aborted can be continued until the call of any thread returns, or aborts because it is to |
| TlsProgress.DestructorFinishes | src/llvm-runtime/src/emutls.c:100-115 | a thread in the key's destructor comes to its end by its own steps |
| TlsAgreement.GetAddress | src/llvm-runtime/src/emutls.c:378-384 | a call of the process is a run of the machine by one thread: the same address or both abort, and tables, numbers and blocks agree again |
| BinderExchange.RoundTrip | src/msp430-elf-adac/msp430-elf-adabind:41-62 | writing and reading back restores the sections exactly when names are free of line ends, entries are trimmed, nonempty, on one line and not header-shaped, and the empty name has no entries |
| BinderExchange.ReadIsWellFormed | src/msp430-elf-adac/msp430-elf-adabind:41-51 | whatever the file, what is read from it is of that kind |
| BinderExchange.ReadWriteRead | src/msp430-elf-adac/msp430-elf-adabind:41-62 | data read once survives any number of further writes and reads |
| BinderExchange.BlankLineFails | src/msp430-elf-adac/msp430-elf-adabind:29-30 | reading fails with an index error exactly when some line is blank |
| BinderExchange.LineRead | src/msp430-elf-adac/msp430-elf-adabind:29-38 | one more line that is not blank: in brackets it begins the section of that name, otherwise it goes to the last section begun |
| BinderExchange.StripSplits | src/msp430-elf-adac/msp430-elf-adabind:46-49 | strip takes white space off both ends, all of it and nothing else |
| BinderExchange.TranslateReturns | src/msp430-elf-adac/msp430-elf-adabind:42 | a carriage return, alone or before a line feed, is read as a line feed |
| BinderExchange.LinesMakeText | src/msp430-elf-adac/msp430-elf-adabind:45 | the lines of a text put together again are the text, but for a line end after the last |
| BinderExchange.ExtensionReplaced | src/msp430-elf-adac/msp430-elf-adabind:84-85 | stem.ext becomes stem.o whenever the last component of the stem is not only dots and ext has neither dot nor slash |
| BinderExchange.ExtensionAdded | src/msp430-elf-adac/msp430-elf-adabind:84-85 | a path whose last component has no dot, but for dots it begins with, gets .o added |
| BinderExchange.ObjectFileNamed | src/msp430-elf-adac/msp430-elf-adabind:84-85 | so for every path: .o for its extension if it has one, and after it if not |
| BinderExchange.ObjectFileOk | src/msp430-elf-adac/msp430-elf-adabind:84-86 | the object file name of a valid entry is a valid entry |
| BinderExchange.BexchData.BeginNewSection | src/msp430-elf-adac/msp430-elf-adabind:32-34 | a known name keeps its place and loses its entries, a new one comes last with none, and every other section stays |
| BinderExchange.BexchData.AppendLine | src/msp430-elf-adac/msp430-elf-adabind:36-38 | the line is added at the end of the last section begun, unless there is none or its name is empty, and nothing else changes |
| BinderExchange.ReadBexchFile | src/msp430-elf-adac/msp430-elf-adabind:41-51 | the loop over lines computes the parse the lemmas are about |
| BinderExchange.WriteBexchFile | src/msp430-elf-adac/msp430-elf-adabind:54-62 | the nested loops print the text the lemmas are about |
| BinderExchange.Adabind | src/msp430-elf-adac/msp430-elf-adabind:75-92 | the script fails with an index error exactly on a blank line and with a key error exactly when a section it needs is missing; otherwise it writes the six sections line by line, with the project files as they were and each dependency's object file, named as above, and what it writes reads back as that |
| Lsda.UlebRoundTrip | src/llvm-runtime/src/gcc_personality_v0.c:46-58 | reading inverts encoding exactly for values below 2^31 and consumes exactly the encoded bytes |
| Lsda.DecodeEnd | src/llvm-runtime/src/gcc_personality_v0.c:51-56 | a number ends with the first byte without its high bit |
| Lsda.DecodeGroups | src/llvm-runtime/src/gcc_personality_v0.c:51-56 | its value has the low seven bits of each byte as its groups, the first byte's lowest |
| Lsda.ReadUleb128 | src/llvm-runtime/src/gcc_personality_v0.c:46-58 | the loop delivers the number and the position after it exactly when C gives its shifts a meaning |
| Lsda.PointerRoundTrip | src/llvm-runtime/src/gcc_personality_v0.c:61-133 | the same for every supported pointer encoding: any width, signed or not, relative to the place or not, direct or through a stored pointer, or omitted |
| Lsda.UnsignedFormats | src/llvm-runtime/src/gcc_personality_v0.c:68-88 | formats 0x00 to 0x04 read 8 bytes, ULEB128, 2, 4 and 8 bytes, low byte first, and consume just these |
| Lsda.SignedFormats | src/llvm-runtime/src/gcc_personality_v0.c:89-100 | formats 0x0a, 0x0b and 0x0c read 2, 4 and 8 bytes as signed numbers, widened to 64 bits |
| Lsda.OtherFormats | src/llvm-runtime/src/gcc_personality_v0.c:65-106 | 0xff reads nothing, fields that end after the data have no value, and the other formats abort |
| Lsda.EncodingModes | src/llvm-runtime/src/gcc_personality_v0.c:108-129 | 0x10 adds the address of the field, 0x80 takes the pointer stored at the address, 0x90 does both in this order |
| Lsda.OtherModes | src/llvm-runtime/src/gcc_personality_v0.c:116-124 | all other modes abort once the value has been read |
| Lsda.SupportedExactly | src/llvm-runtime/src/gcc_personality_v0.c:65-124 | the encodings the reader knows, one by one; it aborts on none of them and gives no value for any other |
| Lsda.FormatRoundTrip | src/llvm-runtime/src/gcc_personality_v0.c:68-100 | a number written in a format is read back exactly when the format has room for it |
| Lsda.SignExtends | src/llvm-runtime/src/gcc_personality_v0.c:89-100 | widening a signed field restores the number whenever the field had room for it |
| Lsda.EntryAdvances | src/llvm-runtime/src/gcc_personality_v0.c:212-216 | every turn of the walk consumes at least one byte, so it ends |
| Lsda.TableRoundTrip | src/llvm-runtime/src/gcc_personality_v0.c:206-216 | a table written row by row is read back entry by entry |
| Lsda.WalkCallSites | src/llvm-runtime/src/gcc_personality_v0.c:206-233 | the first readable entry that has a landing pad and covers the pc is installed; with none, unwinding continues, or the walk breaks at the first unreadable entry |
| Lsda.FirstLandingIsFirst | src/llvm-runtime/src/gcc_personality_v0.c:217-219 | the answer is the pad of the least index that has one and whose range from start up to, but not including, start + length modulo 2^64 holds the pc, and there is none exactly when unwinding continues |
| Lsda.WrittenTableWalk | src/llvm-runtime/src/gcc_personality_v0.c:206-233 | walking a table as written installs the pad of the first covering row and never breaks |
| Lsda.Personality | src/llvm-runtime/src/gcc_personality_v0.c:197-233 | header and walk together compute the answer the next row is about |
| Lsda.WrittenAreaAnswer | src/llvm-runtime/src/gcc_personality_v0.c:197-233 | for an area as written, header included, the answer is the pad of the first row that has one and whose half-open range holds the pc, or to continue |

## Left out

- FpLib.WideRightShiftWithSticky: does not cover counts of zero and of exactly one word, which shift a word by its own width; C leaves that undefined.
- EmuTls.Process.GetAddress: is one call run to its end, which `TlsAgreement` relates to the machine; calls interleaved with other calls, exits and the rest of the program are in `TlsMachine`.
- TlsProgress.CallFinishes: shows that an end can be reached, not that a scheduler lets it be; no fairness is assumed.
- TlsMachine.StepKeepsInv: takes the memory model as sequentially consistent, and a read of a thread's own table together with the branch on it as one step; the rest of the program is assumed to write only to memory of its own and to objects it has been given.
- Lsda.Personality: starts after the search-phase test and the fetch of the area; the unwinder calls are not modelled, and values of 2^31 and more are `Undefined`.
- UnsignedDivision.UDivMod: division by zero is excluded, as C leaves `n / 0` undefined there; the null check on the remainder pointer is not modelled.
- LockTable.Linearizable: interleaving semantics; acquire and release are taken as sequentially consistent, and no fairness is promised, as the source says waiting is unbounded.
- LockTable.NoUpdateLost: numbers are read least significant byte first, here and in `AtomicMemory.FetchCombines`.
- The lock-free paths of `atomic.c`, its FreeBSD and Apple locks, and the Windows and `posix_memalign` branches of `emutls.c`.
- The limit on destructor rounds a pthread library sets, `pthread_once`, and overflow of the index counter.
- Size arithmetic near 2^63 in `emutls.c`: controls are assumed smaller than that, and fewer than 2^56.
- Float addition, multiplication, extension, truncation and float-to-integer conversion, whose bodies are in included files, and everything in quad precision.
- The hardware-float branches of `floatdidf.c` and `floatundidf.c`, and the floating-point exception flags, which these routines do not set.
- `clzti2.c` and `ctzdi2.c`: the compiler builtins and `__clzti2` are taken to count bits; `CountZeros` proves the three counters listed.
- Complex arithmetic, `bridge.c`, byte swaps, population counts, shifts and the other one-line routines.
- The console output and file handling of `msp430-elf-adabind`, and the `msp430-elf-adac` driver.
