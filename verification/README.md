# Proofs about CALVIN_HOOK's bundled libraries and hooking code

This project models the algorithmic core of the repository in Dafny and proves what that code promises.

- **libbf, limbs** (`arith`, `limbs`, `mp_*`, `recip_math`, `sqrt_limb`). Arrays of limbs in base B = 2^32 or 2^64, which the proofs leave open. Linear operations, multiplication, division by a reciprocal limb, schoolbook and reciprocal-based division, the Karatsuba square root.
- **libbf, numbers** (`round_math`, `bf_*`). Rounding in all modes, the test whether an approximation can be rounded, addition, subtraction, multiplication and division with one rounding of the exact result, rounding to an integer, and the logical operations on two's complement integers.
- **libbf, radix conversion** (`radix_*`). The recursive conversions from and to digits, with their cached powers and inverses.
- **libregexp** (`regex_*`). The bytecode and its encoding, the compiler from a parsed pattern to bytes, and the backtracking engine with its state stack. `regex_results` says what a pattern means: the places where it can end, in the order in which they are tried. The engine is compared with a recursive first-match search, the search on compiled code with that meaning, every compiled pattern with the same pattern compiled without the greedy quantifier opcode, and the stack with the size reserved for it; matching is proved to end.
- **libunicode and character classes** (`char_range`, `regex_class`). Sets of code points as sorted interval lists, and the range tables that the engine searches.
- **cutils** (`sort_spec`, `heap_sort`, `partition`, `rqsort`). The iterative three-way quicksort with its heapsort fallback and its stack of 50 segments.
- **LSPlant trampoline pool** (`trampoline`, `trampoline_bound`, `trampoline_exact`). The lock-free slot allocator as a state machine over the atomic steps of any number of threads, and the exact number of threads it can serve.
- **ARM64 assembler** (`code_buffer`, `assembler`, `arm64`). The code buffer and the pool of literals that `Finalize` appends and links to earlier loads. `arm64` decodes and runs the few instructions that are emitted, after section C6.2 of the Arm Architecture Reference Manual for A-profile.

Code that updates arrays or fields is modelled by methods on arrays and classes, code that only computes by functions. Numbers are unbounded where the source cannot wrap; where it wraps (limb and double-limb arithmetic, the ends of code point intervals, the doubling of the code buffer's capacity) the wrap is written out. Bit fields and masks are written with division and remainder.

Where the code does not do what its comments or its purpose promise, the model follows the code, and a lemma gives an input and the exact condition:

- The comment on `mp_recip` gives the bound as `a*r + 2`; what holds, and what division needs, is `a*(r+2)`. `MpRecip.CommentFails` has an operand for which the comment's bound cannot be met, `MpRecip.CommentNeedsDivisor` says which operands are left.
- The comment on `bf_can_round` allows an error equal to its bound. `BfCanRound.StrictnessMatters` has a case where that is wrong, `BfCanRound.YesWithin` gives all of them.
- The comment on `count_cancelled_bits` says the difference has at least n leading zero bits. What addition needs, and what is proved, is that it has no more than n; `BfCancel.LosesAllCounted` says when the comment is right, `BfCancel.CountsMore` has a case where it is not.
- The faithful mode promises one of the two neighbouring numbers. `bf_mul` cuts long operands in that mode: `BfFaithful.UncutIsFaithful` keeps the promise, `BfFaithful.CutIsClose` bounds the error otherwise, and `BfFaithful.FaithfulMayMiss` has operands for which the result is neither neighbour.
- `PREV_CHAR` undoes `GET_CHAR`, and the greedy quantifier opcode agrees with the general loop, except from inside a surrogate pair (`RegexChars.BackUndoesNext`, `RegexSimple.SameTrials`, each with an example).
- Lazy quantifiers carry no check that their atom advances, so a match may run forever. `RegexHalts.EmptyLazyHalts` has a pattern that does on almost every subject; `RegexHalts.PatternHalts` proves that every pattern halts in which re_need_check_advance has nothing to ask of the atoms of unbounded lazy quantifiers.
- The trampoline pool lets words carry into the page address when too many threads find a page full. `TrampolineExact.SafeExactly` is the exact bound on threads and failing mmaps; `TrampolineBound.FailuresBreakThePool` is a single thread that reaches unmapped memory.
- The capacity of the code buffer is doubled in 32 bits. `CodeBuffers.CapacitySuffices` gives the sizes for which that works.
- The constant in `EmitLdrReg` has a bit of the base register set. `Assembler.LdrRegBase` gives the registers for which that does no harm; the only caller passes one of them.

## Model

| member | source | states |
|---|---|---|
| MpLinear.Add | app/src/main/cpp/quickjs/libbf.c:1041-1057 | result and carry together are the exact sum of two n-limb numbers and a carry; nothing outside the window changes, with the overlaps the callers use |
| MpLinear.AddUi | app/src/main/cpp/quickjs/libbf.c:1059-1073 | the early exit leaves the limbs above unchanged and the value is still old value plus b, with the carry out |
| MpLinear.Sub | app/src/main/cpp/quickjs/libbf.c:1075-1091 | result and borrow together are the exact difference |
| MpLinear.Neg | app/src/main/cpp/quickjs/libbf.c:1093-1109 | result plus operand plus borrow in is the borrow out times B^n, also where result and operand overlap as the loop allows |
| MpLinear.SubUi | app/src/main/cpp/quickjs/libbf.c:1111-1126 | the same as AddUi for subtraction |
| MpLinear.Shr | app/src/main/cpp/quickjs/libbf.c:1128-1144 | operand with the incoming high limb is the result times 2^shift plus the bits returned, also where they overlap as the loop allows |
| MpLinear.Mul1 | app/src/main/cpp/quickjs/libbf.c:1146-1159 | r plus the returned high limb is a times b plus l, exactly |
| MpLinear.AddMul1 | app/src/main/cpp/quickjs/libbf.c:1161-1175 | r grows by a times b, with the returned limb above it |
| MpLinear.SubMul1 | app/src/main/cpp/quickjs/libbf.c:1213-1228 | r shrinks by a times b, up to the returned limb, in wrapping double-limb arithmetic |
| MpLinear.Cmp | app/src/main/cpp/quickjs/libbf.c:1431-1444 | -1, 0 or 1 by the order of the two values |
| MpLinear.ScanNz | app/src/main/cpp/quickjs/libbf.c:379-387 | nonzero exactly when the value is |
| MpMul.Mul | app/src/main/cpp/quickjs/libbf.c:1177-1189 | the n1 + n2 limbs are the exact product, nothing else changes |
| MpUdiv.Udiv1NormInit | app/src/main/cpp/quickjs/libbf.c:1230-1237 | the reciprocal v is the one with (B + v) d just below B^2 |
| MpUdiv.EstimateLow | app/src/main/cpp/quickjs/libbf.c:1239-1259 | for a small low limb the estimated quotient leaves a remainder in [0, 2d) |
| MpUdiv.EstimateHigh | app/src/main/cpp/quickjs/libbf.c:1239-1259 | for a large low limb the adjusted estimate does the same |
| MpUdiv.Udiv1Norm | app/src/main/cpp/quickjs/libbf.c:1239-1259 | the reciprocal path in wrapping limb arithmetic is true division of two limbs by one |
| MpDivNorm.Div1Norm | app/src/main/cpp/quickjs/libbf.c:1261-1282 | value with the incoming limb is quotient times b plus the remainder, which is below b |
| MpDivNorm.EstimateNotBelow | app/src/main/cpp/quickjs/libbf.c:1327-1337 | the quotient limb estimated from the top limbs is never below the true one |
| MpDivNorm.AddBack | app/src/main/cpp/quickjs/libbf.c:1345-1357 | the add-back loop ends, with the true quotient limb and a remainder below the divisor |
| MpDivNorm.DivNormBase | app/src/main/cpp/quickjs/libbf.c:1313-1361 | schoolbook division: A = Q D + R, R < D, top quotient limb at most 1, for every normalised divisor of two or more limbs |
| RecipMath.NewtonBelow | app/src/main/cpp/quickjs/libbf.c:1363-1429 | the Newton step does not overshoot: A X < B^(2n) |
| RecipMath.NewtonAbove | app/src/main/cpp/quickjs/libbf.c:1363-1429 | the Newton step lands within two units: B^(2n) < A (X + 2) |
| RecipMath.PaddedQuotient | app/src/main/cpp/quickjs/libbf.c:1449-1518 | with a padded divisor the estimated quotient is at most three short |
| RecipMath.TruncatedQuotient | app/src/main/cpp/quickjs/libbf.c:1449-1518 | with a divisor cut to its top limbs and rounded up the same bound holds |
| MpRecip.Recip | app/src/main/cpp/quickjs/libbf.c:1363-1429 | for every normalised A: A X < B^(2n) < A (X + 2), and the top limb of X is 1 |
| MpRecip.CommentNeedsDivisor | app/src/main/cpp/quickjs/libbf.c:1363-1365 | the bound of the comment would make the result an exact divisor of B^(2n) - 1 |
| MpRecip.CommentFails | app/src/main/cpp/quickjs/libbf.c:1363-1365 | a one-limb operand for which no approximation meets the bound of the comment |
| MpRecip.DivNormLarge | app/src/main/cpp/quickjs/libbf.c:1449-1539 | subquadratic division returns the Q and R with A = Q D + R and R < D |
| MpRecip.RaiseQuotient | app/src/main/cpp/quickjs/libbf.c:1519-1527 | the correction loop ends, because each round takes one divisor off the remainder |
| MpRecip.DivNorm | app/src/main/cpp/quickjs/libbf.c:1292-1361 | the dispatcher gives A = Q D + R, R < D and a top quotient limb of at most 1 on all three paths |
| SqrtLimb.SqrtTable | app/src/main/cpp/quickjs/libbf.c:1900-1902 | every entry of the table is the floor of the square root of its byte scaled to 16 bits |
| SqrtLimb.StepExact | app/src/main/cpp/quickjs/libbf.c:1904-1947 | one Karatsuba step: s^2 + r is the radicand, and a negative r is repaired by one decrement |
| SqrtLimb.Sqrtrem1 | app/src/main/cpp/quickjs/libbf.c:1904-1947 | s = floor(sqrt(a)) and r = a - s^2 <= 2s for every limb with one of its two top bits set |
| SqrtLimb.RootUnique | app/src/main/cpp/quickjs/libbf.c:1904-1947 | root and remainder are determined by the radicand |
| MpSqrt.Sqrtrem2 | app/src/main/cpp/quickjs/libbf.c:1963-1989 | two limbs: floor of the root in one limb, remainder in one limb and the returned carry |
| MpSqrt.SubtractSquare | app/src/main/cpp/quickjs/libbf.c:2044-2053 | the square of the low half is subtracted, also when q = B^l and its square is a single limb |
| MpSqrt.SqrtremRec | app/src/main/cpp/quickjs/libbf.c:1993-2061 | for every n and every 2n-limb radicand with a large enough top limb: s = floor(sqrt(a)), r = a - s^2 <= 2s, through the qh shortcut, the wrap of s and the last correction |
| MpSqrt.Sqrtrem | app/src/main/cpp/quickjs/libbf.c:2063-2087 | the same with a working buffer of n / 2 + 1 limbs, which suffices |
| RoundMath.AddOneRounds | app/src/main/cpp/quickjs/libbf.c:410-460 | the decision of bf_get_rnd_add gives what section 4.3 of IEEE 754-2019 asks of each mode |
| RoundMath.RoundingUnique | app/src/main/cpp/quickjs/libbf.c:410-460 | each mode but the faithful one has exactly one answer |
| RoundMath.SettledIsFaithful | app/src/main/cpp/quickjs/libbf.c:410-460 | the faithful mode rounds to nearest, which is one of the two neighbours it promises |
| RoundMath.RoundingExact | app/src/main/cpp/quickjs/libbf.c:410-460 | rounding leaves a value alone exactly when it is a multiple of the unit |
| RoundMath.StickyRounds | app/src/main/cpp/quickjs/libbf.c:1010-1011 | a number cut short whose last bit collects the bits cut off rounds like the exact one |
| BfBits.GetBitIsBit | app/src/main/cpp/quickjs/libbf.c:358-365 | get_bit reads the bit of the number, also above its limbs |
| BfBits.ScanBitNz | app/src/main/cpp/quickjs/libbf.c:389-406 | true exactly when the number has a bit at or below the position |
| BfRound.RndAdd | app/src/main/cpp/quickjs/libbf.c:410-460 | one is added, and inexact reported, exactly as rounding the kept bits in the given mode requires |
| BfNumber.Number.SetOverflow | app/src/main/cpp/quickjs/libbf.c:462-492 | infinity, or the largest finite number of prec bits, by mode and sign |
| BfNumber.Number.AddUlp | app/src/main/cpp/quickjs/libbf.c:542-567 | adding one unit, where running over the top moves the exponent and halves the mantissa |
| BfNumber.Number.CutAt | app/src/main/cpp/quickjs/libbf.c:587-604 | the bits from the unit on are kept, with no zero limb at the bottom and the top bit set |
| BfNumber.Number.Round | app/src/main/cpp/quickjs/libbf.c:499-606 | overflow exactly when the rounded magnitude reaches the end of the range, zero exactly when it stays below its start without subnormal numbers, and otherwise correctly rounded and normalised, with every status bit given exactly |
| BfNumber.CarryReaches | app/src/main/cpp/quickjs/libbf.c:542-567 | adding the unit moves the exponent exactly when the rounded magnitude reaches the next power of two |
| BfNumber.SubnormalOutcome | app/src/main/cpp/quickjs/libbf.c:519-606 | with subnormal numbers, what has not overflowed is the magnitude rounded to a multiple of 2 to the power of max(e, e_min) - prec, and INEXACT and UNDERFLOW follow from that |
| BfNumber.OverflowFollowsMode | app/src/main/cpp/quickjs/libbf.c:462-492 | an overflow gives infinity exactly where the mode rounds up a magnitude three quarters of the way to the next number, or the precision is infinite |
| BfNumber.FormatRanges | app/src/main/cpp/quickjs/libbf.c:508-511 | with 8 and 11 exponent bits the range is that of the 32-bit and 64-bit formats in section 3.6 of IEEE 754-2019 |
| BfUnique.OutcomeUnique | app/src/main/cpp/quickjs/libbf.c:499-606 | this contract leaves one number and one status, in every mode |
| BfCanRound.CanRound | app/src/main/cpp/quickjs/libbf.c:644-681 | the answer is given exactly by the bits it looks at; when it is yes, every real strictly closer than 2^(EXP(a)-k) rounds to the same prec-bit number as a, also across a power of two; zero, special values and the faithful mode as documented |
| BfCanRound.BrokenIsPassing | app/src/main/cpp/quickjs/libbf.c:660-680 | those bits say exactly whether the number keeps the distance from the next tie or multiple |
| BfCanRound.ClosedBound | app/src/main/cpp/quickjs/libbf.c:644-647 | for an error that may equal the bound, the exact condition under which all such reals round alike |
| BfCanRound.YesWithin | app/src/main/cpp/quickjs/libbf.c:644-647 | after a yes that condition fails in one case of each kind of rounding, which is named |
| BfCanRound.StrictnessMatters | app/src/main/cpp/quickjs/libbf.c:644-647 | a limb, precision and bound for which the answer is yes and the claim of the comment is false |
| BfScale.CorrectScale | app/src/main/cpp/quickjs/libbf.c:499-606 | rounding does not depend on the scale a number is written in |
| BfScale.CorrectSticky | app/src/main/cpp/quickjs/libbf.c:1010-1011 | nor on bits folded into a sticky bit, two or more bits below the unit |
| BfNormalize.Clz | app/src/main/cpp/quickjs/libbf.c:95-106 | the shift that brings the top bit of a limb to the top |
| BfNormalize.Normalize | app/src/main/cpp/quickjs/libbf.c:612-637 | the value is kept while its top bit moves to the top limb, and the exponent tells where that bit is |
| BfNormalize.NormalizeAndRound | app/src/main/cpp/quickjs/libbf.c:609-642 | any mantissa, with leading zero limbs and bits, is rounded once and correctly |
| BfWindow.GetBitsIsDigit | app/src/main/cpp/quickjs/libbf.c:334-356 | get_bits at any position, also a negative one, reads a limb of the shifted number |
| BfSum.Discard | app/src/main/cpp/quickjs/libbf.c:950-998 | the loop over the limbs below the result, with its jump over the gap between the operands, gives the carry and the sticky bit of the full sum |
| BfSum.AddLimbs | app/src/main/cpp/quickjs/libbf.c:950-1011 | both loops: the kept limbs, the discarded part and the carry make up the exact sum or difference |
| BfCancel.DifferenceAtLeast | app/src/main/cpp/quickjs/libbf.c:824-832 | where the pattern of the comment ends, the difference has its top bit |
| BfCancel.LosesAllCounted | app/src/main/cpp/quickjs/libbf.c:824-832 | at least the counted bits are lost, as the comment says, if and only if the bits below the pattern borrow |
| BfCancel.CountsMore | app/src/main/cpp/quickjs/libbf.c:824-832 | operands for which two bits are counted and one is lost |
| BfCancel.CountCancelledBits | app/src/main/cpp/quickjs/libbf.c:833-883 | the loops end, and the count is at least the number of leading bits the subtraction loses |
| BfAdd.EnoughBits | app/src/main/cpp/quickjs/libbf.c:932-947 | with that many more bits and two, the limbs kept decide the rounding |
| BfAdd.AddFinite | app/src/main/cpp/quickjs/libbf.c:925-1021 | the sum or difference of two finite numbers, rounded once, for every exponent difference and every cancellation |
| BfAddition.CmpU | app/src/main/cpp/quickjs/libbf.c:753-776 | the order of the magnitudes |
| BfAddition.AddInternal | app/src/main/cpp/quickjs/libbf.c:885-1027 | special values, zeros and their signs, and otherwise the exact signed sum rounded once |
| BfUnique.SumUnique | app/src/main/cpp/quickjs/libbf.c:885-1027 | this contract leaves one result and one status |
| BfAddition.Add | app/src/main/cpp/quickjs/libbf.c:2209-2235 | the same when the result is one of the operands |
| BfMul.MulInternal | app/src/main/cpp/quickjs/libbf.c:1541-1622 | special values, and otherwise the exact product rounded once; in the faithful mode, of the operands cut to the limbs the source uses |
| BfMul.Used | app/src/main/cpp/quickjs/libbf.c:1578-1583 | an operand is left whole if and only if the mode is not the faithful one or it has at most the limbs that prec + 2 bits take |
| BfFaithful.UncutIsFaithful | app/src/main/cpp/quickjs/libbf.c:1578-1583 | in the faithful mode, operands that are left whole give one of the two neighbours of the exact product |
| BfFaithful.CutIsClose | app/src/main/cpp/quickjs/libbf.c:1578-1583 | operands that are cut give a number less than one and a half units away |
| BfFaithful.FaithfulMayMiss | app/src/main/cpp/quickjs/libbf.c:1578-1583 | operands and a precision for which every result of the method is neither neighbour |
| BfMul.Mul | app/src/main/cpp/quickjs/libbf.c:1541-1622 | the same when the result is one of the operands |
| BfMul.MulExact | app/src/main/cpp/quickjs/libbf.c:1541-1622 | with infinite precision, integers are multiplied exactly and the status is clear |
| BfDiv.QuotientCorrect | app/src/main/cpp/quickjs/libbf.c:1729-1735 | rounding the integer quotient with a bit for the remainder is rounding the rational number itself |
| BfDiv.QuotientReachesSame | app/src/main/cpp/quickjs/libbf.c:1729-1735 | it reaches the same powers of two |
| BfDiv.DivLimbs | app/src/main/cpp/quickjs/libbf.c:1706-1731 | the limbs are the quotient, with the last bit set when there is a remainder |
| BfDiv.DivInternal | app/src/main/cpp/quickjs/libbf.c:1671-1741 | special values, division by zero, and otherwise the exact quotient rounded once |
| BfUnique.QuotientUnique | app/src/main/cpp/quickjs/libbf.c:1671-1741 | this contract leaves one result and one status |
| BfDiv.Divide | app/src/main/cpp/quickjs/libbf.c:2209-2241 | the same when the result is one of the operands |
| BfExact.ExactResult | app/src/main/cpp/quickjs/libbf.c:499-606 | an integer within the exponent range comes through rounding with infinite precision unchanged, with a clear status |
| BfExact.AddExact | app/src/main/cpp/quickjs/libbf.c:885-1027 | with infinite precision, integers are added exactly |
| BfExact.SubExact | app/src/main/cpp/quickjs/libbf.c:885-1035 | the same for subtraction |
| BfExact.SetUi | app/src/main/cpp/quickjs/libbf.c:226-264 | the number holds the given 64-bit integer, in one limb or in two |
| BfExact.AddSi | app/src/main/cpp/quickjs/libbf.c:2267-2278 | an integer and a limb of either sign are added exactly |
| BfRint.Rint | app/src/main/cpp/quickjs/libbf.c:2320-2324 | what is left is the number rounded to an integer in the given mode, with INEXACT exactly when it changed; zero and special values stay |
| BfRint.TruncatedIsFloor | app/src/main/cpp/quickjs/libbf.c:2320-2324 | towards zero that is the integer part |
| BfRint.FloorSame | app/src/main/cpp/quickjs/libbf.c:2320-2324 | the integer part does not depend on how the number is written |
| BfLogic.LogicOp | app/src/main/cpp/quickjs/libbf.c:2344-2428 | every bit of the infinite two's complement result is the operation on the operands' bits, for all signs and lengths, zero and -1 |
| BfLogic.LogicUnique | app/src/main/cpp/quickjs/libbf.c:2344-2428 | there is exactly one such integer |
| BfLogic.LogicSum | app/src/main/cpp/quickjs/libbf.c:2344-2428 | the three results belong together: or plus and is the sum of the operands, and exclusive or is their difference |
| BfLogic.LimbsMeanLogic | app/src/main/cpp/quickjs/libbf.c:2384-2415 | the masked limbs up to the length chosen, which is shorter for some ands, are the whole result |
| BfLogic.IntegerDigit | app/src/main/cpp/quickjs/libbf.c:334-356 | reading an integer at a limb boundary gives its limb, wherever its own limbs start |
| BfLogic.LogicBitsAre | app/src/main/cpp/quickjs/libbf.c:2331-2342 | the limb operators act bit by bit |
| RadixDigits.PartsOnNextLevel | app/src/main/cpp/quickjs/libbf.c:2726-2727 | n is the floor of n0 / 2^level or one more on every level, so both parts are shorter and belong to the next level |
| RadixDigits.LevelInTable | app/src/main/cpp/quickjs/libbf.c:2763-2769 | a level that needs a power has an entry in the table |
| RadixDigits.DigitsUnique | app/src/main/cpp/quickjs/libbf.c:3394-3477 | a number has one row of digits of a given length, so the two conversions invert each other |
| RadixFrom.PowUi | app/src/main/cpp/quickjs/libbf.c:2280-2316 | repeated squaring gives the exact power |
| RadixFrom.NeedPower | app/src/main/cpp/quickjs/libbf.c:2729-2734 | the cached power of a level is right whoever computed it |
| RadixFrom.FromRadixRec | app/src/main/cpp/quickjs/libbf.c:2714-2751 | the number with the given digits |
| RadixFrom.FromRadix | app/src/main/cpp/quickjs/libbf.c:2753-2775 | the same from the top, where the table is large enough |
| RadixInverse.Invert | app/src/main/cpp/quickjs/libbf.c:3433-3437 | the rounded inverse is within half a unit of 1 / d, with units fine enough for the estimate |
| RadixQuotient.EstimateNear | app/src/main/cpp/quickjs/libbf.c:3439-3441 | the estimated quotient is off by less than 5/2 |
| RadixQuotient.Estimate | app/src/main/cpp/quickjs/libbf.c:3439-3441 | the rounded product, cut to an integer, is such an estimate |
| RadixQuotient.Adjust | app/src/main/cpp/quickjs/libbf.c:3449-3459 | the two loops end after at most two rounds, with the remainder in [0, d) |
| RadixQuotient.DivideByPower | app/src/main/cpp/quickjs/libbf.c:3439-3463 | Q and R are the quotient and the remainder |
| RadixTo.ToRadixRec | app/src/main/cpp/quickjs/libbf.c:3394-3477 | the digits of every number below radix^n, and nothing else in the output changes |
| RadixTo.ToRadix | app/src/main/cpp/quickjs/libbf.c:3480-3504 | the same from the top, where the table is large enough |
| RegexInstr.DecodeEncode | app/src/main/cpp/quickjs/libregexp.c:341-375 | decoding returns the instruction that was encoded, wherever it stands |
| RegexChars.BackUndoesNext | app/src/main/cpp/quickjs/libregexp.c:1848-1936 | PREV_CHAR undoes GET_CHAR if and only if the position is not inside a surrogate pair |
| RegexChars.MidPairCounterexample | app/src/main/cpp/quickjs/libregexp.c:1848-1936 | a position where it does not |
| RegexChars.NextAlwaysBoundary | app/src/main/cpp/quickjs/libregexp.c:1848-1936 | one step forward always ends at a boundary |
| RegexChars.ReadsUtf16 | app/src/main/cpp/quickjs/libregexp.c:1848-1936 | a code point above 0xffff is read from its two UTF-16 units, from either end |
| RegexRefine.SearchRuns | app/src/main/cpp/quickjs/libregexp.c:2012-2416 | every search that comes to an answer is carried out by the machine, over any state stack, which it leaves as it was |
| RegexRefine.RunsSearch | app/src/main/cpp/quickjs/libregexp.c:2012-2416 | a run that stops gives a search that comes to an answer |
| RegexRefine.MachineIsSearch | app/src/main/cpp/quickjs/libregexp.c:1974-2416 | the engine with its explicit stack halts with an answer and captures exactly when the recursive first-match search has them; lookaheads are atomic and negative ones restore the captures |
| RegexExec.Backtracker.Dispatch | app/src/main/cpp/quickjs/libregexp.c:2026-2415 | one dispatched opcode is one step of the machine |
| RegexExec.Backtracker.LocalOpcode | app/src/main/cpp/quickjs/libregexp.c:2099-2371 | the opcodes that change only registers have the effect the machine gives them |
| RegexExec.Backtracker.FindRange | app/src/main/cpp/quickjs/libregexp.c:2313-2323 | the loop over the range table is its binary search |
| RegexExec.Backtracker.ClearCaptures | app/src/main/cpp/quickjs/libregexp.c:2187-2199 | the loop unsets exactly the captures between the two operands |
| RegexExec.Backtracker.BackReference | app/src/main/cpp/quickjs/libregexp.c:2245-2288 | it goes on at q if and only if the captured characters stand again between here and q, up to case where that is ignored, and fails if and only if there is no such q |
| RegexText.ForwardText | app/src/main/cpp/quickjs/libregexp.c:2255-2270 | the forward loop ends at q if and only if the captured text stands again from here to q |
| RegexText.BackwardText | app/src/main/cpp/quickjs/libregexp.c:2271-2287 | the backward loop ends at q if and only if the captured text stands again from q to here |
| RegexText.BackReferenceMeans | app/src/main/cpp/quickjs/libregexp.c:2245-2288 | the same of the opcode in the machine, with the case where it fails |
| RegexExec.Backtracker.Quantifier | app/src/main/cpp/quickjs/libregexp.c:2372-2411 | the counting loop and the single retry state are one step of the machine |
| RegexExec.Backtracker.UnwindOne | app/src/main/cpp/quickjs/libregexp.c:2041-2097 | one turn of the unwinding loop is one step of the machine |
| RegexExec.Backtracker.Execute | app/src/main/cpp/quickjs/libregexp.c:2012-2416 | any number of turns of the engine are as many steps of the machine |
| RegexExec.Backtracker.RunToEnd | app/src/main/cpp/quickjs/libregexp.c:2012-2416 | the loop without a limit ends where the machine stops, if it stops |
| RegexExec.Backtracker.Match | app/src/main/cpp/quickjs/libregexp.c:2421-2457 | on a compiled pattern the engine ends, without aborting, with the first of the results that the pattern means, and its captures |
| RegexEmit.SimpleAdvances | app/src/main/cpp/quickjs/libregexp.c:892-987 | an atom that the simple quantifier takes needs no zero-advance check |
| RegexEmit.NeedCheckMeans | app/src/main/cpp/quickjs/libregexp.c:892-946 | no check is needed exactly when the atom takes a character and has nothing that branches |
| RegexSimple.RepeatIsCount | app/src/main/cpp/quickjs/libregexp.c:2386-2398 | the counting loop repeats the atom as often as it matches, up to max |
| RegexSimple.BackOverAtom | app/src/main/cpp/quickjs/libregexp.c:2061-2083 | stepping back as many characters as the atom has returns to its start if and only if that is a boundary |
| RegexSimple.CountLeavesRoom | app/src/main/cpp/quickjs/libregexp.c:2386-2398 | the counting loop leaves at least as many characters before its end as all retries step back |
| RegexSimple.CountRetraces | app/src/main/cpp/quickjs/libregexp.c:2061-2083 | the retries walk back through the positions that the counting loop passed |
| RegexSimple.SameTrials | app/src/main/cpp/quickjs/libregexp.c:948-987 | the opcode tries the positions of the general loop in the same order if and only if it starts at a boundary, must repeat, or does not match at all |
| RegexSimple.MidPairDiffers | app/src/main/cpp/quickjs/libregexp.c:2061-2083 | in the remaining case the positions differ |
| RegexSimple.MidPairExample | app/src/main/cpp/quickjs/libregexp.c:2061-2083 | a concrete such case |
| RegexGreedy.OpcodeMeaning | app/src/main/cpp/quickjs/libregexp.c:2372-2411 | the opcode takes the first continuation that matches, over its trial positions |
| RegexGreedy.SplitStep | app/src/main/cpp/quickjs/libregexp.c:2116-2134 | a split takes the second branch exactly when the first does not match |
| RegexLoops.GeneralMeaning | app/src/main/cpp/quickjs/libregexp.c:1512-1616 | each form of the general loop takes the first continuation that matches, over the positions of the repetitions, most first if greedy and fewest first if lazy |
| RegexLoops.RewritePreservesMeaning | app/src/main/cpp/quickjs/libregexp.c:1487-1511 | at one place, the opcode and the general loop have the same answers, outside the case above, if what follows has the same answers from the positions they can try |
| RegexLoops.RepeatedTrials | app/src/main/cpp/quickjs/libregexp.c:1512-1616 | what a quantifier over a simple atom means are those positions in that order |
| RegexLoops.OpcodeTrialsAre | app/src/main/cpp/quickjs/libregexp.c:2061-2083 | the positions of the opcode are the same, except that from inside a surrogate pair it gives up one unit too far back |
| RegexPieces.TestIsHolds | app/src/main/cpp/quickjs/libregexp.c:2151-2168 | ^, $, \b and \B hold by the characters to the left and to the right |
| RegexRepeat.QuantifiedStands | app/src/main/cpp/quickjs/libregexp.c:1512-1616 | every form of the general quantifier goes on at the first result of the repetition from which the rest matches, with the captures that it resets and the repetitions that it refuses |
| RegexRepeat.LookStands | app/src/main/cpp/quickjs/libregexp.c:2135-2146 | a lookaround goes on where it started, with the captures of the first result of its body, or if negated exactly when there is none |
| RegexTerms.QuantifierOrder | app/src/main/cpp/quickjs/libregexp.c:1475-1616 | compiled code of a quantifier over a simple atom, for every min and max, goes on at the first of the positions of the repetitions from which the rest matches, in their order if greedy and in reverse if lazy |
| RegexTerms.TermStands | app/src/main/cpp/quickjs/libregexp.c:1136-1624 | the code of a term goes on at the first of its results from which the rest matches |
| RegexTerms.AlternativeStands | app/src/main/cpp/quickjs/libregexp.c:1628-1660 | the same for an alternative, whose terms follow each other from the first to the last, or from the last to the first inside lookbehinds |
| RegexTerms.DisjunctionStands | app/src/main/cpp/quickjs/libregexp.c:1662-1694 | the same for a disjunction, whose alternatives are tried in order |
| RegexOpcode.TermAgrees | app/src/main/cpp/quickjs/libregexp.c:1487-1511 | from a character boundary a term has the same results with the opcode and without |
| RegexHalts.PatternMeans | app/src/main/cpp/quickjs/libregexp.c:1745-2457 | the search on a compiled pattern comes to the first result of the pattern over all starts, and to nothing else |
| RegexHalts.TriesEveryStart | app/src/main/cpp/quickjs/libregexp.c:1775-1784 | for every pattern: the one that is not sticky answers what the sticky one answers from the first start from which that does not fail, and fails if and only if it fails from all of them |
| RegexHalts.StartsStep | app/src/main/cpp/quickjs/libregexp.c:1775-1784 | each start is one character behind the one before |
| RegexHalts.PatternHalts | app/src/main/cpp/quickjs/libregexp.c:2012-2457 | search and engine come to that answer on every subject, from every position, for every pattern whose unbounded lazy quantifiers have atoms that need no zero-advance check |
| RegexHalts.OpcodePreservesMeaning | app/src/main/cpp/quickjs/libregexp.c:1487-1511 | for those patterns, compiling with the opcode or with general loops throughout gives the same answers from every character boundary |
| RegexHalts.EmptyLazyLoop | app/src/main/cpp/quickjs/libregexp.c:1512-1616 | a lazy loop over nothing goes on as what follows it, except that it never comes to fail |
| RegexHalts.EmptyLazyHalts | app/src/main/cpp/quickjs/libregexp.c:1512-1616 | matching (?:)*?b halts if and only if b comes at once |
| RegexBlocks.QuantifiedBlock | app/src/main/cpp/quickjs/libregexp.c:1475-1616 | every form of quantifier keeps jumps inside the block, on instruction starts, with matching stack depths |
| RegexBlocks.ChoiceBlock | app/src/main/cpp/quickjs/libregexp.c:1662-1694 | two alternatives make such a block |
| RegexCompile.PatternBlock | app/src/main/cpp/quickjs/libregexp.c:1775-1797 | every compiled pattern is such a block and a final match |
| RegexSafety.AssembledCode | app/src/main/cpp/quickjs/libregexp.c:341-375 | assembled instructions are what the engine decodes, whatever stands around them |
| RegexSafety.ComputeStackSize | app/src/main/cpp/quickjs/libregexp.c:1696-1739 | the largest linear depth, or -1 exactly when some depth is over the limit |
| RegexSafety.StepSafe | app/src/main/cpp/quickjs/libregexp.c:2012-2416 | one step of the machine keeps a state safe |
| RegexSafety.RetrySafe | app/src/main/cpp/quickjs/libregexp.c:2061-2083 | one retry of a quantifier stays inside the subject and leaves room for the rest |
| RegexSafety.CompiledIsSafe | app/src/main/cpp/quickjs/libregexp.c:2012-2457 | in every state that a compiled pattern reaches, on any subject and from any start, the engine has not aborted, stands at an instruction with at most the reserved stack cells, and has room to step back for every retry |
| RegexEmitter.IsSimpleQuantifier | app/src/main/cpp/quickjs/libregexp.c:948-987 | the loop over the bytes finds the length of the atom, or that it is not simple |
| RegexEmitter.NeedsCheck | app/src/main/cpp/quickjs/libregexp.c:892-946 | the loop over the bytes decides whether the atom may match without advancing |
| RegexEmitter.Emitter.Emit | app/src/main/cpp/quickjs/libregexp.c:341-375 | one instruction is added behind the ones already there |
| RegexEmitter.Emitter.Insert | app/src/main/cpp/quickjs/libregexp.c:113-121 | one instruction is put in front of a block |
| RegexEmitter.Emitter.CopySelf | app/src/main/cpp/quickjs/libregexp.c:1588-1612 | a block copied from the buffer into itself is the same instructions |
| RegexEmitter.Emitter.Reverse | app/src/main/cpp/quickjs/libregexp.c:1645-1657 | the last term moves in front of the ones before it |
| RegexEmitter.Emitter.Quantify | app/src/main/cpp/quickjs/libregexp.c:1475-1616 | the bytes are those of the quantifier on the atom's instructions, whose meaning QuantifiedStands and QuantifierOrder give |
| RegexEmitter.Emitter.EmitTerm | app/src/main/cpp/quickjs/libregexp.c:1136-1624 | the bytes of a term follow; it fails exactly on too many captures |
| RegexEmitter.Emitter.EmitAlternative | app/src/main/cpp/quickjs/libregexp.c:1628-1660 | the same for an alternative, in both directions |
| RegexEmitter.Emitter.EmitDisjunction | app/src/main/cpp/quickjs/libregexp.c:1662-1694 | the same for a disjunction |
| RegexEmitter.Compile | app/src/main/cpp/quickjs/libregexp.c:1745-1833 | the bytes are the pattern's instructions, whose meaning PatternMeans and TriesEveryStart give, and the stack size bounds every depth; it fails exactly on too many captures or too deep counters |
| RegexClass.SearchFinds | app/src/main/cpp/quickjs/libregexp.c:2289-2365 | the binary search finds a code point exactly when a range of the table holds it |
| RegexClass.AcceptsMeans | app/src/main/cpp/quickjs/libregexp.c:2099-2365 | what each single-character opcode accepts: one character up to case, all but the line terminators, all, or the ranges of a table whose last bound 0xffff stands for infinity |
| RegexClass.SearchTable | app/src/main/cpp/quickjs/libregexp.c:2289-2365 | the loops compute that search, and no index goes below zero |
| RegexClass.TableHas | app/src/main/cpp/quickjs/libregexp.c:768-804 | with 0xffff read as infinity, the table holds what its intervals hold |
| RegexClass.EmitRange | app/src/main/cpp/quickjs/libregexp.c:768-804 | the emitted instruction accepts a code point exactly when it is in the set; none is emitted exactly for 65535 intervals or more |
| HeapSort.RootIsMax | app/src/main/cpp/quickjs/cutils.c:470-502 | the root of a heap is its greatest element |
| HeapSort.SiftDown | app/src/main/cpp/quickjs/cutils.c:480-499 | the window becomes a heap from the sifted position on, rearranged |
| HeapSort.HeapSortWindow | app/src/main/cpp/quickjs/cutils.c:470-502 | sorted and a rearrangement of the same window, for every total preorder |
| Partition.Med3 | app/src/main/cpp/quickjs/cutils.c:504-509 | the position of the middle one of three values |
| Partition.Scan | app/src/main/cpp/quickjs/cutils.c:547-573 | smaller elements, unscanned, greater, and the pivot's equals at both ends, until everything is scanned |
| Partition.PartitionWindow | app/src/main/cpp/quickjs/cutils.c:542-605 | smaller, equal, greater, as a rearrangement |
| Rqsort.InsertionSort | app/src/main/cpp/quickjs/cutils.c:623-627 | sorted and a rearrangement |
| Rqsort.PushDepth | app/src/main/cpp/quickjs/cutils.c:606-621 | stacked depths strictly increase, so a push at depth d finds fewer than d segments on the stack and keeps that |
| Rqsort.SortSegment | app/src/main/cpp/quickjs/cutils.c:529-628 | one segment from the stack: everything outside pending segments stays in order, and at most 50 are pending |
| Rqsort.RqSort | app/src/main/cpp/quickjs/cutils.c:512-629 | a sorted permutation for every length and every total preorder; the loops end and the stack of 50 suffices |
| CharRange.Ranges.Compress | app/src/main/cpp/quickjs/libunicode.c:428-456 | the same set, in canonical form |
| CharRange.Ranges.Operate | app/src/main/cpp/quickjs/libunicode.c:458-509 | the canonical list of exactly the union, intersection or symmetric difference |
| CharRange.Ranges.Union1 | app/src/main/cpp/quickjs/libunicode.c:510-520 | the union with the old set |
| CharRange.Ranges.UnionInterval | app/src/main/cpp/quickjs/libunicode.h:92-98 | the union with the closed interval, in canonical form; nothing is added when its end plus one wraps |
| CharRange.Ranges.Invert | app/src/main/cpp/quickjs/libunicode.c:522-534 | the complement below UINT32_MAX, in canonical form |
| CharRange.Ranges.SortAndRemoveOverlap | app/src/main/cpp/quickjs/libunicode.c:1350-1384 | the same code points are covered, by intervals in order that do not touch; canonical when none was empty |
| CharRange.CanonicalUnique | app/src/main/cpp/quickjs/libunicode.c:428-534 | a set has only one canonical list |
| CharRange.InvertTwice | app/src/main/cpp/quickjs/libunicode.c:522-534 | inverting twice gives back a canonical list |
| CharRange.MemberIsCovered | app/src/main/cpp/quickjs/libunicode.c:428-534 | membership in a canonical list is lying in one of its intervals |
| CharRange.MergeOverlaps | app/src/main/cpp/quickjs/libunicode.c:1356-1383 | sorted intervals are merged in place without changing what they cover |
| Trampoline.StepKeepsInv | app/src/main/cpp/lsplant/lsplant.cc:509-536 | every atomic step of every thread keeps the invariant, as long as a fetched word has not carried into the page address |
| Trampoline.NoCarryNoOverlap | app/src/main/cpp/lsplant/lsplant.cc:482-547 | in every interleaving without such a word, slots handed out lie in mapped pages and never overlap |
| TrampolineBound.FewThreadsAreSafe | app/src/main/cpp/lsplant/lsplant.cc:482-547 | with n threads and at most f failing mmaps between two stores, no fetched word has carried in any interleaving if the counter has n (f + 2) - 1 more values than a page has slots |
| TrampolineExact.SafeExactly | app/src/main/cpp/lsplant/lsplant.cc:482-547 | every such run is safe if and only if it has that many: below there is an interleaving that hands out an unmapped slot, or one slot twice |
| TrampolineExact.WhileStored | app/src/main/cpp/lsplant/lsplant.cc:509-536 | the worst interleaving: each other thread uses up one word while the lock is held, and every thread one after each release |
| TrampolineBound.FailuresBreakThePool | app/src/main/cpp/lsplant/lsplant.cc:518-526 | after one page size of failing calls, the next call returns a slot in a page that was never mapped |
| CodeBuffers.ReadDouble | app/src/main/cpp/hook_sdk/src/assembler.cpp:55-59 | what was emitted as eight bytes is read back |
| CodeBuffers.CodeBuffer.EnsureCapacity | app/src/main/cpp/hook_sdk/src/assembler.cpp:41-47 | up to 2^31 bytes, doubling ends with enough room, without wrapping, and keeps what was emitted |
| CodeBuffers.CapacitySuffices | app/src/main/cpp/hook_sdk/src/assembler.cpp:41-47 | in 32 bits the doubling ends with enough room if and only if at most 2^31 bytes are asked for |
| CodeBuffers.CodeBuffer.EmitBytes | app/src/main/cpp/hook_sdk/src/assembler.cpp:61-65 | the bytes are appended |
| CodeBuffers.CodeBuffer.EmitU32 | app/src/main/cpp/hook_sdk/src/assembler.cpp:49-53 | the word is appended, little endian |
| CodeBuffers.CodeBuffer.EmitU64 | app/src/main/cpp/hook_sdk/src/assembler.cpp:55-59 | the double word is appended, little endian |
| Assembler.PatchReaches | app/src/main/cpp/hook_sdk/src/arm64_constants.h:150-159 | a patched load decodes to the distance it was given if and only if that is below 1 MiB; its other bits stay |
| Assembler.LdrRegBase | app/src/main/cpp/hook_sdk/src/assembler.cpp:98-103 | the load that EmitLdrReg builds has the given base register if and only if that is one of the upper sixteen |
| Assembler.StepDone | app/src/main/cpp/hook_sdk/src/assembler.cpp:161-172 | placing one more label resolves it and keeps the earlier ones resolved |
| Assembler.Assembler.EmitLdrX17Branch | app/src/main/cpp/hook_sdk/src/assembler.cpp:182-186 | two words are added that the processor decodes as a load from a literal and a branch to the register loaded, and the label of the load |
| Assembler.Assembler.EmitLdrLRBranch | app/src/main/cpp/hook_sdk/src/assembler.cpp:188-198 | three words that it decodes as a load from a literal, a copy of that register and a call of the copy, and the label of the load |
| Assembler.Assembler.PlaceDataLabel | app/src/main/cpp/hook_sdk/src/assembler.cpp:143-149 | the label is remembered |
| Assembler.Assembler.Finalize | app/src/main/cpp/hook_sdk/src/assembler.cpp:151-175 | every value stands in its own slot at a multiple of 8, every labelled load reads its slot exactly when that is in reach, every other byte and every other bit of the loads is unchanged |
| Assembler.BranchGoesToTarget | app/src/main/cpp/hook_sdk/src/assembler.cpp:151-186 | after Finalize, two steps of the processor from the sequence end at the value of its label and change no other register |
| Assembler.CallGoesToTarget | app/src/main/cpp/hook_sdk/src/assembler.cpp:151-198 | after Finalize, three steps end there with the return address in x30 |

## Left out

- Transcendental functions, constants and the loops that retry with more precision in libbf, `bf_sqrt`, `bf_divrem` and the decimal numbers (`bfdec`).
- The number-theoretic transform behind large products; every product is computed by the schoolbook loop, whose result the source takes to be the same.
- Failing allocations and the error returns that follow from them. Buffers are as large as the code asks for.
- Text: the parsers of patterns and of number strings, group names, and the formatting of digits. Patterns start as syntax trees, numbers as limbs. The 7-byte header in front of compiled code is a record here.
- Case folding: `lre_canonicalize` is a parameter of the engine, whatever its tables hold.
- ECMAScript conformance. The meaning of patterns is that of this engine, which clears the captures of an atom once and not on each repetition.
- The relocator, the registry, symbol resolution, JNI and the other emitters of the assembler.
- Memory order of the trampoline's atomics, which are taken in one total order, and the 64-bit wrap of the pool word. mmap returns pages that were not in use.
- BfNumber.Number.Round: needs a positive precision, or precision counted after the radix point with the exponent below its maximum; the source has no meaning for other calls.
- BfAddition.AddInternal: does not cover precision counted after the radix point, which libbf.h allows only for `bf_round`.
- BfAddition.Add: the same.
- BfMul.MulInternal: does not cover precision counted after the radix point; in the faithful mode the promise is about the operands as the source cuts them.
- BfMul.Mul: the same.
- BfDiv.DivInternal: does not cover precision counted after the radix point.
- BfDiv.Divide: the same.
- BfLogic.LogicOp: operands are integers with some room below the largest exponent, as the source assumes by calling additions that must not overflow.
- RadixFrom.FromRadix: the number of digits leaves room below the largest exponent; the limb radix is given, since `get_limb_radix` is a table. The table of powers holds copies of numbers.
- RadixTo.ToRadix: the same; neighbouring entries for a power and its inverse are one entry.
- RegexExec.Backtracker.Match: positions are indices of code units, and stack cells are unbounded integers.
- RegexHalts.PatternHalts: patterns with an unbounded lazy quantifier over an atom that re_need_check_advance would have checked are left out; some of them halt on some subjects, as EmptyLazyHalts shows.
- RegexHalts.OpcodePreservesMeaning: the same.
- RegexHalts.PatternMeans: the same. The capture count is at least that of the pattern, as the header of compiled code has it.
- RegexTerms.TermStands: the same; so are AlternativeStands, DisjunctionStands and RegexOpcode.TermAgrees.
- RegexEmitter.Compile: for patterns whose code stays below 0x7fff0000 bytes, so that relative jumps fit 32 bits.
- CharRange.Ranges.UnionInterval: the two ends are in order after one is added to the upper one in 32 bits, since `cr_op` takes sorted lists.
- CodeBuffers.CodeBuffer.EnsureCapacity: sizes up to 2^31; CapacitySuffices says what happens above.
- Assembler.Assembler.Finalize: offsets of labels are those of emitted words, as `EmitLdrX17Placeholder` returns them.
