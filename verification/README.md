# Verified model of the native lifter's core

The lifter turns machine code into LLVM IR. This project models four of its
parts over plain integers, sequences and maps and proves what each of them
promises. `dafny verify dfyconfig.toml` checks everything.

- **Recognising divisions.** Compilers replace division by a constant with a
  multiplication, shifts and corrections. `MagicDivision.dfy` models the two
  solvers that recover the divisor, in their own wrapping arithmetic, and says
  exactly when the arithmetic shape equals the division. `DivisionChains.dfy`
  models the four matchers over expression trees (`ValueTree.dfy`) and what each
  recognised tree computes; `DivisionVariants.dfy` has the arithmetic of the
  recognised shapes, including the ones that are no division; `DivisionRewrite.dfy`
  proves for every recognised tree and every input exactly when the rewrite keeps
  the value of the root, and `DivisionInstances.dfy` has a tree for each way it does
  not. `DivisionRecognition.dfy` is the other direction: every sequence that a
  compiler emits is matched and rewritten to the division that it stands for.
  `RegisterRange.dfy`, `DemandedBits.dfy`, `MaskedReads.dfy` and `DeadFlags.dfy` do
  the same for the other bit-range rewrites around it.
- **The x87 stack.** `X87Depth.dfy` is the data-flow pass that proves a static
  stack depth for every block; `X87Window.dfy` is the lowering to two window
  registers and a library stack, in the precise mode that relies on the proved
  depth and in the fallback mode. The class `X87Window` executes the emitted
  moves; its ghost field is the stack that the program means.
- **Register storage.** `RegisterUnits.dfy` merges overlapping registers into
  units; `RegisterStorage.dfy` turns accesses into bit slices of units and is
  compared with a flat file of bytes in both endiannesses.
- **Native control flow.** `NativeBlocks.dfy` and `NativeProgram.dfy` are the
  mutable program state; `NativeSplits.dfy` is block splitting in any order;
  `BlockBuilder.dfy` cuts instruction lists into blocks; `DecodeWorklist.dfy` is
  the decode loop; `Leb128.dfy` the number readers. `AbiMetadata.dfy` and
  `Decimal.dfy` are the ABI description and its text form.

`Bits.dfy`, `Bitwise.dfy` and `Wrappers.dfy` hold shared definitions: powers of
two, machine integers with explicit wrap-around, bitwise operations by
recursion on the bits, and an option type.

## Where the code does less than its comments say

Each item names the member that states it, as an if-and-only-if wherever one is
proved:

- A signed magic with rounding error zero, or with a divisor whose pattern is
  negative, is accepted and rewritten wrongly (`SignedRewriteExactly`).
- The add-correction solver does not check that `d + 1` is the power of two that
  the last shifts divide by (`AddRewriteExactly`).
- The narrow signed form uses logical shifts and is wrong for every negative
  dividend (`NarrowSignedRewriteExactly`).
- The signed matcher ignores the operand order of a subtraction
  (`SwappedSubtractionExactly`: the code for x / -10 becomes x / 10,
  `MinusTenthFails`), the amount of a second arithmetic shift
  (`SecondShiftExactly`, `TwentiethFails`), and whether a subtracted sign is 0/-1
  or 0/1 (`LogicalSignExactly`, `TenthLessSignFails`).
- Its `+ x` form accepts a magic below `-2^W` (`PlusXBelow`, `DeepMagicFails`) and a
  product of a narrower view of the dividend (`PlusXViewExactly`,
  `NarrowViewFails`).
- The add-correction matcher ignores the order of `x - h`
  (`SwappedAddOnlyNearTop`, `SwappedCorrectionFails`) and accepts a product of a
  narrower view (`OrderedAddExactly`, `NarrowCorrectionFails`).
  `RewriteExactly` puts all of these together.
- The `+ x` form of a dividend that is itself a truncation is not recognised, because
  the matcher tells its two operands apart by that (`PlusXRecognised`).
- The first demand that reaches a shared read may be too small
  (`SharedReadBreaks`), and a boundary that was reached still reads all of a
  narrowed register (`BoundaryReadBreaks`). The casts listed among the traversed operators are never
  reached there, because a cast is not a binary operator; they are boundaries.
- A masked read that needs more than 64 bits is narrowed to 64
  (`NarrowedReadMasksAlike`), and in big-endian storage the narrowed access reads
  the wrong end of the register (`NarrowReadExactly`).
- The dead-flag search does not come back to the store's own block
  (`SearchIsRightExactly`).
- The edges after splitting depend on the order of the splits when a block lists a
  cut that nothing falls through to (`OrderFreeExactly`), and a shorter block that starts inside a
  longer one drops the bytes behind it (`InsertCovers`).
- A branch back to a first instruction that the range starts before leads into the
  middle of a block (`TargetsStartBlocks`, `LoopIntoGap`).
- Two register units with the same sanitised name and width share one global
  (`SharedGlobalExactly`).
- A tenth LEB128 byte may overflow silently (`DecodedExactly`), and the signed reader
  refuses padding beyond ten bytes that the unsigned one accepts (`RefusedExactly`).
- The least number of a signed type, written with its minus sign, is not read
  (`ParseNegative`). A negative extra-pop count is lost, and attaching to a module that
  already has a record is invisible to the reader (`RoundTripExactly`).

## Model

| member | source | states |
|---|---|---|
| `MagicDivision.SolverDecides` | lib/passes/summary/NativeRegisterPeephole.cpp:346-386 | the solver, with every shift, product and comparison wrapped at K + 2W bits, answers d exactly when M is the ceiling of 2^K / d, the rounding error times 2^L is at most 2^K, and d is at least 3 and fits W bits; in particular no intermediate of the solver wraps |
| `MagicDivision.SolverFindsDivisor` | lib/passes/summary/NativeRegisterPeephole.cpp:361-385 | completeness: if any W-bit d >= 3 explains M, the single candidate is accepted, is at most d, and is d itself whenever it is below 2^L |
| `MagicDivision.UnsignedQuotient` | lib/passes/summary/NativeRegisterPeephole.cpp:327-329 | the condition the solver checks makes floor(x*M / 2^K) equal floor(x / d) for every x below 2^L |
| `MagicDivision.NegativeQuotient` | lib/passes/summary/NativeRegisterPeephole.cpp:335-341 | the same condition with a positive rounding error makes floor(x*M / 2^K) + 1 the truncating quotient for negative x |
| `MagicDivision.SignedRewriteExactly` | lib/passes/summary/NativeRegisterPeephole.cpp:335-386 | an accepted signed chain on S-bit sources equals its sdiv for every dividend if and only if SignedGuard holds: a zero rounding error needs a divisor beyond the source range, and so does a divisor whose W-bit pattern is negative; the solver checks neither |
| `MagicDivision.FullWidthSignedGuard` | lib/passes/summary/NativeRegisterPeephole.cpp:373-385 | for full-width dividends that guard says: the rounding error is not zero and d is below 2^(W-1) |
| `MagicDivision.PowerOfTwoMagicFails` | lib/passes/summary/NativeRegisterPeephole.cpp:373-385 | an accepted magic with zero error whose chain sends -4 to 0 instead of -1 |
| `MagicDivision.NegativeDivisorFails` | lib/passes/summary/NativeRegisterPeephole.cpp:370-385 | an accepted divisor that sdiv reads as negative, with a dividend on which the chain differs |
| `MagicDivision.AddSolverDecides` | lib/passes/summary/NativeRegisterPeephole.cpp:395-440 | the add-correction solver, in its own wrapping arithmetic, answers d exactly when M is the ceiling of 2^N / d and the error term stays below 2^extra for every dividend up to 2^L - 2; no intermediate wraps |
| `MagicDivision.CornersBoundStaircase` | lib/passes/summary/NativeRegisterPeephole.cpp:391-394 | the error term over all q*d + r <= X is bounded by the larger of its values at the two corners that are tested |
| `MagicDivision.CornerWitness` | lib/passes/summary/NativeRegisterPeephole.cpp:391-394 | and that larger value is reached by some dividend, so the two tests lose nothing |
| `MagicDivision.SumDecomposes` | lib/passes/summary/NativeRegisterPeephole.cpp:388-391 | x plus the high part of its product is q*(d + 1) plus the error term; the derivation in the comment needs q*2^extra instead |
| `MagicDivision.AddRewriteExactly` | lib/passes/summary/NativeRegisterPeephole.cpp:388-440 | an accepted add-correction chain equals x / d for every x below 2^L if and only if d + 1 is 2^extra or d is at least 2^L; this includes the untested dividend 2^L - 1 |
| `MagicDivision.AddCounterexample` | lib/passes/summary/NativeRegisterPeephole.cpp:395-440 | a 32-bit magic accepted as d = 5 whose chain gives 0 at x = 5 |
| `ValueTree.RoundTripKeeps` | lib/passes/summary/NativeRegisterPeephole.cpp:256-272 | looking through trunc of zext or sext keeps the value and the width |
| `ValueTree.SameLowBitsAgree` | lib/passes/summary/NativeRegisterPeephole.cpp:274-310 | two values of one width that have the same low-bits view are equal |
| `ValueTree.RoundTripsAreStripped` | lib/passes/summary/NativeRegisterPeephole.cpp:256-272 | up to four round trips on top of each other are looked through |
| `ValueTree.ViewsShareBase` | lib/passes/summary/NativeRegisterPeephole.cpp:274-310 | any two views of a value through at most six truncations, extracts at offset 0 and round trips each are recognised as showing the same low bits |
| `DivisionChains.MagicChainValue` | lib/passes/summary/NativeRegisterPeephole.cpp:556-639 | a matched unsigned chain (2W-bit product, shift, trunc, optional second shift) computes floor(x*M / 2^K) with x below 2^L |
| `DivisionChains.MagicChainIsDivision` | lib/passes/summary/NativeRegisterPeephole.cpp:556-639 | so with an accepted d it equals udiv x, d for every input |
| `DivisionChains.DividendBound` | lib/passes/summary/NativeRegisterPeephole.cpp:536-550 | the bound taken from a preceding shift bounds the dividend |
| `DivisionVariants.VariantExactly` | lib/passes/summary/NativeRegisterPeephole.cpp:652-869 | for an accepted divisor and a dividend in range, every quotient-and-sign shape the matcher lets through (a second shift s, swapped or not, sign 0/-1 or 0/1) has the pattern of the sdiv if and only if VariantRight holds: a condition on s, the two flags, and the sizes of x and of the divisor as sdiv reads it |
| `DivisionVariants.PlusXBelow` | lib/passes/summary/NativeRegisterPeephole.cpp:844-857 | with a magic j*2^W below its low W bits, j at least 2, and a sum that fits, the + x root is the quotient if and only if the dividend is below d in magnitude and its sum is rounded to 0 |
| `DivisionChains.SignedChainValue` | lib/passes/summary/NativeRegisterPeephole.cpp:652-812 | every recognised signed root over a high half computes, in W-bit arithmetic, the floor of x*M / 2^(K+s) with the sign of x added or taken away and the whole negated, as VariantOf(root) says; x is in the range that is passed to the solver |
| `DivisionChains.PlusXChainValue` | lib/passes/summary/NativeRegisterPeephole.cpp:813-868 | every recognised + x root computes the rounded shift of the W-bit sum of x and the high half of view * magic, for any negative magic and a view of any width; the view is x itself whenever x fits it |
| `DivisionChains.AddChainValue` | lib/passes/summary/NativeRegisterPeephole.cpp:877-969 | every recognised add-correction root computes ((x - h) >> 1) + h >> s, or the same with h - x, where h is the high half of the product of the low bits of x that the view shows |
| `DivisionRewrite.SignedRootExactly` | lib/passes/summary/NativeRegisterPeephole.cpp:652-869 | for every recognised signed root, solver answer and input: the sdiv has the value of the root if and only if VariantRight holds of the dividend, or, in the + x form, the sum lies where the shift rounds to the quotient |
| `DivisionRewrite.PlusXViewExactly` | lib/passes/summary/NativeRegisterPeephole.cpp:813-857 | a + x root whose view holds the dividend and whose magic takes away no visible multiple of it is right exactly where the plain form is; for magic M - 2^W that is every dividend that fits the view |
| `DivisionRewrite.SwappedSubtractionExactly` | lib/passes/summary/NativeRegisterPeephole.cpp:668-719 | a subtraction that is matched with its operands swapped is replaced by the division by d, which is right if and only if the dividend is below d in magnitude |
| `DivisionRewrite.SecondShiftExactly` | lib/passes/summary/NativeRegisterPeephole.cpp:724-766 | with an arithmetic shift of the product and a second shift of 1 or more, the replacement is right if and only if the dividend is below d in magnitude |
| `DivisionRewrite.LogicalSignExactly` | lib/passes/summary/NativeRegisterPeephole.cpp:697-711 | with the 0/1 sign of the product subtracted, the replacement is right if and only if the dividend is not negative |
| `DivisionRewrite.SubtractionOrderIsIgnored` | lib/passes/summary/NativeRegisterPeephole.cpp:668-719 | swapping the operands of any matched subtraction gives the same chain, negates the value and turns the variant around |
| `DivisionRewrite.SecondShiftIsDropped` | lib/passes/summary/NativeRegisterPeephole.cpp:758-771 | with an arithmetic shift of the product every amount of a further shift gives the same chain, and the amount is the second shift of the variant |
| `DivisionRewrite.AddRootExactly` | lib/passes/summary/NativeRegisterPeephole.cpp:877-969 | for every recognised add-correction root, solver answer and input: the udiv has the value of the root if and only if the sum before the last shift lies where that shift maps to the quotient |
| `DivisionRewrite.OrderedAddExactly` | lib/passes/summary/NativeRegisterPeephole.cpp:931-956 | for x - h and d + 1 = 2^extra that is: x / d is at most x % d plus the high half of the view product; it holds whenever x fits the view |
| `DivisionRewrite.SwappedAddOnlyNearTop` | lib/passes/summary/NativeRegisterPeephole.cpp:931-956 | for h - x and d + 1 = 2^extra the replacement is right at 0, and for other dividends only if x - h is within 2^(extra - 1) of 2^(W-1) |
| `DivisionRewrite.CorrectionOrderIsIgnored` | lib/passes/summary/NativeRegisterPeephole.cpp:931-956 | x - h and h - x are always given the same chain, and differ in AddSwapped |
| `DivisionChains.NarrowChainIsDivision` | lib/passes/summary/NativeRegisterPeephole.cpp:976-1087 | a matched unsigned narrow-product chain equals udiv for every input; its product does not wrap |
| `DivisionRewrite.NarrowSignedRewriteExactly` | lib/passes/summary/NativeRegisterPeephole.cpp:981-1017 | the narrow signed rewrite is right if and only if the dividend is not negative; under a guard on the divisor its low W - N bits are right for every dividend |
| `DivisionRewrite.RewriteExactly` | lib/passes/summary/NativeRegisterPeephole.cpp:1113-1166 | for every recognised root and every input of the program, the division that replaces the root has its value if and only if RewriteRight holds: the conditions above, and nothing for plain and narrow unsigned chains |
| `DivisionRewrite.RewritePreservesMeaning` | lib/passes/summary/NativeRegisterPeephole.cpp:1113-1166 | so under RewriteGuard, which looks at the chain alone, the replacement keeps the value of the root for all inputs |
| `DivisionRecognition.PlainRecognised` | lib/passes/summary/NativeRegisterPeephole.cpp:556-639 | for every dividend of W bits (1 to 64), magic, operand order, shift n from W to 2W and second shift s (none included) with n + s at most 2W, the plain sequence is matched as the unsigned chain of shift n + s |
| `DivisionRecognition.PlainIsRewritten` | lib/passes/summary/NativeRegisterPeephole.cpp:556-639 | so the sequence of every divisor that the magic explains is rewritten to udiv by it |
| `DivisionRecognition.PlainExactly` | lib/passes/summary/NativeRegisterPeephole.cpp:556-639 | the plain matcher takes exactly these sequences: a well-typed tree is matched if and only if it is one of them |
| `DivisionRecognition.SignedRecognised` | lib/passes/summary/NativeRegisterPeephole.cpp:652-812 | the same for the signed sequences: shift on the product or behind the truncation, sign subtracted as a mask or added as a bit, taken from the dividend, the high half or the product, all operand orders, full-width and sign-extended sources |
| `DivisionRecognition.SignedIsRewritten` | lib/passes/summary/NativeRegisterPeephole.cpp:652-812 | each of them is rewritten to sdiv by the divisor that the magic explains |
| `DivisionRecognition.PlusXRecognised` | lib/passes/summary/NativeRegisterPeephole.cpp:813-868 | the sequence that adds the dividend back is matched for every dividend if and only if that is no truncation; otherwise nothing is rewritten |
| `DivisionRecognition.PlusXIsRewritten` | lib/passes/summary/NativeRegisterPeephole.cpp:813-868 | and where it is matched it is rewritten to sdiv by the divisor that the magic explains |
| `DivisionRecognition.AddRecognised` | lib/passes/summary/NativeRegisterPeephole.cpp:877-969 | the add-correction sequence is matched for every dividend, shift and operand order |
| `DivisionRecognition.AddSolverFinds` | lib/passes/summary/NativeRegisterPeephole.cpp:395-440 | the add-correction solver finds every divisor 2^extra - 1 that the magic explains and whose next smaller multiple of the magic stays below 2^N |
| `DivisionRecognition.AddIsRewritten` | lib/passes/summary/NativeRegisterPeephole.cpp:877-969 | so the sequence of such a divisor is rewritten to udiv by it |
| `DivisionRecognition.NarrowRecognised` | lib/passes/summary/NativeRegisterPeephole.cpp:976-1087 | a product that fits W bits (W - 1 in the signed form) is matched in either operand order |
| `DivisionRecognition.NarrowIsRewritten` | lib/passes/summary/NativeRegisterPeephole.cpp:976-1087 | and rewritten to udiv or sdiv by the divisor that the magic explains |
| `DivisionRecognition.NarrowExactly` | lib/passes/summary/NativeRegisterPeephole.cpp:976-1087 | the narrow matcher takes a well-typed tree if and only if it is one of these sequences |
| `DivisionRecognition.RecognisedLimits` | lib/passes/summary/NativeRegisterPeephole.cpp:556-1087 | no root wider than 64 bits is matched, none below two bits as signed, and no chain shifts by more bits than its product has |
| `DivisionRecognition.SignedIgnoresRoundTrips` | lib/passes/summary/NativeRegisterPeephole.cpp:657-690 | width round trips around the operands of a signed root change no match |
| `DivisionRecognition.ShiftIgnoresRoundTrips` | lib/passes/summary/NativeRegisterPeephole.cpp:724-735 | nor do those around the operand of its outer shift |
| `DivisionRecognition.PlusXIgnoresRoundTrips` | lib/passes/summary/NativeRegisterPeephole.cpp:813-840 | nor those around the operands of the sum that adds the dividend back |
| `DivisionRecognition.AddIgnoresRoundTrips` | lib/passes/summary/NativeRegisterPeephole.cpp:877-945 | nor those around the operands of the shifts and the sum of an add-correction root |
| `DivisionInstances.UnsignedTenth` | lib/passes/summary/NativeRegisterPeephole.cpp:556-639 | the compiler sequence for the unsigned 32-bit x / 10, with its two shifts, is rewritten to udiv x, 10 |
| `DivisionInstances.MinusTenthFails` | lib/passes/summary/NativeRegisterPeephole.cpp:668-719 | the compiler sequence for x / -10 is replaced by x / 10, which is right exactly for -10 < x < 10 |
| `DivisionInstances.TwentiethFails` | lib/passes/summary/NativeRegisterPeephole.cpp:724-766 | (product >> 34) >> 1 plus the sign, x / 20, is replaced by x / 10, which is right exactly for -10 < x < 10 |
| `DivisionInstances.TenthLessSignFails` | lib/passes/summary/NativeRegisterPeephole.cpp:697-711 | the quotient less the product sign bit is replaced by x / 10, which is right exactly for 0 <= x |
| `DivisionInstances.DeepMagicFails` | lib/passes/summary/NativeRegisterPeephole.cpp:844-857 | a + x tree with the 32-bit magic 0x92492493 - 2^33 is replaced by x / 7, which is right exactly for -7 < x < 7 |
| `DivisionInstances.NarrowViewFails` | lib/passes/summary/NativeRegisterPeephole.cpp:849-855 | a + x tree that multiplies the low 16 bits of x is replaced by x / 7, which is right exactly for the x that fit 16 bits |
| `DivisionInstances.SwappedCorrectionFails` | lib/passes/summary/NativeRegisterPeephole.cpp:931-945 | the 32-bit correction tree for 7 with h - x is replaced by x / 7, which among the x below 2^31 is right exactly for 0 |
| `DivisionInstances.NarrowCorrectionFails` | lib/passes/summary/NativeRegisterPeephole.cpp:952-956 | the correction tree for 7 that multiplies the low 16 bits of x is replaced by x / 7, which is right exactly for the x that fit 16 bits |
| `Bitwise.ApplySplit` | lib/passes/summary/NativeRegisterFinalCleanup.cpp:142-157 | and, or and xor work separately on the bits below and above any position |
| `RegisterRange.SliceOfSplice` | lib/NativeRegisterValueRange.cpp:125-173 | reading a written range gives the value, reading a range that does not meet it gives what was there |
| `RegisterRange.SpliceTwice` | lib/NativeRegisterValueRange.cpp:151-173 | the last write to a range wins, and writing back what was read changes nothing |
| `RegisterRange.ParseAcceptsExactly` | lib/NativeRegisterValueRange.cpp:143-148 | the parsers accept exactly the ranges inside the value and those whose 64-bit end wraps |
| `RegisterRange.ExtractMeaning` | lib/passes/summary/NativeRegisterFinalCleanup.cpp:103-127 | the shift-and-truncate lowering of an extract in range is the slice |
| `RegisterRange.MaskExactly` | lib/passes/summary/NativeRegisterFinalCleanup.cpp:94-101 | the write mask has exactly the bits of the range, and is empty exactly for the ranges that are not inside the value |
| `RegisterRange.LowerInsertExactly` | lib/passes/summary/NativeRegisterFinalCleanup.cpp:94-158 | the mask-and-or lowering of a parsed insert is emitted exactly when the range lies inside the value, and then computes the slice update |
| `RegisterRange.FoundPieceIsSlice` | lib/passes/summary/NativeRegisterPeephole.cpp:161-200 | a piece found below any number of inserts is the bit slice of the whole chain |
| `RegisterRange.FoundExactly` | lib/passes/summary/NativeRegisterPeephole.cpp:161-200 | a piece is found if and only if some insert of the chain, behind inserts that do not meet the range, wrote exactly that range in a value of the full width |
| `RegisterRange.SimplifiedExtractIsTruncation` | lib/passes/summary/NativeRegisterPeephole.cpp:202-241 | so the simplified trunc, with or without a shift, keeps its value |
| `RegisterRange.SimplifiedExactly` | lib/passes/summary/NativeRegisterPeephole.cpp:202-241 | a truncation is simplified if and only if it is narrower than the chain, stays inside it and reads such a piece |
| `DemandedBits.NarrowingKeepsDemanded` | lib/passes/summary/NativeRegisterPeephole.cpp:1289-1381 | in any value graph, if every operand has at least the bits its users demand and nothing behind a boundary is narrowed, the demanded low bits of every node survive the narrowing |
| `DemandedBits.DemandIsLeast` | lib/passes/summary/NativeRegisterPeephole.cpp:1333-1370 | no operator demands more than it needs: with one bit less of an operand the low needed bits can come out wrong |
| `DemandedBits.CollectNarrowableReads` | lib/passes/summary/NativeRegisterPeephole.cpp:1291-1381 | the worklist records, for each node, the demand that reaches it first, and returns exactly the reads that are wider than it |
| `DemandedBits.SearchCollects` | lib/passes/summary/NativeRegisterPeephole.cpp:1291-1381 | every recorded demand comes from the root or from a slot of a recorded node, and every demanded operand is recorded |
| `DemandedBits.CoveredKeepsRoot` | lib/passes/summary/NativeRegisterPeephole.cpp:1291-1381 | in any graph, sharing included, if the collected demands cover it, narrowing leaves the observed low bits of the root unchanged |
| `DemandedBits.NarrowedTreeKeepsRoot` | lib/passes/summary/NativeRegisterPeephole.cpp:1291-1381 | on a tree, where the collected demands always cover the graph, narrowing any of the collected reads leaves the observed low bits of the root unchanged for all register contents |
| `DemandedBits.SharedReadBreaks` | lib/passes/summary/NativeRegisterPeephole.cpp:1308-1310 | on a shared read the first demand is not enough: a three-node graph whose observed byte changes from 1 to 0 |
| `DemandedBits.BoundaryReadBreaks` | lib/passes/summary/NativeRegisterPeephole.cpp:1371-1376 | a register plus its third, observed in its low byte: the read is narrowed although the reached division needs all of it, and the byte changes |
| `MaskedReads.NarrowedReadMasksAlike` | lib/PcodeToLLVM.cpp:548-577 | a read whose users all mask it with constants is narrowed so that every user computes the same value, if and only if the masks need no bit above bit 63 |
| `MaskedReads.NarrowedExactly` | lib/PcodeToLLVM.cpp:541-574 | a read is narrowed to n bits if and only if n is 8, 16, 32 or 64 and below its width, some mask lets a bit through, no mask needs its top bit, and n is the least of these that holds all masks, or 64 |
| `MaskedReads.WideMaskBreaks` | lib/PcodeToLLVM.cpp:574-577 | a 128-bit read masked with bit 64 is narrowed to 64 bits and changes |
| `MaskedReads.FewerBitsAreTooFew` | lib/PcodeToLLVM.cpp:570-573 | any width below the number of active mask bits changes some user |
| `MaskedReads.NarrowReadExactly` | lib/PcodeToLLVM.cpp:581-588 | the narrowed access, which keeps its offset, reads the low part of the wide value for every content if and only if the storage is little-endian |
| `DeadFlags.FlagValueIsRead` | lib/passes/summary/NativeRegisterPeephole.cpp:1521-1567 | the search answers true exactly when some walk that does not come back to the store's block brings the stored value to a load |
| `DeadFlags.SearchIsRightExactly` | lib/passes/summary/NativeRegisterPeephole.cpp:1525-1532 | a read is live if and only if the search finds it, or the store's block reads the flag before storing it and the value comes back to that block |
| `DeadFlags.SearchMissesLoopRead` | lib/passes/summary/NativeRegisterPeephole.cpp:1525-1532 | the second case exists: a one-block loop |
| `DeadFlags.ErasingIsInvisible` | lib/passes/summary/NativeRegisterPeephole.cpp:1593-1612 | when the search answers false and that case is excluded, erasing the store changes no flag read on any walk of the function from any flag value |
| `DeadFlags.ErasingLiveIsVisible` | lib/passes/summary/NativeRegisterPeephole.cpp:1593-1612 | conversely, erasing a store with a live read changes what some walk reads |
| `X87Window.StepSlots` | lib/PcodeToLLVM.cpp:2045-2110 | for every operation and slot, where the value in that slot comes from; in the arithmetic ones the top of the stack is the left operand exactly if the instruction says so |
| `X87Window.LiveExactly` | lib/PcodeToLLVM.cpp:681-730 | an operation is excluded only for an empty operand register, a push without room, a slot form that names a window register, or a library operation |
| `X87Window.FpuRunRefinesStack` | lib/PcodeToLLVM.cpp:1819-1830 | a run over eight physical registers renamed through TOP is the same run over a stack |
| `X87Window.X87Window.WindowPush` | lib/PcodeToLLVM.cpp:1832-1858 | push in both modes: the live slots hold the pushed stack, and the library holds exactly the slots below the window in the precise mode |
| `X87Window.X87Window.PopIntoST1` | lib/PcodeToLLVM.cpp:1877-1885 | the ST1 half of a pop touches the library only when a slot exists there |
| `X87Window.X87Window.WindowPop` | lib/PcodeToLLVM.cpp:1861-1873 | pop in both modes |
| `X87Window.X87Window.LowerPopSlot` | lib/PcodeToLLVM.cpp:2017-2032 | fstp st(i) is a store to slot i followed by a pop, for every live i |
| `X87Window.X87Window.LowerPopArith` | lib/PcodeToLLVM.cpp:2047-2065 | the new top is the operation applied to ST0 and ST1 in that order, or reversed if the flag is off; one slot disappears |
| `X87Window.X87Window.LowerPopArithSlot` | lib/PcodeToLLVM.cpp:2066-2079 | the same for ST0 and a deeper slot: the written value is shifted into place by the pop |
| `X87Window.X87Window.LowerCompare` | lib/PcodeToLLVM.cpp:2137-2168 | compares the two slots and pops if asked to |
| `X87Window.X87Window.LowerFxch` | lib/PcodeToLLVM.cpp:2170-2185 | exchanges the top with slot i and moves nothing else |
| `X87Window.X87Window.Lower` | lib/PcodeToLLVM.cpp:1971-2185 | one instruction group: the emitted moves are the stack operation and its observations, in both modes |
| `X87Window.X87Window.LowerBlock` | lib/PcodeToLLVM.cpp:1971-2185 | any sequence with live operands: stack and observations are those of the abstract run |
| `X87Window.LowerInBothModes` | lib/PcodeToLLVM.cpp:1819-1831 | for any operation sequence whose operands are live when they are used, and any initial garbage, both modes give the same observations and live slots, and the precise library has max(0, depth - 2) entries |
| `X87Window.BlockDepthDelta` | lib/PcodeToLLVM.cpp:2189-2228 | the loop computes the depth change of a block, or None when it meets a library operation |
| `X87Window.DeltaOfRun` | lib/PcodeToLLVM.cpp:2189-2228 | that number is the change of the stack depth over any run of the block |
| `X87Depth.MarkReachable` | lib/PcodeToLLVM.cpp:2324-2340 | marks only reachable blocks, and on success all of them are known; on failure some walk reaches an unknown block |
| `X87Depth.DetermineDepths` | lib/PcodeToLLVM.cpp:2342-2363 | terminates with a depth kept by every edge, or there is a walk with a negative exit depth or two walks that disagree |
| `X87Depth.ComputeBlockDepths` | lib/PcodeToLLVM.cpp:2236-2374 | succeeds if and only if every walk from the entry meets known blocks, never leaves a block below depth zero and agrees with every other walk; on success each recorded depth is the delta sum of every walk to that block |
| `X87Depth.FixpointFollowsPath` | lib/PcodeToLLVM.cpp:2342-2363 | a depth assignment kept by every edge is the delta sum along any walk |
| `X87Window.PathSumIsDepth` | lib/PcodeToLLVM.cpp:2342-2374 | the delta sum along a walk is the depth of the stack that the operations before its last block build |
| `X87Window.LowerAlongPath` | lib/PcodeToLLVM.cpp:416-431 | executing the code along any walk on which every operand is live when it is used, each block lowered from its recorded depth, computes the stack and observations of the original operations |
| `RegisterUnits.SortUsable` | lib/RegisterStorage.cpp:66-82 | drops the registers that have no space or no byte and sorts the rest; nothing else is lost |
| `RegisterUnits.MergeRegisters` | lib/RegisterStorage.cpp:84-100 | merging in sorted order leaves disjoint units that are the connected components of overlap, each spanning exactly its registers |
| `RegisterUnits.BuildUnits` | lib/RegisterStorage.cpp:60-100 | the same for the constructor's argument in any order |
| `RegisterUnits.ComponentsUnique` | lib/RegisterStorage.cpp:60-100 | so the units do not depend on the order of the registers |
| `RegisterUnits.UnitsOfBytes` | lib/RegisterStorage.cpp:66-101 | in bytes: a byte of a named space is in a unit if and only if some register of the argument has it, in no two units, and two adjacent bytes are in one unit if and only if one register has both |
| `RegisterStorage.FlatReadIsSlice` | lib/RegisterStorage.cpp:171-178 | reading the bytes of an access from a flat file is the bit slice at bitOffset, in either endianness |
| `RegisterStorage.FlatWriteIsSplice` | lib/RegisterStorage.cpp:240-269 | splicing at bitOffset writes those bytes of the flat file and no others |
| `RegisterStorage.Storage.constructor` | lib/RegisterStorage.cpp:60-100 | the storage starts in agreement with a flat file, for any initial register contents, and serves exactly the accesses that the registers hold |
| `RegisterStorage.Storage.UnitFor` | lib/RegisterStorage.cpp:126-134 | finds a unit exactly when one holds the whole access |
| `RegisterStorage.ServedExactly` | lib/RegisterStorage.cpp:66-134 | an access is served if and only if registers of the argument have all its bytes and join each of them to the next |
| `RegisterStorage.RegisterIsServed` | lib/RegisterStorage.cpp:66-134 | in particular every access inside one register with a space and a byte is served |
| `RegisterStorage.Storage.Read` | lib/RegisterStorage.cpp:211-238 | full and partial reads return what the flat file holds, or nothing when no unit serves the access |
| `RegisterStorage.Storage.Write` | lib/RegisterStorage.cpp:240-269 | full and partial writes change the flat file at the bytes of the access only |
| `RegisterStorage.Storage.Run` | lib/RegisterStorage.cpp:211-269 | any run of reads and writes gives the results of the flat byte file, in either endianness |
| `RegisterStorage.FlatReadAfterWrite` | lib/RegisterStorage.cpp:211-269 | the flat file itself reads back what was written, truncated to the access |
| `RegisterStorage.SharedGlobalExactly` | lib/RegisterStorage.cpp:127-161 | if two disjoint units of one size share a global, it agrees with both after a write to all of one of them if and only if the write changed nothing |
| `NativeBlocks.InsertBlock` | lib/NativeAnalysis.cpp:5861-5911 | a block with a new start cuts the block that holds it and is cut at the next start, with edges only where an instruction falls through or the edge was listed; a block with a known start merges successors or shortens the stored block |
| `NativeBlocks.InsertEdges` | lib/NativeAnalysis.cpp:5860-5916 | the edges afterwards, block by block: a stored block with the new start keeps its own edges if it is shorter, gets the new ones if it is longer and both if it ends alike; a block that is cut keeps exactly an edge to the cut that it listed or that code runs into |
| `NativeBlocks.InsertKeepsEdges` | lib/NativeAnalysis.cpp:5877-5880 | so no edge of the new block is lost unless a block starts inside it or a shorter one starts where it does |
| `NativeBlocks.InsertKeepsStarts` | lib/NativeAnalysis.cpp:5838-5916 | the set of block starts gains exactly the new start |
| `NativeBlocks.InsertKeepsApart` | lib/NativeAnalysis.cpp:5838-5916 | disjoint non-empty blocks stay disjoint and non-empty |
| `NativeBlocks.InsertCovers` | lib/NativeAnalysis.cpp:5838-5916 | no byte outside the new block is added, and bytes are lost if and only if the block in which it starts reaches past its end |
| `NativeProgram.ProgramState.AddFunction` | lib/NativeAnalysis.cpp:5723-5752 | the exact conditions for acceptance; overlapping blocks are not among them, so tidiness is kept if and only if the added blocks are disjoint |
| `NativeProgram.ProgramState.AddBasicBlock` | lib/NativeAnalysis.cpp:5838-5916 | the function afterwards, its range, the edges of all its blocks, and that nothing else changed |
| `NativeProgram.ProgramState.AddSuccessors` | lib/NativeAnalysis.cpp:5918-5955 | adds edges to one block only if all of them lead to block starts; closed functions stay closed |
| `NativeProgram.ProgramState.RemoveInvalidSuccessors` | lib/NativeAnalysis.cpp:5960-5985 | keeps exactly the edges that lead to block starts and reports whether anything changed |
| `NativeProgram.ProgramState.EnsureBlockStartsAt` | lib/NativeAnalysis.cpp:5127-5152 | succeeds exactly for addresses covered by the function; the second half has the successors of the whole block, the first half at most an edge to it; closed functions stay closed and the same bytes are covered |
| `NativeProgram.BlockAddedClosed` | lib/NativeAnalysis.cpp:5838-5916 | adding a block whose edges lead to block starts leaves no edge dangling |
| `NativeProgram.ProgramState.Run` | lib/NativeAnalysis.cpp:5723-5985 | over any sequence of mutations functions that were added with disjoint blocks have non-empty disjoint blocks inside their range, block starts never disappear and ranges never shrink |
| `NativeSplits.SplitAll` | lib/NativeAnalysis.cpp:5194-5208 | splitting disjoint blocks at any list of addresses, each with a block built from the snapshot, gives the pieces between consecutive cuts; the last piece of a block keeps its successors, another one has an edge to the next exactly if code falls through to it or its block lists it and that cut was made before every larger cut of the block |
| `NativeSplits.OrderFreeExactly` | lib/NativeAnalysis.cpp:4720-4726 | two orders of the same cuts always give the same blocks and edges if and only if every cut that its block lists as a successor, other than the last cut of the block, is fallen into from the cut or block start before it |
| `NativeSplits.SplitIsUnique` | lib/NativeAnalysis.cpp:4720-4726 | the pieces are determined by the blocks and the order of the cuts, and under that condition by the set of cuts |
| `NativeSplits.SplitInTwoOrders` | lib/NativeAnalysis.cpp:4720-4726 | so any two orders of requests that meet the condition, with or without repetitions, give the same blocks and edges |
| `NativeSplits.FallthroughSettles` | lib/NativeAnalysis.cpp:5893-5902 | where code falls through to every cut and no cut lies inside that instruction, the condition holds and every piece but the last of a block flows into the next |
| `NativeSplits.SplitCovers` | lib/NativeAnalysis.cpp:5282-5298 | splitting covers exactly the same bytes |
| `NativeSplits.OrderMattersWithoutFallthrough` | lib/NativeAnalysis.cpp:5893-5902 | a block that lists its own middle as successor ends up with different edges in two orders |
| `BlockBuilder.CollectBlockStarts` | lib/NativeAnalysis.cpp:4143-4163 | the collected addresses are the range start, the leaders after the first instruction (direct targets that are instructions, and instructions after a flow instruction), the first instruction when it is a target, and nothing else |
| `BlockBuilder.BuildDecodedBlocks` | lib/NativeAnalysis.cpp:4135-4217 | the blocks partition the instruction list in order at the leaders; their edges are those of EdgesExactly |
| `BlockBuilder.EdgesExactly` | lib/NativeAnalysis.cpp:4174-4200 | the edges of a block from its last instruction: none behind a trap or return, the targets of a branch, the contiguous fall-through of anything else, and both for a conditional branch |
| `BlockBuilder.EdgesAreFlow` | lib/NativeAnalysis.cpp:4174-4200 | every flow of control out of the last instruction to an instruction of the list is an edge, and every edge is such a flow or a target outside the list |
| `BlockBuilder.WalksFollowBlocks` | lib/NativeAnalysis.cpp:4135-4217 | every walk of control through the instructions is a walk through the blocks, inside them or along their edges |
| `BlockBuilder.BlockStartReason` | lib/NativeAnalysis.cpp:4143-4163 | a block starts only at the first instruction, behind an instruction with a flow kind, or at a direct target |
| `BlockBuilder.BlockInterior` | lib/NativeAnalysis.cpp:4135-4217 | only the last instruction of a block has a flow kind, and none but the first is a direct target |
| `BlockBuilder.GroupOf` | lib/NativeAnalysis.cpp:4135-4217 | every instruction is in exactly one block |
| `BlockBuilder.TargetsStartBlocks` | lib/NativeAnalysis.cpp:4148-4158 | on a list without overlaps an instruction that is a direct target is a block start and is never strictly inside a block, if and only if it is not the first instruction or the range starts at it |
| `BlockBuilder.LoopIntoGap` | lib/NativeAnalysis.cpp:4148-4196 | a branch back to a first instruction behind the range start: the only block starts at the range, holds the target strictly inside and has an edge to it that is no block start |
| `BlockBuilder.BlocksAreTidy` | lib/NativeAnalysis.cpp:4135-4217 | the blocks are non-empty, ordered, disjoint and inside the range, as addFunction expects |
| `BlockBuilder.BlockBytes` | lib/NativeAnalysis.cpp:4135-4217 | with contiguous instructions the bytes of a block are the bytes of its instructions inside the range, apart from the gap that may precede the first instruction |
| `BlockBuilder.ReachableStarts` | lib/NativeAnalysis.cpp:3580-3612 | terminates with exactly the instructions that control can reach from the entry by direct targets and fall-through |
| `DecodeWorklist.EnqueueSeed` | lib/NativeAnalysis.cpp:3386-3398 | queues an executable seed once |
| `DecodeWorklist.InitialSeeds` | lib/NativeAnalysis.cpp:3355-3384 | the initial seeds are the executable entries, each as its own function |
| `DecodeWorklist.AcceptedSeeds` | lib/NativeAnalysis.cpp:3150-3186 | a step adds exactly the called and tail-called functions that the runtime filter lets through and the branch targets, fall-through and table entries in the range of the function, all executable |
| `DecodeWorklist.DecodeSeeds` | lib/NativeAnalysis.cpp:3128-3187 | terminates; seeds are decoded first come, first served, each where it was first discovered, so none twice; every decoded seed was initial or accepted by an earlier report; without a limit, or before it is reached, every accepted target is decoded |
| `Leb128.ReadUleb128` | lib/NativeAnalysis.cpp:969-984 | the loop computes the payload sum modulo 2^64 up to the first byte that does not continue, and fails without one or when a byte from the eleventh on carries bits |
| `Leb128.ReadSleb128` | lib/NativeAnalysis.cpp:986-1002 | the loop computes the two's complement payload sum wrapped to 64 bits, for at most ten bytes |
| `Leb128.UnsignedRoundTrip` | lib/NativeAnalysis.cpp:969-984 | every unsigned 64-bit value is decoded from its encoding in any surrounding bytes, consuming exactly its bytes |
| `Leb128.SignedRoundTrip64` | lib/NativeAnalysis.cpp:986-1002 | the same for every signed 64-bit value, including the nine- and ten-byte cases |
| `Leb128.PaddedRoundTrip` | lib/NativeAnalysis.cpp:969-984 | so does an encoding padded to any length that holds the value |
| `Leb128.PaddedSignedRoundTrip` | lib/NativeAnalysis.cpp:986-1002 | the same up to ten bytes for the signed reader, which refuses longer ones |
| `Leb128.RefusedExactly` | lib/NativeAnalysis.cpp:969-1002 | a text is read, up to the first byte that does not continue, if and only if there is one, and bytes from the eleventh on carry no bits, or, signed, there is no eleventh byte |
| `Leb128.DecodedExactly` | lib/NativeAnalysis.cpp:969-1002 | a decoded value is the encoded number if and only if that number fits 64 bits |
| `Leb128.TenthByteOverflows` | lib/NativeAnalysis.cpp:974-978 | ten bytes that mean 2^64 decode to 0 without an error |
| `Decimal.ParsePrinted` | lib/NativeAbi.cpp:227-257 | parsing a printed number gives it back if the type holds it and the fallback otherwise |
| `Decimal.ParsePrintedHex` | lib/NativeAbi.cpp:228-260 | the same behind a hexadecimal prefix, in either case |
| `Decimal.ParseNegative` | lib/NativeAbi.cpp:228-260 | a minus sign is read for signed types only; the least number of the type becomes the fallback |
| `Decimal.DigitsExactly` | lib/NativeAbi.cpp:244-249 | the numbers are the non-empty texts of digits of the base, and nothing else |
| `Decimal.DigitsArePrinted` | lib/NativeAbi.cpp:244-249 | a text of decimal digits is a printed number behind any zeros |
| `Decimal.OtherTextFallsBack` | lib/NativeAbi.cpp:228-260 | any other character in a text without the prefix gives the fallback |
| `AbiMetadata.StorageRoundTrip` | lib/NativeAbi.cpp:363-427 | a storage record is read back unchanged |
| `AbiMetadata.ParamEntryRoundTrip` | lib/NativeAbi.cpp:374-452 | a parameter entry is read back unchanged |
| `AbiMetadata.EffectRoundTrip` | lib/NativeAbi.cpp:386-481 | an effect is read back unchanged |
| `AbiMetadata.WrittenStorage` | lib/NativeAbi.cpp:363-372 | the keys and their order in a written storage record, on two examples |
| `AbiMetadata.WrittenSpec` | lib/NativeAbi.cpp:374-394 | the same for entries, effects and the record around them |
| `AbiMetadata.FieldIsFirst` | lib/NativeAbi.cpp:396-410 | a lookup gives a value if and only if the first text with the key has it |
| `AbiMetadata.StorageIsFirst` | lib/NativeAbi.cpp:412-452 | the storage of an entry is its first operand with a known kind |
| `AbiMetadata.ReadableExactly` | lib/NativeAbi.cpp:430-481 | an entry is skipped only for want of a storage, an effect also for its name |
| `AbiMetadata.Module.Attach` | lib/NativeAbi.cpp:543-572 | appends one record with all fields and lists |
| `AbiMetadata.Module.Read` | lib/NativeAbi.cpp:574-637 | reads what the records mean, and no record but the first makes a difference |
| `AbiMetadata.UnreadableSkipped` | lib/NativeAbi.cpp:600-637 | reading a record gives what reading it without its unreadable entries would give, with exactly one entry or effect for each readable one |
| `AbiMetadata.ReadAttached` | lib/NativeAbi.cpp:543-637 | what is read after attaching: a negative extra-pop count becomes 0, an unnamed description is lost, everything else is unchanged whatever is attached later |
| `AbiMetadata.RoundTripExactly` | lib/NativeAbi.cpp:543-637 | attaching to a module with any earlier and later records and reading back gives the description if and only if there was no earlier record and it has a name and a non-negative extra-pop count, or the earlier records already read as it |
| `AbiMetadata.Module.AttachAndRead` | lib/NativeAbi.cpp:543-637 | the same of the two methods in a row on a module in any state |

## Left out

- DivisionRewrite.RewritePreservesMeaning: its guard does not look at the dividend and is sufficient only; RewriteExactly is the exact statement. Nodes are trees: two computed nodes of the same structure count as the same value, and poison from nuw or nsw flags is not modelled.
- DivisionRecognition.PlainIsRewritten: the divisor and the whole shift are at least 3, which the solver demands; powers of two and smaller divisors are not rewritten. Sequences for views and with width round trips in between are covered by ViewsShareBase and the IgnoresRoundTrips lemmas, not by one builder.
- RegisterRange.FoundPieceIsSlice: the set of seen values is not modelled; a chain of inserts in SSA form does not repeat.
- RegisterRange.ExtractMeaning: states the lowering for ranges inside the value only; LLVM gives no value to the wrapped ranges that ParseAcceptsExactly shows to be accepted.
- DemandedBits.NarrowedTreeKeepsRoot: assumes a tree; CoveredKeepsRoot is the statement for shared nodes, with the condition that the search does not establish on them.
- DeadFlags.ErasingIsInvisible: a real call leaves a value of its own in the flag; reads through partial-read helpers and invoke terminators are not instructions of the model.
- X87Window.X87Window.Lower: operands are live and a push finds room; the values are uninterpreted terms, and conversions to memory formats and the flag arithmetic of a comparison are one observation each. Library-managed instructions (lib/PcodeToLLVM.cpp:1934-1969) are only known to give a block no static depth change.
- X87Window.LowerInBothModes: assumes, like LowerAlongPath, that every operand is live when it is used.
- X87Window.LowerAlongPath: assumes that every operand on the walk is live; what the emitted code does on a program that pops an empty register stack is not modelled.
- X87Depth.ComputeBlockDepths: successor lists are given; how they are read off terminators and native facts (lib/PcodeToLLVM.cpp:2254-2312) is not modelled. Prefixes inside a block are covered by the liveness condition of LowerAlongPath, not by the analysis, which looks at block exits only.
- RegisterStorage.Storage.Run: accesses have at least one byte and do not wrap 64 bits; bit widths are unbounded, while the code multiplies byte sizes in 32 bits. Unit names and the lookup of a global by its sanitised name are left out, so two units whose names and widths coincide, which share one global in the code, have separate contents here; SharedGlobalExactly says what sharing does to a whole write.
- RegisterUnits.BuildUnits: registers end below 2^64 and a space spans less than 2^32 bytes, which the 32-bit size field needs.
- NativeSplits.SplitAll: assumes that the blocks are disjoint and not empty, as a tidy function's are.
- NativeProgram.ProgramState.AddFunction: notes, seed visibility and confidence are left out.
- BlockBuilder.BuildDecodedBlocks: instructions are ascending, non-empty and start inside the range; outside it the code drops blocks that come out empty.
- BlockBuilder.TargetsStartBlocks: assumes that decoded instructions do not overlap, as BlocksAreTidy does; the range starts at the first instruction in the only call (lib/NativeAnalysis.cpp:3507-3522), where the condition of the theorem holds.
- BlockBuilder.EdgesExactly: assumes that the listed instructions do not overlap; EdgesAreFlow and WalksFollowBlocks also that only branches have targets and that only conditional branches and plain instructions fall through, which is how the decoder leaves them (lib/NativeAnalysis.cpp:3694-3737).
- DecodeWorklist.DecodeSeeds: one local decode, the runtime filter and the range test are parameters that may depend on the step; recovered jump tables are part of a report; initial entries are a given list.
- Leb128.ReadUleb128: the shift counter is unbounded; a shift of a zero payload by 64 or more is taken as zero.
- Leb128.ReadSleb128: the negation of 2^63 that the sign extension of a nine-byte value performs wraps, as it does on the machine.
- Observed widths between two writes, dead store chains after a flag is removed, partial-read creation: bookkeeping around the rewrites that are proved.
- XML parsing of compiler specifications, opcode and mnemonic tables, the Sleigh engine, ELF and GTIRB import, LLVM passes, printers and file access: input and output or other libraries.
- Function-pointer promotion, the register summary pass and stack-address analysis: they rest on facts outside the modelled files.
