# Verified model of the NEMU arithmetic and memory core

A Dafny model of six parts of the NEMU x86 emulator and of the programs that run on it:

- the software binary32 FPU (addition, subtraction, multiplication, division),
- the L1 data cache over flat memory,
- the integer ALU's carry and overflow flags, carry chains and condition codes,
- the debugger's expression evaluator,
- two pools of linked nodes: the debugger's breakpoints and the typing game's letters,
- the kernel's page tables and interrupt gates.

Code that changes state step by step is modelled by methods with loops over arrays, nodes and
registers; each method is proved against a function or predicate, and the main results are
lemmas about those.

## Files

| files | part |
|---|---|
| `Arithmetic`, `Rounding`, `Binary32` | machine words, rounding and jamming of quotients, the binary32 format |
| `Normalize`, `FpuSpec`, `FpuAdd`, `FpuMul`, `FpuDiv`, `FpuDivAccuracy` | the FPU |
| `Alu`, `AluChains` | flags, multi-word arithmetic, conditions |
| `FlatMemory`, `Cache`, `CacheWrites`, `CacheMachine`, `CacheRuns`, `CacheDuplicates`, `CacheSpoiled` | memory and cache |
| `ExprSyntax`, `ExprGrammar`, `ExprPipeline`, `ExprBalance`, `ExprEval`, `ExprEnds`, `ExprMachine`, `ExprDivision`, `ExprLiterals` | the expression evaluator |
| `Chains`, `Breakpoints`, `BreakpointPool` | linked lists of numbered nodes; breakpoints |
| `TypingGame`, `TypingRuns`, `TypingPool`, `TypingMachine` | the typing game |
| `PageTables`, `PageSetup` | page tables |
| `Interrupts`, `InterruptMachine` | interrupt gates |

## How the results are stated

**FPU.** Every finite binary32 number is an integer multiple of 2^-149, so a sum is an integer
number of these units, and a product or a quotient is a fraction num/den of them.
`Binary32.CorrectlyRounded` says declaratively, over the encodings, that a magnitude is the
roundTiesToEven result of sections 4.3.1 and 7.4 of IEEE 754-2008; `FpuSpec` says for every pair
of 32-bit operands what each operation has to return. The proofs go through a closed form
(`Rounding.Pack`) and the fact that rounding does not see a jammed (sticky) bit below the half
position.

Some operands are multiplied or divided wrongly by the code. The method contracts give the exact
condition for a right result, and say what comes out otherwise:

- a result just below 2^-126 that rounds up to 2^-126 is stored as zero, because the carry loop
  after rounding starts only above the hidden bit (`nemu/src/cpu/fpu.c:101`); example
  `UnderflowExample`;
- the exponent 0 convention of `nemu/src/cpu/fpu.c:76-79` misreads some products with a subnormal
  operand: twice the exact product is rounded; example `MisscaledExample`;
- the 64-bit quotient drops its remainder, so a quotient just above a tie is rounded like a tie, to
  the magnitude just below the right one; example `LostTieExample`.

Addition and subtraction conform on all operands, except that an infinite first operand together
with a NaN second operand outside the two recognised encodings gives infinity.

**Cache.** `Coherent` says that every valid line equals its block of memory. Reads keep it at any
alignment. For a write across a line boundary the code moves its source pointer by one line at
every matching way (`nemu/src/memory/cache.c:127,139`), so a set that holds the first line twice
gets wrong data; and if the first line is not held, the second one is not refreshed at all
(`nemu/src/memory/cache.c:118-119`). `StraddledWriteCoherentIff` gives the exact condition.

A set comes to hold a line twice through reads alone: the scan of a straddling read lets the last
way with the tag field decide (`nemu/src/memory/cache.c:25-28,73-74`), also one that is not valid.
`ReadDuplicatesIff` is the exact condition for one read. Because lines that are not valid keep the
tag 0 they start with, it can happen only to lines below 8 KB: `HighLinesStayUnique` says this of
every run, and `HighWriteSafeIff` what remains of the condition for writes there. Below 8 KB,
`SpoiledRun` reaches a wrong read in four accesses from the start.

**ALU.** After `adc` and `sbb` the overflow flag is computed from src + 1 and is inverted exactly
when CF = 1 and src = 0x7fffffff; the signed order after a chain is stated with this case.

**Expressions.** `ExprGrammar` is the usual reading of a text, on its own: sums of products of
operands, associating to the left, with a meaning over the integers. Every text of this grammar of
at most 32 tokens evaluates to its meaning modulo 2^32. `ExprLiterals` spells this out for texts of
literals, and says what the evaluator makes of some texts outside the grammar. In between, trees of
literals, sums, differences, products, negation and dereference, with
redundant parentheses anywhere, are printed in the syntax that the classifier recognises. The
evaluator adds for `/` (`nemu/src/monitor/expr.c:215-216`); the model follows the code, and
`ExprDivision` says for which operands the sum is the quotient after all. `eval` need not end on
malformed input: the recursion comes back to element 0 whenever it meets two or more operands
without an operator between them. `Ends` is the exact condition; `Settles` says it without the
recursion. The specification of `eval` has a bound on the depth, and one level more than there are
elements is enough whenever any bound is.

**Lists.** The nodes are heap objects. A ghost field holds the lists they represent, and `Valid`
says that the links form exactly these lists. The lists are the states of a state machine, and what
every run keeps is proved there. In the typing game a letter carries the tick of its birth, which
the program does not store; it bounds the age of a letter and so the number of live letters. Keys
go down at any time: while the main loop waits, and before each tick that it catches up with. Within
a tick a press commutes with everything but the release of the new letter's key, so it belongs
before this tick or before the next.

**Kernel.** `Translate` is the emulator's own two-level walk. `Raise` and `Return` are the effects
of `raise_intr` and `iret` on memory and registers.

## Model

| member | source | states |
|---|---|---|
| Rounding.RoundNearestEvenMeaning | nemu/src/cpu/fpu.c:81-100 | the rounded quotient is within half of num/den, and even on a tie (roundTiesToEven) |
| Rounding.RoundNearestEvenUnique | nemu/src/cpu/fpu.c:81-100 | it is the only such integer |
| Rounding.RoundJam | nemu/src/cpu/fpu.c:18-30 | rounding gives the same result before and after jamming whenever the jammed bit lies below the half position |
| Rounding.JamStep | nemu/src/cpu/fpu.c:187-193 | one more sticky shift of a jammed number is one jamming shift by a place more, so k iterations are one jamming shift by k |
| Rounding.PackTruncated | nemu/src/cpu/fpu.c:334-343 | rounding a truncated quotient differs from rounding the true one exactly on a lost tie |
| Binary32.PackCorrectlyRounded | nemu/src/cpu/fpu.c:81-125 | the closed form of rounding meets the declarative definition for every exact value |
| Binary32.CorrectlyRoundedUnique | nemu/src/cpu/fpu.c:81-125 | for each exact value there is only one correctly rounded magnitude |
| Binary32.PackOverflow | nemu/src/cpu/fpu.c:106-110 | infinity is reached exactly from the overflow bound on |
| Binary32.RepresentableIsExact | nemu/src/cpu/fpu.c:81-125 | a representable value is its own rounding |
| Normalize.OrBitIsJam | nemu/src/cpu/fpu.c:26-28 | one turn of a sticky loop is a jamming shift by one bit |
| Normalize.ShiftRightLoop | nemu/src/cpu/fpu.c:16-30 | the right-shift loop ends, in position or at an exponent that decides the result, and what it holds rounds like the original |
| Normalize.ShiftLeftLoop | nemu/src/cpu/fpu.c:58-66 | the left-shift loop ends in position and loses nothing |
| Normalize.Position | nemu/src/cpu/fpu.c:12-79 | all branches before the rounding bring the number into a position from which rounding gives the specified magnitude |
| Normalize.RoundGuardBits | nemu/src/cpu/fpu.c:81-100 | the three guard bits are rounded away to nearest even |
| Normalize.AdjustAfterRounding | nemu/src/cpu/fpu.c:101-118 | the carry out of the rounding is moved into the exponent, with overflow to infinity |
| Normalize.InternalNormalize | nemu/src/cpu/fpu.c:10-126 | sign kept; magnitude is the stored form of the exact value of (exp, sig) |
| Normalize.StoredCorrectIff | nemu/src/cpu/fpu.c:101-125 | the stored magnitude is the correctly rounded one if and only if the value does not lie in the interval that rounds up to 2^-126 |
| Normalize.StoredMeaning | nemu/src/cpu/fpu.c:101-125 | in that interval zero is stored |
| FpuAdd.FindCornerCase | nemu/src/cpu/fpu.c:145-150 | the first matching row of a table of special operands, if there is one |
| FpuAdd.AlignmentShift | nemu/src/cpu/fpu.c:187-193 | the alignment loop is one jamming shift |
| FpuAdd.AlignedSumIsJammed | nemu/src/cpu/fpu.c:187-203 | adding aligned, jammed significands gives the exact sum, jammed |
| FpuAdd.SumIsRounded | nemu/src/cpu/fpu.c:143-208 | what normalising the aligned sum stores is the exact sum correctly rounded |
| FpuAdd.AddNonzero | nemu/src/cpu/fpu.c:155-208 | the sum of two finite numbers other than zero, correctly rounded, an exact zero being +0 |
| FpuAdd.InternalFloatAdd | nemu/src/cpu/fpu.c:143-208 | conforms to IEEE 754 if and only if the operands are not an infinity and an unrecognised NaN, which give the infinity; which NaN comes out of which operands |
| FpuAdd.InternalFloatSub | nemu/src/cpu/fpu.c:222-235 | the same for the difference |
| FpuAdd.ZeroSums | nemu/src/cpu/fpu.c:128-141 | sums and differences of signed zeros |
| FpuAdd.AddedToItself | nemu/src/cpu/fpu.c:143-208 | a normal number below 2^127 plus itself is the encoding with the next exponent |
| FpuAdd.SelfDifference | nemu/src/cpu/fpu.c:222-235 | x - x is +0 for every finite x |
| FpuAdd.SmallSumsAreExact | nemu/src/cpu/fpu.c:143-235 | sums and differences of up to 2^24 units, hence all subnormal ones, are exact |
| FpuAdd.AdditionCommutes | nemu/src/cpu/fpu.c:143-208 | conforming results of a + b and b + a agree |
| FpuMul.InternalFloatMul | nemu/src/cpu/fpu.c:249-289 | conforms to IEEE 754 if and only if the operands are supported; on all finite operands other than zero the sign is that of the product, and the magnitude zero just below 2^-126, twice the product rounded if it is misread, the product rounded otherwise; the result on all special operands |
| FpuMul.ProductCorrectIff | nemu/src/cpu/fpu.c:262-288 | for finite operands other than zero: exactly when the product is rounded correctly |
| FpuMul.ProductMeaning | nemu/src/cpu/fpu.c:262-288 | for finite operands other than zero: which exact value is rounded, or that zero is stored |
| FpuMul.NormalProductSupported | nemu/src/cpu/fpu.c:249-289 | two normal numbers whose exact product is at least 2^-126 are always supported |
| FpuMul.DoubledIsWrong | nemu/src/cpu/fpu.c:76-79 | reading (0, sig) as (1, sig) never gives the right result for a sig from 2^23 to 2^27 |
| FpuMul.UnderflowExample | nemu/src/cpu/fpu.c:101-125 | (1 - 2^-24) * 2^-126 is not supported, and a result of 0 does not conform |
| FpuMul.MisscaledExample | nemu/src/cpu/fpu.c:76-79 | 2^-149 * 2^19, with a subnormal operand, is not supported |
| FpuDiv.ShiftUp | nemu/src/cpu/fpu.c:335-335 | the loop ends with bit 63 set, after the leading shift of the significand |
| FpuDiv.ShiftDown | nemu/src/cpu/fpu.c:336-336 | the loop ends with an odd divisor, after as many shifts as it has trailing zeros |
| FpuDiv.QuotientRatio | nemu/src/cpu/fpu.c:334-343 | the shifted significands at the result exponent stand for the exact quotient |
| FpuDiv.QuotientCorrectIff | nemu/src/cpu/fpu.c:325-343 | for finite operands other than zero: exactly when the quotient is rounded correctly |
| FpuDiv.QuotientMeaning | nemu/src/cpu/fpu.c:325-343 | for finite operands other than zero: how far the stored quotient is from the correctly rounded one |
| FpuDiv.InternalFloatDiv | nemu/src/cpu/fpu.c:306-344 | conforms to IEEE 754 if and only if the operands are supported; on all finite operands other than zero the sign is that of the quotient, and the magnitude one below the rounded quotient on a lost tie, zero just below 2^-126, the quotient rounded otherwise; the result on all special operands |
| FpuDivAccuracy.RepresentableQuotientIsExact | nemu/src/cpu/fpu.c:306-344 | whenever a / b is representable it is returned exactly |
| FpuDivAccuracy.QuotientWithinBound | nemu/src/cpu/fpu.c:306-344 | a finite quotient outside the interval just below 2^-126 is within 1/2 + 2^-16 units in the last place |
| FpuDivAccuracy.LostTieExample | nemu/src/cpu/fpu.c:334-343 | 0x3fca2d5f / 0x3f9083dd is not supported: the dropped remainder would decide the tie |
| Alu.ParityFlag | nemu/src/cpu/alu.c:33-41 | the shifting loop computes the parity of the low byte |
| Alu.OnesCounted | nemu/src/cpu/alu.c:33-41 | the number of one bits is the size of the set of their positions |
| Alu.SignedMeaning | nemu/src/cpu/alu.c:47-49 | the two's complement value is the only one in the signed range that the word stands for |
| Alu.SumDescribed | nemu/src/cpu/alu.c:75-104 | after add and adc ZF = 1 exactly for a result of 0, SF = 1 exactly for a negative one, PF = 1 exactly for an even number of one bits in its low byte |
| Alu.DifferenceDescribed | nemu/src/cpu/alu.c:107-137 | the same after sub and sbb |
| Alu.Cpu.SetCFAdc | nemu/src/cpu/alu.c:7-16 | CF is the carry of dest + src + CF |
| Alu.Cpu.SetCFSbb | nemu/src/cpu/alu.c:22-31 | CF is the borrow of dest - src - CF |
| Alu.Cpu.AluAdd | nemu/src/cpu/alu.c:75-87 | the sum modulo 2^32; CF and OF in terms of the exact sum, ZF, SF and PF of the result |
| Alu.Cpu.AluAdc | nemu/src/cpu/alu.c:89-104 | the sum with carry modulo 2^32; CF exact, OF exact unless CF = 1 and src = 0x7fffffff, ZF, SF and PF of the result |
| Alu.Cpu.AluSub | nemu/src/cpu/alu.c:107-119 | the difference modulo 2^32; CF and OF in terms of the exact operands and difference, ZF, SF and PF of the result |
| Alu.Cpu.AluSbb | nemu/src/cpu/alu.c:121-137 | the difference with borrow modulo 2^32; CF exact, OF exact unless CF = 1 and src = 0x7fffffff, ZF, SF and PF of the result |
| Alu.OverflowOfAddMeaning | nemu/src/cpu/alu.c:51-61 | the sign rule for OF is true exactly when the signed sum does not fit |
| Alu.OverflowOfSubMeaning | nemu/src/cpu/alu.c:63-73 | the sign rule for OF is true exactly when the signed difference does not fit |
| Alu.OverflowOfAdcMeaning | nemu/src/cpu/alu.c:89-104 | OF after adc tells whether the signed sum with carry fits, inverted exactly when CF = 1 and src = 0x7fffffff |
| Alu.OverflowOfSbbMeaning | nemu/src/cpu/alu.c:121-137 | the same after sbb |
| AluChains.ConditionsDecide | nemu/include/cpu/instr_helper.h:160-209 | after one sub the conditions e, a, ae, b, be, g, ge, l and le decide their comparisons |
| AluChains.SumConditions | nemu/include/cpu/instr_helper.h:160-170 | after add and adc condition e holds if and only if dest + src + carry is 0 modulo 2^32, and b if and only if it is at least 2^32 |
| AluChains.AddLimbs | nemu/src/cpu/alu.c:75-104 | add and then adc over n words is the n-word sum modulo 2^(32n), and CF the true carry |
| AluChains.SubLimbs | nemu/src/cpu/alu.c:107-137 | sub and then sbb over n words is the n-word difference modulo 2^(32n), and CF the true borrow |
| AluChains.UnsignedOrder | nemu/include/cpu/instr_helper.h:169-170 | after a chain of any length condition b holds if and only if A < B unsigned |
| AluChains.SignedOrder | nemu/include/cpu/instr_helper.h:202-203 | after a chain condition l decides A < B signed, inverted exactly for a top word 0x7fffffff with borrow |
| AluChains.OverflowFlagExample | nemu/src/cpu/alu.c:96-97 | 0 + 0x7fffffff + 1 overflows and OF says it does not |
| FlatMemory.BytesRoundTrip | nemu/src/memory/memory.c:11-19 | reading the bytes written gives the lowest bytes of the value |
| FlatMemory.StoredMeaning | nemu/src/memory/memory.c:17-19 | a write is read back, and other bytes are as before |
| FlatMemory.LowestByteFirst | nemu/src/memory/memory.c:11-19 | the four bytes of a word, the lowest at the lowest address |
| FlatMemory.HwMemRead | nemu/src/memory/memory.c:11-15 | the little-endian number of the bytes read |
| FlatMemory.HwMemWrite | nemu/src/memory/memory.c:17-19 | memory with these bytes replaced |
| Cache.AddressFields | nemu/src/memory/cache.c:16-18 | an address is its tag times 8192 plus its set times 64 plus its place in the line; the tag is 0 exactly below 8 KB |
| Cache.FillCoherent | nemu/src/memory/cache.c:82-101 | filling a line keeps the cache coherent |
| Cache.ReadEffectCoherent | nemu/src/memory/cache.c:15-105 | reads of any alignment keep coherence and touch only the sets they address |
| Cache.NextLineSet | nemu/src/memory/cache.c:34-55 | the nested read of a straddling read is in another set than the one scanned, also from set 127 to set 0 |
| Cache.HitReadsMemory | nemu/src/memory/cache.c:28-33 | a hit in a coherent cache returns what memory holds |
| CacheWrites.WriteInLineCoherent | nemu/src/memory/cache.c:107-125 | a write inside one line keeps coherence; all duplicates are refreshed |
| CacheWrites.StraddledWriteCoherentIff | nemu/src/memory/cache.c:107-153 | a straddling write keeps coherence if and only if each match received the block it should hold and the second line is not left stale |
| CacheWrites.SafeWhenSingle | nemu/src/memory/cache.c:107-153 | enough for that: the first line is held once, or neither line is held |
| CacheWrites.UnsafeWhenDuplicated | nemu/src/memory/cache.c:117-152 | a first line held twice is spoiled as soon as the two blocks differ |
| CacheWrites.RefreshedKeepsTags | nemu/src/memory/cache.c:117-150 | a write changes no valid bit and no tag, so what was held stays held |
| CacheMachine.Machine.InitCache | nemu/src/memory/cache.c:9-13 | every line invalid and otherwise as before, so the cache is coherent with any memory |
| CacheMachine.Machine.FillLine | nemu/src/memory/cache.c:82-101 | the victim way gets the line, the other ways stay |
| CacheMachine.Machine.CacheRead | nemu/src/memory/cache.c:15-105 | on a coherent cache the value that flat memory returns, inside a line the value of the first holder whatever the cache holds; nested calls are never deeper than one level; memory unchanged and the cache as specified |
| CacheMachine.Machine.CacheWrite | nemu/src/memory/cache.c:107-153 | memory with the bytes written, and the cache as specified, from the loops over both sets |
| CacheRuns.Run | nemu/src/memory/memory.c:21-47 | over every safe run the reads return what flat memory returns, and memory ends as flat memory does |
| CacheRuns.RunFromInit | nemu/src/memory/cache.c:9-153 | the same for every run from init_cache of reads at any alignment and writes inside a line |
| CacheRuns.SafeStepCoherent | nemu/src/memory/cache.c:15-153 | a safe access keeps the cache coherent |
| CacheRuns.CoherentStepIsSafe | nemu/src/memory/cache.c:107-153 | coherence is lost at exactly the writes that are not safe |
| CacheDuplicates.MissChangesOneWay | nemu/src/memory/cache.c:82-101 | a miss changes one way, of the addressed set: the first that is not valid, or way 0 of a full set; it then holds the line of memory |
| CacheDuplicates.RepeatedReadChangesNothing | nemu/src/memory/cache.c:25-33 | after a read inside a line the line is resident and the same read changes nothing |
| CacheDuplicates.ReadDuplicatesIff | nemu/src/memory/cache.c:25-101 | a read makes a set hold a line twice if and only if it straddles, its first line is held, and the last way with the tag field is not valid |
| CacheDuplicates.RunsStayUnique | nemu/src/memory/cache.c:15-153 | over runs of any alignment without such a read no set holds a line twice |
| CacheDuplicates.InLineRunsStayUnique | nemu/src/memory/cache.c:15-153 | in particular over runs inside lines |
| CacheDuplicates.HighLinesStayUnique | nemu/src/memory/cache.c:9-153 | over every run from the cache at the start, at any alignment, only lines below 8 KB are ever held twice |
| CacheDuplicates.HighWriteSafeIff | nemu/src/memory/cache.c:107-153 | above 8 KB a straddling write keeps coherence if and only if its first line is held, or its second is not, or the second line's bytes stay |
| CacheDuplicates.UniqueMatchesOnce | nemu/src/memory/cache.c:117-119 | without duplicates a straddling write matches its first line at most once |
| CacheSpoiled.DuplicatesFromStart | nemu/src/memory/cache.c:9-105 | from the start a byte read and a straddling read in one line below 8 KB leave exactly this line held twice, in a coherent cache |
| CacheSpoiled.SpoiledFromStart | nemu/src/memory/cache.c:9-153 | a straddling write in that line then breaks coherence as soon as its two lines differ |
| CacheSpoiled.SpoiledReadFromStart | nemu/src/memory/cache.c:117-152 | and reads in the second line return the bytes that lie 64 further on |
| CacheSpoiled.SpoiledRun | nemu/src/memory/cache.c:15-153 | these four accesses on the machine: memory is as flat memory, the last read returns the byte 64 further on |
| CacheSpoiled.StaleSecondLine | nemu/src/memory/cache.c:117-134 | a straddling write whose first line is not held changes no line; reads in a held second line return memory as it was before, and coherence is kept exactly if the write leaves these bytes |
| CacheSpoiled.StaleFromStart | nemu/src/memory/cache.c:9-134 | one byte read from the start is enough for that |
| ExprPipeline.PassesCombine | nemu/src/monitor/expr.c:327-355 | classification, priorities and removal of parentheses, one after the other, are one pass with a depth and the element before |
| ExprPipeline.PrintedTree | nemu/src/monitor/expr.c:327-355 | on the text of a tree the passes leave exactly its operators and operands, lifted by their depth |
| ExprGrammar.SumPrinted | nemu/src/monitor/expr.c:285-340 | every text of the grammar is the printed form of its tree, so sums, products, unary operators and parentheses are recognised as usual |
| ExprGrammar.SumValue | nemu/src/monitor/expr.c:211-254 | the value of that tree is the meaning of the text over the integers, reduced modulo 2^32 |
| ExprBalance.AcceptsIffBalanced | nemu/src/monitor/expr.c:149-163 | check_parentheses accepts exactly the balanced lists |
| ExprBalance.PriorityOfDepth | nemu/src/monitor/expr.c:165-176 | check_priority adds three times the nesting depth to every operator and changes nothing else |
| ExprEval.SplitIs | nemu/src/monitor/expr.c:201-208 | the scan finds the rightmost operator of lowest priority |
| ExprEval.EvalMonotone | nemu/src/monitor/expr.c:193-254 | a finished evaluation does not depend on how deep the recursion was allowed to go |
| ExprEval.EvalElements | nemu/src/monitor/expr.c:193-254 | eval on the elements of a printed tree, anywhere in the array, gives the value of the tree |
| ExprEval.NestingBound | nemu/src/monitor/expr.c:200-208 | 32 tokens nest at most 15 deep, so no priority exceeds the initial bound of 100 |
| ExprEnds.EvalEndsIff | nemu/src/monitor/expr.c:193-254 | eval on the whole list ends if and only if element 0 is an operand or the recursion meets no range of several operands without an operator; if any depth suffices, one level more than there are elements does |
| ExprEnds.StuckNeverEnds | nemu/src/monitor/expr.c:193-210 | if it meets one, no depth of the recursion is enough |
| ExprEnds.EndsInTime | nemu/src/monitor/expr.c:193-254 | otherwise one level more than the elements of the range is enough |
| ExprEnds.EvalEndsIffNotExposed | nemu/src/monitor/expr.c:193-254 | the same without recursion: element 0 is an operand, or every two adjacent operands lie left of a unary operator of lowest priority that drops them |
| ExprEnds.BinaryEndsIff | nemu/src/monitor/expr.c:193-222 | without unary operators eval ends if and only if element 0 is an operand or no two operands are adjacent |
| ExprEnds.MissingOperandDiverges | nemu/src/monitor/expr.c:193-210 | an instance: an operator and then two operands |
| ExprMachine.Evaluator.ReadTokens | nemu/src/monitor/expr.c:262-323 | one element per token |
| ExprMachine.Evaluator.Reclassify | nemu/src/monitor/expr.c:327-340 | the array holds the classified elements |
| ExprMachine.Evaluator.CheckParentheses | nemu/src/monitor/expr.c:149-163 | true if and only if the array is balanced |
| ExprMachine.Evaluator.CheckPriority | nemu/src/monitor/expr.c:165-176 | the array holds the lifted elements |
| ExprMachine.Evaluator.DeleteAt | nemu/src/monitor/expr.c:181-186 | one element less, the others in order |
| ExprMachine.Evaluator.RemoveParentheses | nemu/src/monitor/expr.c:178-191 | ends, leaving exactly the elements that are not parentheses, in order |
| ExprMachine.Evaluator.FindSplit | nemu/src/monitor/expr.c:201-208 | the operator to split at |
| ExprMachine.Evaluator.UnaryChain | nemu/src/monitor/expr.c:223-230 | the unary operators to the left, applied from the right |
| ExprMachine.Evaluator.EvalRange | nemu/src/monitor/expr.c:193-254 | ends with the value of the evaluation on every range on which eval ends at all |
| ExprMachine.Evaluator.Evaluate | nemu/src/monitor/expr.c:256-364 | 0xffffffff for unbalanced text; for balanced text on which eval ends its value, which is the usual meaning modulo 2^32 for every text of the grammar of at most 32 tokens, and the value of the tree for every printed tree |
| ExprMachine.FinishesIff | nemu/src/monitor/expr.c:193-364 | the evaluation of any text of at most 32 tokens ends if and only if its elements settle, and its value then needs one level more than there are elements |
| ExprMachine.PrintedTreeEvaluates | nemu/src/monitor/expr.c:327-364 | the evaluation of the text of a tree ends with its value |
| ExprMachine.PrintedTreeValue | nemu/src/monitor/expr.c:327-364 | however deep the recursion may go, a finished evaluation of the text gives this value |
| ExprMachine.GrammarOutcome | nemu/src/monitor/expr.c:285-364 | the evaluation of every text of the grammar of at most 32 tokens ends with its usual meaning modulo 2^32 |
| ExprMachine.Evaluator.ApplyBinary | nemu/src/monitor/expr.c:209-216 | sum, difference, product modulo 2^32, and the sum for the division sign |
| ExprLiterals.OneOperand | nemu/src/monitor/expr.c:196-254 | "x", "*x" and "-x" for all literals |
| ExprLiterals.TwoOperands | nemu/src/monitor/expr.c:209-214 | "x + y", "x - y" and "x * y" for all literals |
| ExprLiterals.ProductsBindTighter | nemu/src/monitor/expr.c:285-296 | "x + y * z", "x * y + z" and "x - y * z" for all literals |
| ExprLiterals.SumsAssociateLeft | nemu/src/monitor/expr.c:201-212 | "x - y - z" and "x - y + z" for all literals |
| ExprLiterals.UnaryBindsTightest | nemu/src/monitor/expr.c:327-340 | "-x * y", "-x + y", "*x + y" and "x * *y" for all literals |
| ExprLiterals.ParenthesesComeFirst | nemu/src/monitor/expr.c:165-191 | "x * (y + z)", "x - (y - z)" and "x * (-y)" for all literals |
| ExprLiterals.StackedUnaries | nemu/src/monitor/expr.c:218-248 | "(-)(*x)" and "(*)(-x)": two unary operators of one priority side by side are applied from the right |
| ExprLiterals.NothingToApply | nemu/src/monitor/expr.c:193-198 | no text, a lone operator, and two operands without an operator |
| ExprLiterals.MissingRight | nemu/src/monitor/expr.c:193-197 | "x -" is x + 1: the missing operand counts as -1 |
| ExprLiterals.TwoInFront | nemu/src/monitor/expr.c:327-340 | "--x" is 7 - x and "**x" is 8 * x: the second sign is read as binary |
| ExprDivision.SlashAdds | nemu/src/monitor/expr.c:215-216 | for all literals the text "x / y" evaluates to x + y modulo 2^32, which is x / y if and only if SumIsQuotient holds |
| ExprDivision.SumIsQuotientIff | nemu/src/monitor/expr.c:215-216 | the operands whose sum modulo 2^32 is their quotient, given by the quotient and remainder of 2^32 - 1 by y - 1 |
| ExprDivision.UsualValue | nemu/src/monitor/expr.c:211-254 | with +, -, * and unsigned / of C: every tree without a division has its usual value, and every other one whose sums are the quotients |
| Chains.BypassedChains | nemu/src/monitor/breakpoint.c:101-104 | bypassing a node of one chain and putting it in front of another leaves two chains, with the node moved |
| Chains.BackCut | game/include/adt/linklist.h:77-82 | the backward links after a node is unlinked |
| Breakpoints.StepKeepsSlots | nemu/src/monitor/breakpoint.c:29-118 | no command loses or doubles a slot |
| Breakpoints.EveryRun | nemu/src/monitor/breakpoint.c:16-118 | after every sequence of commands both lists are free of repetitions, disjoint and cover the 32 slots, and only a 33rd entry can fail |
| Breakpoints.DeleteUndoesSet | nemu/src/monitor/breakpoint.c:47-106 | deleting what was just set restores both lists in order |
| Breakpoints.DeleteFrees | nemu/src/monitor/breakpoint.c:94-106 | a deleted number is inactive, a second delete changes nothing, and the next set reuses it |
| Breakpoints.FindSeesNewest | nemu/src/monitor/breakpoint.c:138-148 | the newest breakpoint at an address is found, others are unaffected |
| Breakpoints.DeleteOneByOne | nemu/src/monitor/breakpoint.c:108-118 | deleting one by one frees the same slots as delete-all, in the opposite order |
| BreakpointPool.Pool.InitBpList | nemu/src/monitor/breakpoint.c:16-27 | the nodes hold the initial lists |
| BreakpointPool.Pool.SetEntry | nemu/src/monitor/breakpoint.c:47-92 | the assertion of new_BP fails if and only if 32 entries are active, and then nothing changed; otherwise the nodes hold the lists after the set, the number returned is the new one, and the in_use assertion holds |
| BreakpointPool.Pool.DeleteBreakpoint | nemu/src/monitor/breakpoint.c:94-106 | true if and only if the number is active, and the nodes hold the lists without it |
| BreakpointPool.Pool.DeleteAllRecursively | nemu/src/monitor/breakpoint.c:108-113 | the chain from a node on is freed from its end, and joins the free list in its order |
| BreakpointPool.Pool.DeleteAllBreakpoints | nemu/src/monitor/breakpoint.c:115-118 | the nodes hold an empty active list and all slots free |
| BreakpointPool.Pool.FindBreakpoint | nemu/src/monitor/breakpoint.c:138-148 | the newest breakpoint at the address or null; every node passed is in use |
| TypingGame.AnswerOne | game/src/typing/effect.c:68-91 | answering the lowest candidate leaves the same work for the remaining calls |
| TypingGame.AnswerNone | game/src/typing/effect.c:68-91 | without a candidate nothing changes |
| TypingGame.PressIsAnswered | game/src/typing/effect.c:68-91 | a key that goes down turns back the falling letter of it with the greatest x, and no other, and is released |
| TypingGame.NewFlyMeaning | game/src/typing/effect.c:42-45 | a new letter is at the top, in one of 38 columns from 8 to 304, falling, with one of 26 texts |
| TypingGame.NewLetterUnanswered | game/src/typing/effect.c:46-46 | a press before its birth does not answer a new letter; other keys stay as they are |
| TypingRuns.EveryRun | game/src/typing/game.c:36-91 | in every run of key presses and frames, keys also going down during the frames: live and free slots are the whole pool, hit + miss + live is the number (now + 32) / 33 of ticks at which a letter was due, at most 14 letters are live, all of them on the screen |
| TypingRuns.FewLive | game/include/adt/linklist.h:56-56 | at least 987 nodes are free, so the assertion of fly_new holds |
| TypingRuns.TickKeeps | game/src/typing/game.c:60-84 | one tick keeps the invariant, and a birth finds two free nodes |
| TypingRuns.KeptAndGone | game/src/typing/effect.c:50-65 | each letter is either kept or gone |
| TypingRuns.AgeBound | game/src/typing/effect.c:50-65 | no letter is live for more than 448 ticks |
| TypingRuns.MissedInTime | game/src/typing/effect.c:54-60 | an unanswered letter is missed with its 385th move and not before |
| TypingRuns.AnsweredIsHit | game/src/typing/effect.c:54-60 | an answered letter leaves at the top |
| TypingRuns.HitsAreAnswers | game/src/typing/effect.c:56-58 | the hits counted are exactly the answered letters that left |
| TypingRuns.CountersCount | game/src/typing/effect.c:54-60 | in each tick the answered letters that left are added to the hits and the others to the misses |
| TypingPool.RepresentsCreate | game/include/adt/linklist.h:56-76 | linking a free node in front gives the doubly linked list with the new letter |
| TypingPool.RepresentsRemove | game/include/adt/linklist.h:77-86 | unlinking and freeing a node gives the doubly linked list without the letter |
| TypingMachine.Machine.FlyNew | game/include/adt/linklist.h:46-61 | the first free node, its links cleared; no live letter is linked anew, also when the pool is first linked |
| TypingMachine.Machine.FlyInsert | game/include/adt/linklist.h:70-76 | the links of the node and of its neighbours |
| TypingMachine.Machine.FlyRemove | game/include/adt/linklist.h:77-82 | the links of the neighbours bypass the node |
| TypingMachine.Machine.FlyFree | game/include/adt/linklist.h:83-86 | the node in front of the free list |
| TypingMachine.Machine.CreateNewLetter | game/src/typing/effect.c:32-47 | the nodes hold the game with a new letter in front, its key released |
| TypingMachine.Machine.UpdateLetterPos | game/src/typing/effect.c:50-65 | the nodes hold the game with every letter moved and those that left counted and freed, while iterating |
| TypingMachine.Machine.FindTarget | game/src/typing/effect.c:70-82 | the lowest falling letter whose key is pressed, the first among equals, or null if there is none |
| TypingMachine.Machine.UpdateKeypress | game/src/typing/effect.c:68-91 | this letter turns back and its key is released; false if there is none |
| TypingMachine.Machine.AnswerKeys | game/src/typing/game.c:54-55 | the loop ends, and for every pressed key exactly the lowest falling letter of it turned back |
| TypingMachine.Machine.Iterate | game/src/typing/game.c:42-84 | one round of the main loop is one frame of the state machine and keeps its invariant |
| PageTables.EntryMeaning | kernel/include/memory.h:23-24 | an entry made for a frame is present, names the frame, and is the address of the frame plus 7 |
| PageTables.EntryBits | kernel/include/memory.h:23-24 | such an entry has the bits present, writable and user, and none of bits 3 to 11 |
| PageTables.KernelMappedWords | kernel/src/memory/kvm.c:19-37 | every word of the kernel directory and tables in numbers |
| PageTables.UserMappedWords | kernel/src/memory/vmem.c:12-38 | every word of the user directory and table in numbers |
| PageTables.WalkNamed | nemu/src/memory/mmu/page.c:6-21 | a walk through the filled tables shifts the address by the place of its directory entry |
| PageTables.KernelWalk | kernel/src/memory/kvm.c:19-37 | the kernel walk maps memory to itself, the window at KOFFSET to memory, and nothing else |
| PageTables.SharedWindow | kernel/src/memory/mm.c:29-31 | with shared directory entries the user walk equals the kernel walk on the window, whatever the tables hold |
| PageTables.UserWalk | kernel/src/memory/vmem.c:12-38 | the user walk is the identity on the first 4 MB, the kernel's on the window, and fails elsewhere |
| PageSetup.Kernel.constructor | kernel/src/memory/kvm.c:6-7 | the tables at any four places that do not overlap, in memory that holds anything: the layout that the setup needs |
| PageSetup.Kernel.InitPage | kernel/src/memory/kvm.c:13-48 | the nested loops establish the kernel mapping, with every entry in numbers, write only the directory and the tables, and turn paging on |
| PageSetup.Kernel.InitMM | kernel/src/memory/mm.c:23-34 | the user directory has the kernel's window and nothing else; the kernel mapping is untouched |
| PageSetup.Kernel.CreateVideoMapping | kernel/src/memory/vmem.c:12-38 | the complete user mapping, with every entry in numbers, and the kernel mapping untouched |
| PageSetup.KernelMappedFrame | kernel/src/memory/mm.c:26-31 | writes outside the kernel's tables keep its mapping |
| Interrupts.PackRoundTrip | nemu/include/cpu/intr.h:7-20 | unpacking the two words of a gate gives its fields |
| Interrupts.UnpackPack | nemu/include/cpu/intr.h:7-20 | packing the fields of two words gives the words |
| Interrupts.GateInMemory | kernel/src/irq/idt.c:11-32 | the two words in memory of a gate to a handler: present, segment 8, type and privilege level |
| Interrupts.StoreGate | kernel/src/irq/idt.c:11-32 | storing a gate changes this entry of the table and no other |
| Interrupts.InstalledWords | kernel/src/irq/idt.c:56-82 | all 512 words of the table: 0x8f00 gates to the exceptions and to irq_empty, 0x8e00 for 32, 33 and 46, 0xef00 for 0x80 |
| Interrupts.Dispatch | nemu/src/cpu/intr.c:6-55 | with the table of init_idt vector n enters exactly its handler, IF is cleared exactly for 32, 33 and 46, and the table stays |
| Interrupts.RaiseMeaning | nemu/src/cpu/intr.c:6-55 | EFLAGS, CS and EIP on the stack in this order, CS and EIP from the words of the gate, bit 9 of EFLAGS cleared exactly for type 0xe |
| Interrupts.ReturnRestores | nemu/src/cpu/instr/ret.c:37-62 | an iret after raise_intr restores EIP, CS, EFLAGS and ESP, whatever the handler did in between, if esp and the three pushed words are as raise_intr left them |
| Interrupts.ReturnAtOnce | nemu/src/cpu/instr/ret.c:37-62 | an iret at once changes nothing but the three words below the stack pointer |
| Interrupts.PushKeepsTable | nemu/src/cpu/intr.c:16-38 | pushing on a stack apart from the table leaves the table as it is |
| InterruptMachine.Machine.SetIntr | kernel/src/irq/idt.c:11-20 | the entry becomes a present interrupt gate to the offset, in its two words 0x8e00 + 0x2000 dpl; nothing else changes |
| InterruptMachine.Machine.SetTrap | kernel/src/irq/idt.c:23-32 | the entry becomes a present trap gate to the offset, in its two words 0x8f00 + 0x2000 dpl; nothing else changes |
| InterruptMachine.Machine.InitIdt | kernel/src/irq/idt.c:56-87 | all 256 entries word by word, nothing else written, the table register and IF set |
| InterruptMachine.Machine.RaiseIntr | nemu/src/cpu/intr.c:6-55 | the state after the pushes, the gate lookup in memory as it is then, and the jump |
| InterruptMachine.Machine.RaiseSwIntr | nemu/src/cpu/intr.c:57-61 | the same with the return address behind the instruction |
| InterruptMachine.Machine.Iret | nemu/src/cpu/instr/ret.c:37-62 | the state after the three pops |

## Left out

- InternalNormalize: its precondition keeps the exponent below that of infinity unless the significand has a bit above the hidden one, which all four callers meet; other inputs are not described.
- SetEntry: for a watchpoint the address stands for the stored expression, and byte patching, enable bits and strdup/free are not modelled.
- CacheRead: across a line boundary lengths 2 and 4 inside memory only; the code computes a length 3 straddle with the split meant for length 4. On a cache that disagrees with memory only reads inside a line are given a value.
- CacheWrite: the copies have to stay inside the two arrays; a straddling write that hits in set 127 would read past the last set.
- EvalRange: a range on which eval does not end is excluded, as a method that promises a value has to end; ExprEnds says exactly which these are.
- Evaluate: text on which eval does not end is excluded in the same way.
- PressKey: takes the number of a letter; decoding of scan codes is left out.
- RaiseIntr: memory is flat, and the stack and the table lie inside it. The segment bases are 0 and the walk through page tables is not combined with it.
- The x87 register stack, host-side float comparison and the integer multiply, divide, logic and shift instructions: single-branch facts.
- The bit operations of C are written as arithmetic on natural numbers.
- Letter positions are reals; the values the game uses are exact in binary32.
- Frame rate, redrawing and enabling or disabling of interrupts in the main loop of the game; the calls of update_keypress run with interrupts disabled.
- The lexer of the evaluator, registers and symbols: a token carries its value. Reading memory for a dereference is an arbitrary function.
- Memory-mapped devices, the TLB, segment translation and mm_malloc.
