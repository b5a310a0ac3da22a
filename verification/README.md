# Verified models of the QuickJS support libraries

This project models four libraries the addon ships inside `c++_module/quickjs` and proves what they compute.

* **libregexp**: the compiler that inserts and patches relative jumps in a growing buffer, and the backtracking machine
  with its explicit stack. A pattern is an abstract syntax tree; its meaning is an ordered matcher
  (`RegexMatcher`), which lists every way to match, first choice first, with all captures. What that means on the
  input is said apart from the matcher: which stretches a pattern spans, as a relation on positions with every
  character and assertion written out (`RegexMeaning`), what captures hold (`RegexCaptures`), and which match comes
  first (`RegexOrder`).
* **libbf**: multi-limb arithmetic on arrays of 64-bit limbs. A row of limbs stands for one integer (`Limbs.Val`), and
  every loop is proved against integers: division by invariant limbs, schoolbook and reciprocal division, the Newton
  reciprocal, the Karatsuba square root, correct rounding, radix conversion, and the number-theoretic transform.
* **cutils**: the fat-partition quicksort with its 50-slot stack and heapsort fallback, and 31-bit UTF-8.
* **libunicode**: sets of code points as sorted lists, run-length property tables with their index and their generator,
  and canonical ordering.

Code that updates memory is modelled by methods on arrays and classes; each is proved against a function on values, and
the theorems are about that function. Wrapping limb operations are written out (`Limbs.Wrap`), so a value that overflows
and is repaired later does so in the model, too.

## Where to start

| theorem | what it says |
|---|---|
| `RegexEngine.Match` | compiling and running a pattern gives the first match of the ordered matcher, captures included: the leftmost stretch the pattern spans, and none only where it spans none |
| `RegexMeaning.SpanExact`, `RegexOrder.Unrolls` | the matcher against a relation that knows no order, and its order against alternatives |
| `RegexStack.StackBound` | the stack size in the header is never exceeded, in any run, also one that never ends |
| `RegexLimits.BoundaryExact`, `RegexLimits.LazyLoopHalts` | exactly when the two gaps of the engine show |
| `LimbSqrt.MpSqrtrem` | square root with remainder on 2n limbs, on top of the verified divisions |
| `LimbDivide.MpRecip`, `LimbDivide.MpDivnormLarge` | Newton reciprocal, and division by it with at most three corrections |
| `RoundingValues.RoundsExactly` | on numbers: the place rounded to, the one correctly rounded value, and what each status bit says |
| `NttConvolution.NttState.NttConv` | the cyclic convolution modulo m of buffers of any length, in place, split into columns and rows where they are long |
| `Radix.ToRadix`, `RadixQuotient.EstimateClose` | digits are right, and each quotient needs at most one correction |
| `QuickSort.RqSort` | sorted permutation within 50 stack slots, for every total preorder |
| `UnicodeTable.LreIsInTable`, `UnicodeTableGen.BuildPropTable` | lookup equals decoding, for every table the generator builds |
| `CanonicalOrder.SortCc`, `CanonicalOrder.ReorderedOnce` | the one canonical order of a text |
| `Utf8.UnicodeFromUtf8`, `Utf8.DecodeStream` | accepts exactly the shortest forms, one by one and in a stream |

## Findings

Properties one would expect and that do not hold, each with its exact condition.

| what fails | input | exact condition |
|---|---|---|
| A search started between the halves of a surrogate pair can misreport: the greedy fast path steps back a whole pair, to before the start (libregexp.c:2450-2489). Callers pass `lastIndex` on as it is. | `.{0,1}` and then the astral character as often as it follows, from inside the first pair (`RegexLimits.DotCharsFails`, `RegexLimits.DotCharsRuns`) | `RegexLimits.BoundaryExact`: all accepted patterns are answered right from p if and only if p is a character boundary |
| The check for iterations that consume nothing is skipped for lazy quantifiers (libregexp.c:1597), so a lazy loop can run for ever. | a lazy loop over a body that matches without consuming, then a test that fails, such as any character on the empty input (`RegexLimits.LazyNeverHalts`) | `RegexLimits.LazyLoopHalts`: on an input the lazy loop over b always halts, whatever follows and from wherever, if and only if b has no empty match there |
| Underflow is reported for a number below one unit of the last place kept, even when it is rounded up to a number that is not tiny (libbf.c:515-521). | 0.75 rounded to an integer is 1, with underflow (`RoundingValues.RintUnderflow`) | `RoundingValues.UnderflowExact`: underflow means tiny and inexact, except when the number is below one unit, the unit is not tiny, and the number is rounded up |
| `mod_fast` is wrong for the modulus 2^61, which the assertions of its initialisation admit: the inverse wraps to 0 (libbf.c:7418-7425). No caller passes it; the fixed moduli of the source are larger. | 8 * 2^61 modulo 2^61 (`NttModular.SmallestModulus`) | `NttModular.ModFastExactly`: exact for every dividend if and only if the modulus is larger |

## Model

| member | source | states |
|---|---|---|
| RegexEngine.Match | c++_module/quickjs/libregexp.c:2499-2535 | compile, then run: the answer is whether the ordered matcher has a match from the position on, and every capture register of the first one; that is the leftmost stretch the pattern spans, each group holding nothing or a stretch its body spans; refused only for more than 255 groups, a class of 65535 intervals, or quantifiers nested more than 255 deep |
| RegexMeaning.SpanExact | c++_module/quickjs/libregexp.c:2089-2494 | from every state, the matches of a pattern end exactly where the pattern spans to, by a relation without order, captures or greediness |
| RegexMeaning.CharStands | c++_module/quickjs/libregexp.c:1924-1958 | GET_CHAR reads the code point whose UTF-16 encoding stands there, and a lone surrogate as itself |
| RegexMeaning.PairDecodes | c++_module/quickjs/libregexp.c:1924-2012 | a surrogate pair is read forwards, backwards and stepped over as the code point it encodes |
| RegexMeaning.HoldsAsserts | c++_module/quickjs/libregexp.c:2227-2323 | the four assertions, on the units themselves: the four line terminators, and exactly one side or not a digit, letter or underscore |
| RegexCaptures.FirstMatchAnswers | c++_module/quickjs/libregexp.c:2499-2535 | an answer is the leftmost stretch the pattern spans from a position the search may try, with right captures; no answer means there is none |
| RegexCaptures.LiteralMatch | c++_module/quickjs/libregexp.c:2175-2191 | a literal matches exactly its own encoding, and nothing else |
| RegexCaptures.CapturesSound | c++_module/quickjs/libregexp.c:2257-2278 | every match leaves each group of the pattern unset or holding a stretch its body spans, and leaves all other registers alone |
| RegexOrder.FirstAlternative | c++_module/quickjs/libregexp.c:2192-2211 | the first alternative that spans anything is taken |
| RegexOrder.Unrolls | c++_module/quickjs/libregexp.c:1563-1692 | in order, a quantifier that may be left matches as its body and then one iteration less, or nothing: the body first when greedy, nothing first when lazy; a star likewise where its body consumes |
| RegexOrder.UnrollsMinimum | c++_module/quickjs/libregexp.c:1563-1692 | in order, a quantifier that has to run matches as its body and then the quantifier with one less |
| RegexOrder.SkippedUnset | c++_module/quickjs/libregexp.c:1540-1600 | without an iteration, last choice of a greedy quantifier and first of a lazy one, the groups of the body are unset |
| RegexOrder.LongestOrShortest | c++_module/quickjs/libregexp.c:1563-1692 | over characters a greedy quantifier takes the longest match and a lazy one the shortest |
| RegexCorrect.ProgramCorrect | c++_module/quickjs/libregexp.c:1502-1770 | the program of an accepted pattern halts with the captures of the first match there is, on every input on which the bodies of its unbounded lazy quantifiers consume, from every character boundary, and from inside a pair, too, unless a quantifier takes the fast path |
| RegexCorrect.CompileCorrect | c++_module/quickjs/libregexp.c:1704-1770 | wherever the code of a pattern sits, from each of these states it leads to exactly the matches of the pattern, in order |
| RegexEmitter.LreCompile | c++_module/quickjs/libregexp.c:1821-1909 | the inserting and patching compiler delivers the program the theorems are about, and refuses exactly more than 255 groups counting the whole, a class of 65535 intervals, and a stack above 255, which takes quantifiers nested deeper than that |
| RegexRefusal.ProgramRises | c++_module/quickjs/libregexp.c:1773-1815 | the stack a program needs is at most the depth its quantifiers are nested |
| RegexEmitter.Emitter.EmitQuantifier | c++_module/quickjs/libregexp.c:1563-1692 | whatever was emitted before, the atom from `start` on becomes the quantifier code of its bounds, with all relative jumps in place after the insertions |
| RegexEmitter.ComputeStackSize | c++_module/quickjs/libregexp.c:1773-1815 | the linear scan returns the greatest height the code reaches, or fails when that does not fit the header |
| RegexEngine.TestAnchor | c++_module/quickjs/libregexp.c:2227-2323 | the tests of the four assertion opcodes, as written out in `RegexMeaning` |
| RegexEngine.Engine.LreExecBacktrack | c++_module/quickjs/libregexp.c:2089-2494 | the loop over `pc`, `cptr`, `capture`, `stack` and `state_stack` returns what the abstract machine halts with, in whatever number of steps that takes |
| RegexStack.StackBound | c++_module/quickjs/libregexp.c:1773-1815 | in every reachable state every thread is at an instruction, with exactly the height the jump-ignoring scan assigns to it, within the header's stack size; the machine never aborts |
| RegexStack.StepSafe | c++_module/quickjs/libregexp.c:2119-2300 | one step keeps every thread at an instruction boundary with its static height |
| RegexLayout.CompileFits | c++_module/quickjs/libregexp.c:1563-1692 | all jumps of emitted code land on instruction boundaries inside it, with matching heights |
| RegexGreedy.SimGreedy | c++_module/quickjs/libregexp.c:2450-2489 | the greedy fast path offers the same end positions as the general loop, longest first |
| RegexSimple.BackUndoesForward | c++_module/quickjs/libregexp.c:2137-2159 | from a boundary, stepping back the counted characters undoes an iteration, surrogate pairs included |
| RegexInput.PrevUndoesGet | c++_module/quickjs/libregexp.c:1924-2012 | one step back undoes one step forward exactly at character boundaries |
| RegexAdvance.CheckAdvanceSound | c++_module/quickjs/libregexp.c:950-1030 | when the scan of the code says that it always advances, no match of the pattern is empty, on any input and from any state |
| RegexLimits.BoundaryExact | c++_module/quickjs/libregexp.c:2450-2489 | the engine is right from a position, for all accepted patterns, if and only if the position is a character boundary |
| RegexAdvance.MatchesEnd | c++_module/quickjs/libregexp.c:2119-2300 | where the matches of a pattern end depends on where they start, not on the capture registers |
| RegexLimits.LazyLoopHalts | c++_module/quickjs/libregexp.c:1586-1600 | for every body and input: the lazy loop halts before every continuation, from every position, sticky or searching, if and only if the body has no empty match on that input |
| RegexLimits.PlainLoopHalts | c++_module/quickjs/libregexp.c:1586-1600 | without assertions and lookaheads: the lazy loop halts on all inputs if and only if the body, read as a tree, must advance |
| RegexLimits.LazyNeverHalts | c++_module/quickjs/libregexp.c:1586-1600 | from a position where the body has an empty match, before a test that no character of the input passes, the run halts with no result at all |
| RegexClass.ClassTestCorrect | c++_module/quickjs/libregexp.c:821-857 | the emitted range test accepts exactly the points of the canonical set, in the 16-bit form with 0xffff as infinity and in the 32-bit form |
| RegexClass.TestRange16 | c++_module/quickjs/libregexp.c:2367-2405 | on the table emitted for a canonical set the unsigned binary search answers membership in the set, with no underflow of `idx - 1` |
| CodePointSet.CharRange.Op | c++_module/quickjs/libunicode.c:355-405 | the sweep leaves a strictly increasing list of exactly the points in one of the sets, in both, or in only one |
| CodePointSet.CharRange.Compress | c++_module/quickjs/libunicode.c:326-352 | adjacent intervals are merged and empty ones dropped in place, with the same members |
| CodePointSet.CharRange.Invert | c++_module/quickjs/libunicode.c:419-431 | the complement within [0, 2^32 - 1), as a canonical list |
| CodePointSet.CharRange.UnionInterval | c++_module/quickjs/libunicode.h:91-97 | adds exactly the points of one interval, for every interval a list can hold |
| CodePointSet.TopOutside | c++_module/quickjs/libunicode.h:91-97 | no list holds the point 2^32 - 1, so an interval that ends with it has none |
| CodePointSet.InvertTwice | c++_module/quickjs/libunicode.c:419-431 | inverting a canonical list twice gives it back, point for point |
| CodePointSet.CanonicalUnique | c++_module/quickjs/libunicode.h:49-55 | canonical lists with the same members are the same list |
| Limbs.MpAdd | c++_module/quickjs/libbf.c:1024-1040 | sum of two rows with carry in and out, also in place |
| Limbs.MpSub | c++_module/quickjs/libbf.c:1058-1074 | difference of two rows with borrow in and out, also in place |
| Limbs.MpAddMul1 | c++_module/quickjs/libbf.c:1145-1158 | adds a row times a limb, and returns the limb that overflows |
| Limbs.MpSubMul1 | c++_module/quickjs/libbf.c:1198-1211 | subtracts a row times a limb, and returns the borrow |
| Limbs.MpMulBasecase | c++_module/quickjs/libbf.c:1161-1172 | the product of two rows |
| Limbs.MpShr | c++_module/quickjs/libbf.c:1113-1127 | a row with a high limb in front, divided by a power of two, and what was shifted out |
| LimbInverse.Udiv1norm | c++_module/quickjs/libbf.c:1224-1242 | with the precomputed inverse: the exact quotient and remainder of two limbs, in spite of all wrapping |
| LimbInverse.MpDiv1norm | c++_module/quickjs/libbf.c:1245-1265 | exact division of any number of limbs by one, by hardware or by inverse |
| LimbQuotient.Reduce | c++_module/quickjs/libbf.c:1316-1341 | the estimated limb is put right by adding the divisor back at most twice |
| LimbDivide.DivnormBasecase | c++_module/quickjs/libbf.c:1294-1344 | schoolbook division: old a = q * b + r with 0 <= r < b, and a top quotient limb of 0 or 1 |
| LimbDivide.MpDivnorm | c++_module/quickjs/libbf.c:1275-1344 | the same from all three branches: one limb, schoolbook, or by reciprocal |
| LimbDivide.MpRecip | c++_module/quickjs/libbf.c:1351-1412 | for every normalized n-limb a: a * r < B^(2n) < a * (r + 2), with r[n] = 1, as Modern Computer Arithmetic states for algorithm 3.5 |
| LimbDivide.MpDivnormLarge | c++_module/quickjs/libbf.c:1433-1522 | the division by the scaled or truncated reciprocal ends with the quotient and remainder of the base case |
| LimbDivide.CorrectQuotient | c++_module/quickjs/libbf.c:1501-1509 | the correction loop ends after at most three subtractions |
| LimbSqrt.MpSqrtrem1 | c++_module/quickjs/libbf.c:1887-1928 | table and two Newton steps give root and remainder of a limb |
| LimbSqrt.BfIsqrt | c++_module/quickjs/libbf.c:1931-1942 | the floor of the square root of any limb |
| LimbSqrt.MpSqrtrem2 | c++_module/quickjs/libbf.c:1944-1970 | root and remainder of two limbs, though the root may wrap on the way |
| LimbSqrt.MpSqrtremRec | c++_module/quickjs/libbf.c:1976-2042 | for every row with a high limb of at least B/4: root and remainder, after at most one correction |
| LimbSqrt.MpSqrtrem | c++_module/quickjs/libbf.c:2050-2068 | s * s <= a < (s + 1) * (s + 1), and the remainder is a - s * s |
| RoundingModes.RoundedSigCorrect | c++_module/quickjs/libbf.c:395-446 | the decision on two dropped bits gives a correctly rounded significand in each mode (section 4.3 of IEEE 754-2008) |
| RoundingModes.RoundedUnique | c++_module/quickjs/libbf.c:395-446 | in the deterministic modes there is no other correctly rounded value |
| RoundingModes.RoundedExact | c++_module/quickjs/libbf.c:395-446 | the significand is unchanged exactly when no dropped bit is set |
| Rounding.BigFloat.Round | c++_module/quickjs/libbf.c:484-589 | limbs, exponent and status after rounding in all branches: carry through all limbs, underflow, subnormal and overflow |
| RoundingValues.RoundsOnValues | c++_module/quickjs/libbf.c:484-589 | in every mode, on numbers: rounded to 2^-prec1, to the last place of the smallest normal number, or to prec1 bits; overflow, flushing, inexact and underflow by the size of the rounded number |
| RoundingValues.RoundsExactly | c++_module/quickjs/libbf.c:484-589 | in the deterministic modes the same of every correctly rounded number, of which there is one |
| RoundingValues.UnderflowExact | c++_module/quickjs/libbf.c:515-550 | exactly when the underflow bit means tiny and inexact |
| RoundingValues.RintUnderflow | c++_module/quickjs/libbf.c:515-521 | 0.75 rounded to an integer gives 1 and underflow |
| Rounding.OverflowsCorrectly | c++_module/quickjs/libbf.c:448-477 | past the range, infinity when the mode can round magnitudes up, else the largest finite number of the precision (section 7.4 of IEEE 754-2008) |
| Rounding.RoundsCorrectly | c++_module/quickjs/libbf.c:484-589 | without overflow the number left is the one correctly rounded value, normalized, with a non-zero lowest limb, and inexact tells exactly whether it changed; with no bit to keep, nothing or one unit |
| Radix.FromRadix | c++_module/quickjs/libbf.c:2732-2753 | the sum of tab[i] * radix^i, for any number of limbs; every level is inside `pow_tab`, and its cached power is right whichever branch filled it |
| Radix.ToRadix | c++_module/quickjs/libbf.c:3459-3482 | digits below the radix that stand for the number again |
| Radix.ToRadixRec | c++_module/quickjs/libbf.c:3373-3456 | any part of the recursion writes the digits of its number to its place and nowhere else |
| Radix.LevelStep | c++_module/quickjs/libbf.c:2705-2706 | the split of a level leaves both halves at the next level, the high one at most one longer, and the level in the table |
| Radix.DigitsOfValue | c++_module/quickjs/libbf.c:3373-3456 | digits of the value of digits are those digits: to_radix undoes from_radix |
| Radix.DigitsRight | c++_module/quickjs/libbf.c:2693-2729 | the value of the digits of a number is the number: from_radix undoes to_radix |
| RadixQuotient.ReciprocalClose | c++_module/quickjs/libbf.c:1652-1722 | with the lowest bit set for a remainder, the rounded reciprocal is right to half a unit |
| RadixQuotient.EstimateClose | c++_module/quickjs/libbf.c:3407-3441 | with the precisions the code picks, the truncated quotient is at most one off on either side |
| Radix.Adjust | c++_module/quickjs/libbf.c:3427-3441 | each correction loop makes at most one step, and then quotient and remainder are exact |
| NttModular.ModFastExactly | c++_module/quickjs/libbf.c:7390-7425 | `mod_fast` returns the residue of every dividend in range if and only if the modulus is above 2^61 |
| NttModular.MulModExact | c++_module/quickjs/libbf.c:7429-7457 | products with a constant: below 2m and congruent, or fully reduced |
| NttModular.NttVecMul | c++_module/quickjs/libbf.c:7780-7801 | scaled pointwise products, congruent and below 2m |
| NttTransform.ButterflyExact | c++_module/quickjs/libbf.c:7754-7760 | a lazy butterfly stays below 2m, does not wrap wrongly, and is congruent to the exact one |
| NttTransform.StageTransforms | c++_module/quickjs/libbf.c:7741-7771 | each stage halves the number of coefficients in a column and doubles the columns, keeping what they evaluate to |
| NttFft.NttFft | c++_module/quickjs/libbf.c:7721-7778 | the output is the discrete Fourier transform of the input modulo m, with every element below 2m, in place or not, and the rest of the buffers stays; it fails exactly above 2^19 elements |
| NttFft.TrigCache.constructor | c++_module/quickjs/libbf.c:8280-8289 | squaring down the primitive root gives a root of order 2^l at every level l |
| NttFft.TrigCache.GetTrig | c++_module/quickjs/libbf.c:7818-7853 | cached or computed, the table holds the powers of the root of its level |
| NttPartial.MulTrig | c++_module/quickjs/libbf.c:7803-7815 | every element is multiplied by a power of the constant, congruent and below 2m |
| NttPartial.NttFftPartial | c++_module/quickjs/libbf.c:7882-7936 | by way of strips in a scratch buffer, every column is transformed and then multiplied by the powers of its power of the root, or, inversely, multiplied and then transformed; the rest of the buffer stays |
| NttSplit.FoldedCyclic | c++_module/quickjs/libbf.c:7940-7970 | convolving the rows cyclically, each folded at its power of the root, gives the folded cyclic convolution |
| NttSplit.SplitConvolved | c++_module/quickjs/libbf.c:7940-7970 | columns forward, any scaled convolution of every row, columns back: the cyclic convolution of the whole, scaled by both |
| NttInverse.InverseLaw | c++_module/quickjs/libbf.c:7940-7970 | transforming back gives the coefficients, times the length |
| NttInverse.EvalCyclic | c++_module/quickjs/libbf.c:7940-7970 | at a root of unity the cyclic convolution evaluates to the product |
| NttConvolution.NttState.NttConv | c++_module/quickjs/libbf.c:7940-7970 | for every length up to the order of the root, also when it is split and split again: the first buffer becomes the cyclic convolution of both, modulo m, with every element below 2m |
| QuickSort.RqSort | c++_module/quickjs/cutils.c:512-629 | for every total preorder a permutation of the input with no element after a greater one; the stack of 50 slots is never exceeded |
| QuickSort.HeapSort | c++_module/quickjs/cutils.c:470-502 | sorts its segment and leaves the rest alone |
| QuickSort.Partition | c++_module/quickjs/cutils.c:546-597 | the four-part fat partition: smaller, equal and greater elements in three blocks, the middle one not empty |
| QuickSort.PartitionRound | c++_module/quickjs/cutils.c:546-613 | the larger side is stacked one depth down, so that every index on the stack stays below its depth, and the smaller goes on |
| UnicodeTable.LreIsInTable | c++_module/quickjs/libunicode.c:205-238 | for every well-formed table and consistent index the lookup ends and answers exactly what decoding from the start answers |
| UnicodeTable.GetIndexPos | c++_module/quickjs/libunicode.c:172-203 | the binary search ends at a place the decoder passes outside a run, at or below the code point, or tells that the table ends before it |
| UnicodeTable.EntryLayout | c++_module/quickjs/libunicode.c:172-203 | an index entry is 21 bits of a code point and 5 bits of distance from the block 32 * (i + 1) |
| UnicodeTable.UnicodeProp1 | c++_module/quickjs/libunicode.c:1129-1166 | appends the intervals of the runs of the table |
| UnicodeTable.PropRight | c++_module/quickjs/libunicode.c:1129-1166 | these are a canonical list of exactly the members of the table |
| UnicodeTableGen.BuildPropTable | c++_module/quickjs/unicode_gen.c:1399-1497 | table and index are consistent, and decode to the property they were built from, at every code point; it gives up exactly when some block has no place for an entry in its first 8 bytes though one lies behind |
| CanonicalOrder.SortCc | c++_module/quickjs/libunicode.c:773-807 | the result comes from exchanges of reorderable pairs, and has no reorderable pair left |
| CanonicalOrder.ReorderedKeeps | c++_module/quickjs/libunicode.c:773-807 | exchanging permutes, never moves a starter, and keeps the order of characters of one class |
| CanonicalOrder.ReorderedOnce | c++_module/quickjs/libunicode.c:773-807 | the order is canonical: however the pairs are picked, one result |
| CanonicalOrder.SecondPass | c++_module/quickjs/libunicode.c:773-807 | a second pass changes nothing |
| Utf8.UnicodeToUtf8 | c++_module/quickjs/cutils.c:206-239 | writes the encoding of section 2 of RFC 2279 at its place, and nothing for values of more than 31 bits |
| Utf8.SpelledOut | c++_module/quickjs/cutils.c:206-239 | every byte of the six lengths, written out |
| Utf8.UnicodeFromUtf8 | c++_module/quickjs/cutils.c:251-304 | succeeds exactly when the bytes start with the encoding of some value, and returns that value and its length |
| Utf8.PrefixFree | c++_module/quickjs/cutils.c:206-239 | no encoding is a prefix of another |
| Utf8.DecodeStream | c++_module/quickjs/cutils.c:251-304 | applying `unicode_from_utf8` to what is left until nothing is computes `DecodeAll`, errors included |
| Utf8.StreamRoundTrip | c++_module/quickjs/cutils.c:251-304 | decoding an encoded sequence of values, as `DecodeStream` does, gives the sequence |
| Utf8.StreamReencode | c++_module/quickjs/cutils.c:251-304 | bytes that `DecodeStream` decodes without error are the encoding of what they decode to |

## Left out

- RegexCorrect.ProgramCorrect: covers the inputs on which the bodies of unbounded lazy quantifiers have no empty match; on others the list of matches need not be finite, and `RegexLimits.LazyLoopHalts` shows that then some continuation does not halt. Inside a pair it covers the patterns without the fast path; `RegexLimits.BoundaryExact` shows that no such position is right for all patterns.
- RegexEngine.Match: takes the pattern as a tree. Tokens, escapes, flags and Annex B leniency of the parser are not modelled, nor are named groups, backreferences, lookbehind and case folding; `m` and `s` show as different tests and anchors.
- RegexEngine.Engine.LreExecBacktrack: stacks grow without bound; a failed allocation is not modelled.
- LimbDivide.MpRecip: proves the bound of the algorithm the source cites, `a * (r + 2)`; the comment above `mp_recip` writes `a * r + 2`. It multiplies with the schoolbook product at every size, as do `LimbDivide.MpDivnormLarge` and `LimbSqrt.MpSqrtrem`; the source goes over to `fft_mul` from FFT_MUL_THRESHOLD limbs on.
- Limbs.MpSub: like `Limbs.MpNeg`, counts with unbounded numbers, where the source counts limbs in an `int`.
- Rounding.BigFloat.Round: with a requested precision of 0 and an exponent past the range in a mode that delivers the largest finite number, `bf_set_overflow` has no limb to write, so this case is excluded. Faithful rounding is deterministic here, as in the code.
- Radix.FromRadix: takes the limb radix; `get_limb_radix` and its table are not modelled. Numbers are integers, on which the sums and products without rounding are exact, and allocation succeeds.
- Radix.ToRadix: `bf_div` and `bf_mul` are modelled by what they round, not limb by limb.
- NttConvolution.NttState.NttConv: allocation succeeds. Cutting numbers into digits, the Chinese remainders and the carries of `fft_mul` around it are not modelled.
- NttFft.TrigCache.constructor: modulus and primitive root are parameters, with the order of the root required; the five moduli of the source are not checked. The AVX2 transform works in floating point and is left out.
- UnicodeTable.LreIsInTable: tables are parameters; the contents of libunicode-table.h are not part of this model.
- CanonicalOrder.SortCc: combining classes are a parameter; decomposition and composition are not modelled.
- QuickSort.RqSort: elements are values; `cmp` has no side effects. The swap functions chosen by element size are one swap.
- Not modelled because they would add members of the same kind: the decimal limbs, `bf_add`, comparison and logic operations, `cr_copy`, and character-class tables of libregexp.
- Not modelled because the source marks their error analysis as open: transcendental functions, `bf_can_round`, `bf_atof` and `bf_ftoa`.
