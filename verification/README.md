# QuickJS support library: model and proofs

This Dafny project models the five hardest parts of the C code that the library embeds for
running JavaScript, and proves what they are for.

**Regular expressions** (`libregexp.c`). A pattern is a tree that mirrors the order in which the
parser emits code. `RegexSpec` gives its meaning: the matchers of section 22.2.2 of ECMA-262.
`RegexAsm` says which instructions are emitted, `RegexOpcode` how they are encoded, and
`RegexMachine` what the backtracking machine does in one step. `RegexTheorem.ExecIsSearch` is
compiler correctness and termination: the machine halts with the first match of the standard, and
`RegexCaptures` and `RegexTracking` say which captures are those of the standard.
`RegexCompiler` is the compiler as it works, on a growing byte buffer with insertions, copies and
patched jumps, and `RegexExec` is the machine as it works, with its arrays and its stack of states;
both are proved against these specifications. `RegexBacktrack` compares the machine with recursive
backtracking on arbitrary code, and `RegexSafety` shows that a run of compiled code is never
undefined.

**Printing and reading doubles** (`dtoa.c`). `Limbs` and `Bignum` are the limb loops, with their
values as integers. `Scaling` and `DtoaRounding` multiply by a power of the radix and round;
`Doubles` and `DoubleBits` say over the real numbers what correct rounding is. `FreeFormat` is the
search for the shortest digits, `DtoaOutput` the printed text, `AtodText` the syntax of numbers and
`Atod` and `JsAtod` their conversion; `Midpoints` says which real numbers round to which bits, and
`DtoaLimits` exactly when the conversion is correctly rounded. `DtoaRoundTrip.RoundTrip` puts both directions together: every
double is printed as a text that is read as the same 64 bits.

**Character sets and tables** (`libunicode.c`). `CharRange` and `CharSet` are the sorted lists of
range end points, as values and as a buffer changed in place; `UnicodeTable` is the compressed
property tables with their index.

**Sorting** (`cutils.c`). `Sorting` is `rqsort` with its three-way partition, explicit stack, heapsort
and insertion sort.

**The pipe between workers** (`quickjs-libc.c`). `MessagePipe` is a state machine over the steps of
any number of threads, and a class whose methods perform these steps.

## What the code does not do

* `lre_exec` does not always return the captures of the standard, which clears those of a quantified atom
  before every iteration; the code clears them once, and only if the atom may be skipped (`libregexp.c`,
  line 2221). `(?:(a)|b)*` on `ab` returns `a` as group 1, which the standard leaves undefined
  (`RegexStale.StaleGroup`). There is a match exactly if the standard has one, with the same start and
  end. A capture differs if and only if the standard clears it once it is set and nothing sets it
  again, which matchers that mark such captures tell (`RegexTracking.FindExactly`,
  `RegexTheorem.ExecDiffers`). Only a group in an alternative under a quantifier with a maximum above 1 can
  be stale (`RegexCaptures.FindAgrees`, `RegexTheorem.ExecIsSearch`), but need not
  (`RegexStale.NeverStale`).
* `js_dtoa` looks for the minimum number of digits (`dtoa.c`, line 1193) and may miss it. The digits
  are the shortest if and only if there is no q from 1 to 16 for which the nearest number with q digits does
  not convert back while the next one above it does (`FreeFormat.FreeDigitsShortest`). This happens
  only for the least double of a binade, and it does for 2^-24: the text is 5.9604644775390625e-8,
  although 5.960464477539063e-8 is read as the same double (`DtoaLimits.SixteenDigitsWouldDo`).
* `js_atod` ignores significant digits beyond the 38th in radix 10, and in every radix lets an exponent of 2147483640 or
  more decide alone. The result is the nearest double if and only if the ignored digits do not take the
  number across a midpoint between two doubles, or the number is beyond the threshold to zero or infinity
  (`DtoaLimits.CorrectExactly`). 9007199254740993.00000000000000000000001 is read as 9007199254740992
  instead of 9007199254740994 (`DtoaLimits.DigitsBeyondTheLast`), and one tenth with 2147483640 zeros
  behind the point as infinity (`DtoaLimits.ZerosIgnored`; `DtoaLimits.ZerosIgnoredInBinary` is the one half of radix 2).
* `js_atod` computes exponents in an `int`, where C does not define an overflow. `JsAtod.TextFits` says of
  every text whether all of them fit, and the model returns `Undefined` exactly if they do not
  (`JsAtod.JsAtod`). 0.00000000001e-2147483639 is such a text (`DtoaLimits.ExponentOverflows`);
  1e-2147483630 is not.

## Model

| member | source | states |
|---|---|---|
| RegexInput.GetCharAtOffset | library/src/main/cpp/quickjs/libregexp.c:2558-2573 | From the offset of the k-th character the macro yields that character and the offset of the next one. |
| RegexInput.GetPrevCharAtOffset | library/src/main/cpp/quickjs/libregexp.c:2607-2639 | At every character boundary stepping back undoes stepping forward. |
| RegexInput.OffsetNotInsidePair | library/src/main/cpp/quickjs/libregexp.c:3193-3198 | No offset of a character lies between the two units of a surrogate pair. |
| RegexScan.ScanNeedCheckAdvance | library/src/main/cpp/quickjs/libregexp.c:1498-1558 | The loop over the emitted bytes decides whether the code may match without moving, whatever instructions it consists of. |
| RegexScan.ScanSimpleQuantifier | library/src/main/cpp/quickjs/libregexp.c:1562-1607 | The loop returns the number of characters of straight-line code, and -1 for every other code. |
| RegexScan.ScanStackSize | library/src/main/cpp/quickjs/libregexp.c:2390-2434 | For balanced code the linear count is the highest depth the integer stack reaches at any instruction; it fails exactly if that exceeds the limit. |
| RegexClass.RangeSearchCorrect | library/src/main/cpp/quickjs/libregexp.c:3036-3058 | The unsigned binary search finds c exactly when some interval of the table holds it, and never wraps. |
| RegexClass.RangeHas16 | library/src/main/cpp/quickjs/libregexp.c:3022-3062 | The 16-bit form with 0xffff as infinity accepts exactly the characters of the canonical set it was emitted from. |
| RegexClass.RangeHas32 | library/src/main/cpp/quickjs/libregexp.c:3063-3100 | The same for the 32-bit form. |
| RegexClass.EmitRangeCorrect | library/src/main/cpp/quickjs/libregexp.c:1165-1199 | Whichever of its forms re_emit_range chooses, the empty set included, the opcode accepts c exactly if the folded c is in the set. |
| RegexClass.ItemsSetCorrect | library/src/main/cpp/quickjs/libregexp.c:1322-1477 | The set built item by item contains exactly the (folded) characters of the items of a class. |
| RegexClass.CharInstrCorrect | library/src/main/cpp/quickjs/libregexp.c:2092-2115 | The instruction of a character, dot or class accepts exactly what CharacterSetMatcher (section 22.2.2.7 of ECMA-262) accepts. |
| RegexSpec.OnlyAhead | library/src/main/cpp/quickjs/libregexp.c:2211-2219 | The matcher of the standard calls its continuation only at positions ahead of where it was started. |
| RegexSpec.RepeatSplits | library/src/main/cpp/quickjs/libregexp.c:2235-2307 | RepeatMatcher (section 22.2.2.3.1) is its mandatory iterations followed by its optional ones. |
| RegexQuant.CheckedYields | library/src/main/cpp/quickjs/libregexp.c:2938-2944 | With the position test, an iteration that did not move fails, as in RepeatMatcher. |
| RegexQuant.UncheckedYields | library/src/main/cpp/quickjs/libregexp.c:1498-1558 | Where the test is left out, every iteration moves the position. |
| RegexQuant.StarImplements | library/src/main/cpp/quickjs/libregexp.c:2233-2246 | A split, the guarded atom and a jump back implement unbounded repetition, greedy and lazy. |
| RegexQuant.OnceImplements | library/src/main/cpp/quickjs/libregexp.c:2233-2246 | The form for at most one iteration implements it. |
| RegexQuant.UpToImplements | library/src/main/cpp/quickjs/libregexp.c:2247-2263 | The counted loop implements at most n iterations. |
| RegexQuant.ExactlyImplements | library/src/main/cpp/quickjs/libregexp.c:2271-2280 | The counted loop for the minimum implements exactly n iterations. |
| RegexQuant.PlusImplements | library/src/main/cpp/quickjs/libregexp.c:2264-2267 | One copy of an atom that always moves and a split back implement one or more iterations. |
| RegexCorrect.SeqImplements | library/src/main/cpp/quickjs/libregexp.c:2321-2353 | Code placed one after the other implements MatchSequence, in both directions. |
| RegexCorrect.AltImplements | library/src/main/cpp/quickjs/libregexp.c:2355-2387 | A split before the left alternative implements MatchTwoAlternatives. |
| RegexCorrect.CaptureImplements | library/src/main/cpp/quickjs/libregexp.c:1950-1970 | The two saves around the code of a group set its start and its end, in the order of the direction. |
| RegexCorrect.LookImplements | library/src/main/cpp/quickjs/libregexp.c:1898-1928 | A lookaround of either direction and sign implements that of the standard: one attempt, whose alternatives are dropped; a positive one keeps its captures, a negative one does not. |
| RegexGreedy.ReturnsIsTries | library/src/main/cpp/quickjs/libregexp.c:2775-2797 | Giving back one iteration at a time visits the end positions in the order of the greedy repetition. |
| RegexGreedy.RunGreedyRepeats | library/src/main/cpp/quickjs/libregexp.c:3107-3149 | The nested loop stops where the greedy repetition of the atom has made all its iterations. |
| RegexGreedy.SimpleQuantImplements | library/src/main/cpp/quickjs/libregexp.c:2182-2206 | simple_greedy_quant yields the same result as the general greedy loop, for every continuation. |
| RegexTheorem.QuantImplements | library/src/main/cpp/quickjs/libregexp.c:2175-2313 | Whatever form the compiler chooses for a quantifier, its code implements RepeatMatcher, after a reset of the captures of the atom if it may be skipped. |
| RegexTheorem.EmitImplements | library/src/main/cpp/quickjs/libregexp.c:1792-2387 | For every pattern, direction and flags the emitted code implements the matcher of section 22.2.2 of ECMA-262, with captures saved and reset where the code does it. |
| RegexTheorem.ExecComputes | library/src/main/cpp/quickjs/libregexp.c:2725-3154 | For every pattern, flags, subject and start the machine halts after finitely many steps, with exactly the captures of the search with that matcher, or without a match when it finds none. |
| RegexTheorem.ExecIsSearch | library/src/main/cpp/quickjs/libregexp.c:2725-3154 | It halts with the first match of the specification or without one: the same start, the same end and the same captures of every group that cannot be stale. |
| RegexCaptures.Simulates | library/src/main/cpp/quickjs/libregexp.c:2175-2313 | Whatever follows a pattern, the matcher with the saves and resets of the code succeeds exactly where the matcher of the standard does, and the captures differ only where an earlier iteration may have left one. |
| RegexCaptures.FindAgrees | library/src/main/cpp/quickjs/libregexp.c:2221-2230 | Searching with either of them finds a match at the same place, with the same captures of every group that cannot be stale. |
| RegexTracking.Tracks | library/src/main/cpp/quickjs/libregexp.c:2175-2313 | Matchers that mark a capture where the standard clears it succeed exactly where those of the code and of the standard do: without the marks they have the captures of the code, with the marked captures erased those of the standard. |
| RegexTracking.FindExactly | library/src/main/cpp/quickjs/libregexp.c:2221-2230 | A capture the code returns is not that of the standard if and only if it is marked when the match ends; only captures that may be stale are. |
| RegexTheorem.ExecDiffers | library/src/main/cpp/quickjs/libregexp.c:2725-3154 | The machine halts with the match of the standard, and its captures differ exactly at the marked ones. |
| RegexStale.StaleGroup | library/src/main/cpp/quickjs/libregexp.c:2221-2230 | (?:(a)\|b)* on ab: the standard leaves group 1 unset, the code returns the a of the first iteration; group 1 is the one named as possibly stale. |
| RegexStale.StaleRun | library/src/main/cpp/quickjs/libregexp.c:2725-3154 | A machine with this pattern compiled halts on ab with the captures 0, 2, 0, 1. |
| RegexStale.NeverStale | library/src/main/cpp/quickjs/libregexp.c:2221-2230 | (?:(a)\|a)*, whose group is also named: on every subject the code returns the captures of the standard. |
| RegexBacktrack.ExploreArrives | library/src/main/cpp/quickjs/libregexp.c:2676-2712 | From any place of any byte code the machine comes to the outcome of the recursive matcher and leaves the saved states below untouched. |
| RegexBacktrack.GiveBackArrives | library/src/main/cpp/quickjs/libregexp.c:2775-2797 | A greedy state gives its iterations back one by one, each time with the captures and the stack it was pushed with. |
| RegexBacktrack.MachineIsExplore | library/src/main/cpp/quickjs/libregexp.c:2725-2861 | For all byte code: the explicit stack of states finds a match with these captures if and only if recursive backtracking does, and fails if and only if it does. Alternatives restart from the position, stack and captures they were saved with, a lookaround asks for one match only, and a negative one goes on with the captures before it. |
| RegexCompiler.Compiler.Insert | library/src/main/cpp/quickjs/libregexp.c:118-125 | Room is made at a position; everything before and after keeps its bytes. |
| RegexCompiler.Compiler.EmitRangeCode | library/src/main/cpp/quickjs/libregexp.c:1165-1199 | Appends the range instruction of the set, and fails exactly if it has too many ranges. |
| RegexCompiler.Compiler.ParseClass | library/src/main/cpp/quickjs/libregexp.c:1322-1477 | Collects the canonical set of the characters and ranges of a class, inverted if the class is negated. |
| RegexCompiler.Compiler.QuantifySimple | library/src/main/cpp/quickjs/libregexp.c:2182-2206 | In front of a simple atom the operands of simple_greedy_quant are inserted. |
| RegexCompiler.Compiler.ResetBefore | library/src/main/cpp/quickjs/libregexp.c:2221-2230 | The reset of the captures of an atom that may be skipped is inserted before it. |
| RegexCompiler.Compiler.SplitBefore | library/src/main/cpp/quickjs/libregexp.c:2233-2246 | The split and the position test around the atom, with the jump distance of the code that follows. |
| RegexCompiler.Compiler.QuantifyUpTo | library/src/main/cpp/quickjs/libregexp.c:2247-2263 | Turns the atom at the end of the code into the counted loop around a split. |
| RegexCompiler.Compiler.QuantifyExactly | library/src/main/cpp/quickjs/libregexp.c:2271-2280 | Turns the atom at the end of the code into the counted loop of its minimum, and tells where the atom now starts. |
| RegexCompiler.Compiler.QuantifyRest | library/src/main/cpp/quickjs/libregexp.c:2281-2305 | The optional iterations, on copies of the atom. |
| RegexCompiler.Compiler.Quantify | library/src/main/cpp/quickjs/libregexp.c:2175-2313 | Inserting, copying and patching turn the atom at the end of the code into exactly the code specified for the quantifier. |
| RegexCompiler.Compiler.ParseTerm | library/src/main/cpp/quickjs/libregexp.c:1792-2319 | On a term given as a tree: succeeds exactly if it is within the limits, and then has appended the code of the term, counted its captures and restored the flags. |
| RegexCompiler.Compiler.ParseCapture | library/src/main/cpp/quickjs/libregexp.c:1950-1970 | The same for a capture group, with its number taken before its body is parsed. |
| RegexCompiler.Compiler.ParseLook | library/src/main/cpp/quickjs/libregexp.c:1898-1928 | The same for a lookaround, whose jump is patched once the length of the body is known. |
| RegexCompiler.Compiler.ParseModifiers | library/src/main/cpp/quickjs/libregexp.c:1860-1897 | The same for modifiers; the flags are as before afterwards. |
| RegexCompiler.Compiler.MoveToFront | library/src/main/cpp/quickjs/libregexp.c:2338-2350 | Moving a term of a lookbehind in front of the earlier ones exchanges the two blocks and keeps their bytes. |
| RegexCompiler.Compiler.ParseAlternative | library/src/main/cpp/quickjs/libregexp.c:2321-2353 | Parsing the terms in turn appends the code of the whole alternative, in reverse order for a lookbehind. |
| RegexCompiler.Compiler.ParseDisjunction | library/src/main/cpp/quickjs/libregexp.c:2355-2387 | Inserting a split and patching a jump per alternative yields the code of the whole disjunction. |
| RegexCompiler.LreCompile | library/src/main/cpp/quickjs/libregexp.c:2451-2543 | Succeeds if and only if the pattern is within the limits; the header then holds the flags, the size of the finished code and the two counts with which the machine runs the pattern. |
| RegexTerms.EmitIsTerms | library/src/main/cpp/quickjs/libregexp.c:2321-2353 | Emitting the terms of an alternative one after the other emits the alternative. |
| RegexTerms.EmitIsAlternatives | library/src/main/cpp/quickjs/libregexp.c:2355-2387 | The same for the alternatives of a disjunction. |
| RegexValid.EmitGood | library/src/main/cpp/quickjs/libregexp.c:1792-2387 | The code of every accepted pattern leaves the integer stack as it found it, never pops what it has not pushed, and has operands that fit their fields. |
| RegexExec.SearchRanges | library/src/main/cpp/quickjs/libregexp.c:3022-3100 | The loop of the binary search decides membership in the table. |
| RegexExec.RunAtom | library/src/main/cpp/quickjs/libregexp.c:2742-2751 | The nested run of a simple atom ends at its match opcode or fails where the step function does. |
| RegexExec.RunGreedily | library/src/main/cpp/quickjs/libregexp.c:3107-3149 | The loop repeats the atom up to the maximum, and tells the position and the count. |
| RegexExec.GoBack | library/src/main/cpp/quickjs/libregexp.c:2787-2789 | The loop of PREV_CHAR goes n characters back. |
| RegexExec.ExecContext.Unwind | library/src/main/cpp/quickjs/libregexp.c:2752-2812 | The loop over the saved states stops where the step function resumes a state, or with the result of the whole match. |
| RegexExec.ExecContext.GiveBack | library/src/main/cpp/quickjs/libregexp.c:2775-2797 | Restores captures and stack, steps back and keeps the state with one iteration less, or drops it. |
| RegexExec.ExecContext.Dispatch | library/src/main/cpp/quickjs/libregexp.c:2813-3153 | One opcode changes pc, cursor, stack, captures and states exactly as one step of the machine does. |
| RegexExec.ExecContext.Backtracking | library/src/main/cpp/quickjs/libregexp.c:2725-3154 | The main loop runs the machine to its end and returns its result and captures. |
| RegexExec.LreExec | library/src/main/cpp/quickjs/libregexp.c:3159-3204 | For every accepted pattern, subject and start index it ends with the first match of the specification from the beginning of the character at the index, with the captures the machine computes, which are those of the specification for every group that cannot be stale. |
| RegexSafety.JumpInside | library/src/main/cpp/quickjs/libregexp.c:2221-2307 | Jumps are relative: a block keeps the targets of its jumps wherever it is put. |
| RegexSafety.EmitCode | library/src/main/cpp/quickjs/libregexp.c:1792-2387 | Every jump of the emitted code leads to the start of an instruction, at the stack depth the linear count gives it, and every capture number is in range. |
| RegexSafety.ProgramCode | library/src/main/cpp/quickjs/libregexp.c:2451-2543 | The same for the whole program. |
| RegexSafety.StepOk | library/src/main/cpp/quickjs/libregexp.c:2725-3154 | One step keeps the configuration sound unless it is undefined. |
| RegexSafety.ReachableOk | library/src/main/cpp/quickjs/libregexp.c:2725-3154 | In every configuration a run can reach nothing is undefined: pc is the start of an instruction, the stack has the depth of that place, and cursor and captures lie between characters, saved ones included. |
| CharRange.CompressCorrect | library/src/main/cpp/quickjs/libunicode.c:433-459 | Joining ranges that touch yields the canonical list of the same set. |
| CharRange.OpCorrect | library/src/main/cpp/quickjs/libunicode.c:462-515 | The merge yields the canonical list of the union, intersection, symmetric difference or difference of the two sets. |
| CharRange.InvertCorrect | library/src/main/cpp/quickjs/libunicode.c:529-541 | The result is the canonical list of the complement. |
| CharRange.CanonicalUnique | library/src/main/cpp/quickjs/libunicode.c:462-541 | Equal sets have identical arrays. |
| CharSet.Canonicalize | library/src/main/cpp/quickjs/libunicode.c:227-261 | The fast path and the binary search yield the canonical form the case table defines, and the character itself outside of its runs. |
| CharSet.CharRangeBuffer.Compress | library/src/main/cpp/quickjs/libunicode.c:433-459 | The in-place loop computes the compressed list. |
| CharSet.CharRangeBuffer.Op | library/src/main/cpp/quickjs/libunicode.c:462-515 | The loop appends exactly the points of the operation. |
| CharSet.CharRangeBuffer.Op1 | library/src/main/cpp/quickjs/libunicode.c:517-527 | The operation with the old contents as the first operand. |
| CharSet.CharRangeBuffer.UnionInterval | library/src/main/cpp/quickjs/libunicode.h:81-87 | Adds one interval to the set. |
| CharSet.CharRangeBuffer.Invert | library/src/main/cpp/quickjs/libunicode.c:529-541 | The buffer becomes its complement. |
| CharSet.CharRangeBuffer.SortAndRemoveOverlap | library/src/main/cpp/quickjs/libunicode.c:622-656 | Any list of intervals becomes the sorted list of ranges that do not overlap, with the same set. |
| CharSet.CharRangeBuffer.RegexpCanonicalize | library/src/main/cpp/quickjs/libunicode.c:660-742 | The buffer becomes the canonical list of exactly the canonical forms of its members. |
| CharSet.CharRangeBuffer.AddImage | library/src/main/cpp/quickjs/libunicode.c:684-721 | The intervals collected cover exactly the canonical forms of the characters visited. |
| UnicodeTable.GetIndexPos | library/src/main/cpp/quickjs/libunicode.c:271-302 | Binary search finds the last index entry not beyond c, the start of the table, or that c is beyond the end. |
| UnicodeTable.MemberFrom | library/src/main/cpp/quickjs/libunicode.c:304-345 | From a position that decoding reaches, the rest of the table decides about the characters beyond it. |
| UnicodeTable.IsInTable | library/src/main/cpp/quickjs/libunicode.c:304-345 | For every well-formed table and index the indexed lookup agrees with decoding the table from its start. |
| UnicodeTable.ExpandTable | library/src/main/cpp/quickjs/libunicode.c:1458-1503 | Appends the ranges of the runs that belong to the set. |
| UnicodeTable.ExpansionAgrees | library/src/main/cpp/quickjs/libunicode.c:1458-1503 | These ranges are canonical and contain exactly the characters the lookup finds. |
| Sorting.InsertionSort | library/src/main/cpp/quickjs/cutils.c:625-629 | A short segment becomes a sorted rearrangement of itself; nothing else changes. |
| Sorting.HeapSort | library/src/main/cpp/quickjs/cutils.c:472-504 | The segment becomes a sorted rearrangement of itself. |
| Sorting.Med3IsMedian | library/src/main/cpp/quickjs/cutils.c:506-511 | med3 picks an element between the two others. |
| Sorting.Partition | library/src/main/cpp/quickjs/cutils.c:544-607 | Three parts result: smaller than the pivot, equal to it, greater; the segment is rearranged and nothing else changes. |
| Sorting.DeepeningBound | library/src/main/cpp/quickjs/cutils.c:514-631 | Strictly increasing depths bound the number of stack slots in use. |
| Sorting.SplitSegment | library/src/main/cpp/quickjs/cutils.c:544-623 | The outer parts replace the segment on the stack, the larger one deeper down; the depths still increase. |
| Sorting.Rqsort | library/src/main/cpp/quickjs/cutils.c:514-631 | For every array and total preorder: terminates, with a sorted rearrangement, and within 50 stack slots. |
| Limbs.AddUi | library/src/main/cpp/quickjs/dtoa.c:75-89 | The loop adds a limb and returns the carry: no carry is lost. |
| Limbs.Mul1 | library/src/main/cpp/quickjs/dtoa.c:92-104 | old * b + l0 == new + carry * 2^(32 n). |
| Limbs.Div1 | library/src/main/cpp/quickjs/dtoa.c:137-148 | old with r0 on top == new * b + r, and r < b. |
| Limbs.Shl | library/src/main/cpp/quickjs/dtoa.c:170-184 | The value is multiplied by 2^shift; the bits shifted out are returned. |
| Limbs.Shr | library/src/main/cpp/quickjs/dtoa.c:152-166 | The value is divided by 2^shift; the bits shifted out are returned. |
| Limbs.Udiv1norm | library/src/main/cpp/quickjs/dtoa.c:106-135 | For every normalised divisor d and a1 < d, the multiplication by the inverse and two corrections give the exact quotient and remainder. |
| Limbs.Div1norm | library/src/main/cpp/quickjs/dtoa.c:186-199 | In place, over any number of limbs: old == new * b + r with r < b, the divisor being shifted up or not. |
| Rounding.RoundDivIsNearest | library/src/main/cpp/quickjs/dtoa.c:313-398 | No integer is closer to the quotient; a tie goes to the even one or away from zero. |
| Rounding.StickyRounds | library/src/main/cpp/quickjs/dtoa.c:893-956 | If two more bits are dropped, the remainder kept in the lowest bit gives the same rounding as the exact quotient, in all modes. |
| Rounding.DivisionsCompose | library/src/main/cpp/quickjs/dtoa.c:935-952 | Divisions in several steps give the quotient of one division, and some remainder is left exactly if one is left overall. |
| Bignum.Mpb.ShrRound | library/src/main/cpp/quickjs/dtoa.c:313-398 | A shift right rounds the quotient by the power of two in the mode given; a shift left multiplies. Only a shift left of zero may leave limbs that are not in normal form. |
| Bignum.Mpb.GetBit | library/src/main/cpp/quickjs/dtoa.c:300-310 | The bit of the number at any position, zero beyond the end. |
| Bignum.Mpb.FloorLog2 | library/src/main/cpp/quickjs/dtoa.c:448-456 | The position of the highest bit, -1 for zero. |
| Bignum.Mpb.SetU64 | library/src/main/cpp/quickjs/dtoa.c:419-432 | The number becomes m. |
| Bignum.Mpb.GetU64 | library/src/main/cpp/quickjs/dtoa.c:434-445 | The number modulo 2^64. |
| Scaling.PowUi | library/src/main/cpp/quickjs/dtoa.c:242-269 | a^b modulo 2^64, by the table for 5 and 10 and by repeated squaring otherwise. |
| Scaling.PowUiInv | library/src/main/cpp/quickjs/dtoa.c:271-292 | The power shifted up until its top bit is set, its inverse, and the shift; the tables agree with the computation. |
| Scaling.DivDown | library/src/main/cpp/quickjs/dtoa.c:935-952 | Division by r^f in blocks of digits: the exact quotient, and whether any block left a remainder. |
| Scaling.MulPow | library/src/main/cpp/quickjs/dtoa.c:893-956 | old * radix^f == new * 2^-offset, up to the sticky bit for negative f, with as many bits left as the caller asks for. |
| DtoaRounding.MulPowRound | library/src/main/cpp/quickjs/dtoa.c:959-967 | Exactly round(m * 2^e * radix^f), in all three modes. |
| DtoaRounding.QuotientRoundsTo | library/src/main/cpp/quickjs/dtoa.c:970-1001 | A quotient of at least 56 bits with its sticky bit rounds to the same double as the exact quotient. |
| DtoaRounding.RoundToD | library/src/main/cpp/quickjs/dtoa.c:970-1001 | 53 bits, or fewer for subnormal numbers, with the exponent adjusted when the mantissa overflows. |
| DtoaRounding.MulPowRoundToD | library/src/main/cpp/quickjs/dtoa.c:1006-1013 | The double nearest to a * radix^f, ties to even. |
| Doubles.CloserRoundsTo | library/src/main/cpp/quickjs/dtoa.c:1184-1236 | What is at least as close to a symmetric double as a number that rounds to it rounds to it as well. |
| DoubleBits.DecodeIsDouble | library/src/main/cpp/quickjs/dtoa.c:1123-1165 | Taking the 64 bits of a finite number apart and putting them together again gives them back, subnormal numbers included. |
| DoubleBits.AssembleDecodes | library/src/main/cpp/quickjs/dtoa.c:1591-1607 | Putting mantissa and exponent of a double together and taking the bits apart gives them back. |
| DoubleBits.RoundsToClosest | library/src/main/cpp/quickjs/dtoa.c:970-1001 | No double is closer to x than the one x rounds to. |
| DoubleBits.RoundsToBits | library/src/main/cpp/quickjs/dtoa.c:1591-1607 | The last case distinction of js_atod turns the rounded mantissa and exponent into the bits of the nearest double, outside of the range too. |
| RadixLog.MulLog2Radix | library/src/main/cpp/quickjs/dtoa.c:474-488 | floor(a / log2(radix)) on the stated range, for radix 10 by a multiplication and for the powers of two exactly; the other radixes are left out. |
| FreeFormat.SeventeenDigits | library/src/main/cpp/quickjs/dtoa.c:1184-1236 | The first attempt with 17 digits converts back to the double without a test, because 10^16 > 2^53. |
| FreeFormat.FindDigits | library/src/main/cpp/quickjs/dtoa.c:1196-1207 | The number with p digits nearest to the double; the exponent is raised at most once. |
| FreeFormat.NotShorter | library/src/main/cpp/quickjs/dtoa.c:1193-1233 | If the nearest number with p digits does not convert back, no number with at most p digits does, unless the double is the least of a binade. |
| FreeFormat.PowerOfTwoInterval | library/src/main/cpp/quickjs/dtoa.c:970-1001 | The least double of a binade is what exactly the numbers from a quarter of a unit below to half a unit above it round to, both ends included. |
| FreeFormat.ShorterExactly | library/src/main/cpp/quickjs/dtoa.c:1193-1233 | For every double: if the nearest number with p digits does not convert back, some number with at most p digits does if and only if the next p-digit number above the nearest does. |
| FreeFormat.FreeDigitsShortest | library/src/main/cpp/quickjs/dtoa.c:1193-1233 | For every double: no shorter digits than those of the search convert back if and only if there is no q from 1 to 16 for which the nearest q-digit number does not convert back while the next one above does. |
| FreeFormat.FreeDigitsUnique | library/src/main/cpp/quickjs/dtoa.c:1184-1236 | The result of the search is determined by the double. |
| FreeFormat.FreeFormat10 | library/src/main/cpp/quickjs/dtoa.c:1184-1236 | The search with its trailing zeros dropped stops at the nearest number with p digits, where the attempts with p to 17 digits convert back and the one with p - 1 does not; no number with as many digits is closer; and p is the minimum exactly if no attempt is missed, always unless the double is the least of a binade. |
| FreeFormat.PowerOfTwoNotShortest | library/src/main/cpp/quickjs/dtoa.c:1193-1233 | The exception is real: for 2^-24 the search ends with the 17 digits 59604644775390625, although the 16 digits 5960464477539063 convert back. |
| DtoaOutput.U32toaLen | library/src/main/cpp/quickjs/dtoa.c:532-541 | The last digits of n, written in place from the end. |
| DtoaOutput.U32toa | library/src/main/cpp/quickjs/dtoa.c:590-603 | All decimal digits of n. |
| DtoaOutput.U64toa | library/src/main/cpp/quickjs/dtoa.c:616-645 | All decimal digits of a 64-bit number, in up to three blocks. |
| DtoaOutput.OutputDigits | library/src/main/cpp/quickjs/dtoa.c:847-888 | In radix 10: the last n1 digits of the bignum with the point at its place. |
| DtoaOutput.PutNumber | library/src/main/cpp/quickjs/dtoa.c:1277-1313 | In radix 10 and free format: the layout with an exponent, as a fraction, or with an integer part. |
| DtoaOutput.JsDtoa | library/src/main/cpp/quickjs/dtoa.c:1108-1318 | The text of every double in radix 10 and free format: the sign, the special values, integers as they are, else the digits of the search in their layout. |
| DtoaRoundTrip.ReadLayout | library/src/main/cpp/quickjs/dtoa.c:1277-1313 | Every layout is read as the number it was printed from. |
| DtoaRoundTrip.RoundTrip | library/src/main/cpp/quickjs/dtoa.c:1108-1318 | For every double: reading the text js_dtoa prints returns the same 64 bits; the sign of a zero is lost unless it is asked for. |
| AtodText.RadixBaseIs | library/src/main/cpp/quickjs/dtoa.c:702-720 | For radix 10 and the powers of two the tables of digits per limb and of their powers agree. |
| Atod.Mul1Base | library/src/main/cpp/quickjs/dtoa.c:1333-1351 | r = r * base + a, also for the base 2^32. |
| Atod.SkipZeros | library/src/main/cpp/quickjs/dtoa.c:1442-1459 | Reads the leading zeros and a point among them; what is left starts with another digit. |
| Atod.ScanSignificant | library/src/main/cpp/quickjs/dtoa.c:1461-1496 | Reads all further digits: the first ones into the bignum, the others only for being zero. |
| Atod.ReadSignificand | library/src/main/cpp/quickjs/dtoa.c:1442-1511 | After both loops the bignum holds the digits kept, with the lowest bit set for others in a power of two, and the offset places the point. |
| Atod.ReadExponent | library/src/main/cpp/quickjs/dtoa.c:1524-1554 | The signed exponent, or that it exceeds an int; fails without a digit. |
| JsAtod.AboveDecimal | library/src/main/cpp/quickjs/dtoa.c:1585-1586 | From 10^309 on everything is infinite. |
| JsAtod.BelowDecimal | library/src/main/cpp/quickjs/dtoa.c:1587-1588 | Below 10^-324 everything rounds to zero. |
| JsAtod.BinaryRounds | library/src/main/cpp/quickjs/dtoa.c:1507-1511 | In a power of two the digits kept and the sticky bit round to the double nearest to all digits. |
| JsAtod.RoundBinary | library/src/main/cpp/quickjs/dtoa.c:1572-1581 | Correct rounding for a power of two, cut-offs included. |
| JsAtod.RoundDecimal | library/src/main/cpp/quickjs/dtoa.c:1582-1590 | Correct rounding for radix 10, cut-offs included. |
| JsAtod.HugeExponent | library/src/main/cpp/quickjs/dtoa.c:1544-1562 | With up to 429 million digits, an exponent that exceeds an int decides rightly between zero and infinity. |
| JsAtod.JsAtod | library/src/main/cpp/quickjs/dtoa.c:1354-1620 | Every text: NaN, infinity, or the double nearest to its number, ties to even, with subnormal results, overflow and underflow, from all digits for a power of two and with the significant digits beyond the 38th taken for zeros for radix 10; an exponent that exceeds an int gives zero or infinity. The result is undefined if and only if a number the code keeps in an int does not fit. |
| Midpoints.BitsValueOf | library/src/main/cpp/quickjs/dtoa.c:1123-1165 | The number the bits stand for is that of the mantissa and the exponent they decode to. |
| Midpoints.NextBits | library/src/main/cpp/quickjs/dtoa.c:1591-1607 | The next bits stand for the next double, one unit in the last place higher, up to 2^1024 for infinity; the midpoint lies half way. |
| Midpoints.RoundedIffAround | library/src/main/cpp/quickjs/dtoa.c:970-1001 | A real number rounds to given bits if and only if it lies between the midpoints on the two sides of that double, with ties to even, for zero and infinity too. |
| Midpoints.RoundedInstead | library/src/main/cpp/quickjs/dtoa.c:1507-1511 | Rounding a smaller number t instead of y gives the double nearest to y if and only if no midpoint between neighbouring doubles has t and y on different sides. |
| DtoaLimits.CorrectExactly | library/src/main/cpp/quickjs/dtoa.c:1354-1620 | js_atod returns the double nearest to all digits of the text if and only if its int arithmetic does not overflow, the digits it does not read do not carry the number across a midpoint, and an exponent that exceeds an int is not made up for by the digits. |
| DtoaLimits.ShortTextSuffices | library/src/main/cpp/quickjs/dtoa.c:727-733 | With at most INT_MAX / 5 digits or an exponent below the limit these conditions hold: in a power of two always, in radix 10 with up to 38 digits followed by zeros. |
| DtoaLimits.DigitsBeyondTheLast | library/src/main/cpp/quickjs/dtoa.c:1480-1492 | 9007199254740993.00000000000000000000001 is read as 9007199254740992, although 9007199254740994 is nearest. |
| DtoaLimits.ExponentOverflows | library/src/main/cpp/quickjs/dtoa.c:1582-1584 | 0.00000000001e-2147483639 takes the exponent out of int. |
| DtoaLimits.LongExponentsFit | library/src/main/cpp/quickjs/dtoa.c:1582-1588 | 1e-2147483630 and 1e2147483630 do not; they are read as zero and infinity. |
| DtoaLimits.ZerosIgnored | library/src/main/cpp/quickjs/dtoa.c:1544-1562 | One tenth, written with 2147483640 zeros behind the point and the exponent 2147483640, is read as infinity. |
| DtoaLimits.ZerosIgnoredInBinary | library/src/main/cpp/quickjs/dtoa.c:1544-1562 | In radix 2 the same digits with the binary exponent 2147483640, one half, convert to infinity. |
| DtoaLimits.SixteenDigitsWouldDo | library/src/main/cpp/quickjs/dtoa.c:1193-1233 | js_dtoa prints 2^-24 as 5.9604644775390625e-8, and js_atod reads 5.960464477539063e-8 as the same double. |
| MessagePipe.NewPipeInv | library/src/main/cpp/quickjs/quickjs-libc.c:3484-3499 | A new pipe is empty, has one holder and no wake-up pending. |
| MessagePipe.StepKeepsInv | library/src/main/cpp/quickjs/quickjs-libc.c:2350-2404 | Every step of every thread keeps the reference count, the lock, the wake-up byte, the history and the order right. |
| MessagePipe.WakeUpPending | library/src/main/cpp/quickjs/quickjs-libc.c:3781-3787 | In every interleaving, whenever the lock is free a wake-up is pending if and only if the queue is not empty, and there is at most one byte. |
| MessagePipe.OwnerGoesOn | library/src/main/cpp/quickjs/quickjs-libc.c:2350-2404 | Whoever holds the lock can take its next step; reading the waker under the lock never waits. |
| MessagePipe.ReceivedInOrder | library/src/main/cpp/quickjs/quickjs-libc.c:2350-2404 | Messages are taken in the order they were queued, each at most once, and those of one sender in the order it posted them. |
| MessagePipe.ReleasedWithLastReference | library/src/main/cpp/quickjs/quickjs-libc.c:3501-3539 | The pipe is released exactly by the one who drops the last reference; afterwards no step is possible and every message was taken or freed. |
| MessagePipe.ReleaseGoesOn | library/src/main/cpp/quickjs/quickjs-libc.c:3519-3539 | A pipe without references is freed message by message until nothing is left. |
| MessagePipe.PerformsKeepsInv | library/src/main/cpp/quickjs/quickjs-libc.c:3484-3539 | Any sequence of steps of a thread keeps the invariant. |
| MessagePipe.Pipe.PostMessage | library/src/main/cpp/quickjs/quickjs-libc.c:3781-3787 | The body performs the four steps of the sender, and keeps the invariant. |
| MessagePipe.Pipe.HandlePostedMessage | library/src/main/cpp/quickjs/quickjs-libc.c:2350-2404 | The body performs the steps of the receiver and returns the first message, if there is one; the invariant holds again. |
| MessagePipe.Pipe.DupMessagePipe | library/src/main/cpp/quickjs/quickjs-libc.c:3501-3505 | The body adds a reference as one step of the thread, and keeps the invariant. |
| MessagePipe.Pipe.FreeMessagePipe | library/src/main/cpp/quickjs/quickjs-libc.c:3519-3539 | The body drops a reference; the last one frees the messages left, in order, and the pipe. |

## Left out

- RegexSpec.Compile: back references and named groups.
- RegexCaptures.FindAgrees: the captures that may be stale are read off the pattern; whether one is stale for some subject depends on the strings its branches match (`RegexStale.NeverStale`), and is not decided; for one subject `RegexTracking.FindExactly` is exact.
- RegexSpec.WellFormed: a repetition count of INT32_MAX means infinity, as in the code.
- RegexCompiler.Compiler.ParseTerm: the surface syntax; the parser's input is the pattern as a tree, so escapes, legacy octal, Annex B braces, group names and `\p{}` are not read.
- RegexCompiler.Compiler.ParseClass: class items are characters and ranges; predefined classes, `\q{}` strings and the set operations of the v flag are left out.
- RegexCompiler.LreCompile: the size limit is that of the finished code, not of the buffer while it grows; the flags are passed on uninterpreted, and no group names are appended.
- RegexMachine.Step: timeouts, memory errors and the stack overflow check; the state stack grows without bound.
- RegexExec.LreExec: the saved states are a sequence that is popped and pushed, not one block of memory that is reallocated.
- RegexOpcode.Encode: operands are stored little-endian, as on all targets of the library.
- CharSet.Canonicalize: the contents of the case tables; the table is any list of disjoint runs with a canonical form for each character, and full case conversion is not modelled.
- CharSet.CharRangeBuffer.RegexpCanonicalize: the set is not copied between temporary buffers, and allocation cannot fail.
- UnicodeTable.IsInTable: the bytes of the tables are a precondition, IndexOk: entries are positions between items where a run out of the set starts, the last one the end of the table.
- Sorting.Rqsort: the elements are values of any type, and exchanging two of them is one operation instead of a loop over bytes.
- Limbs.Div1norm: source and target are the same array, which the code needs when it shifts the divisor.
- FreeFormat.FreeFormat10: radix 10 only; the fixed and fractional formats, `js_dtoa_max_len` and the other 34 radixes are left out.
- DtoaOutput.JsDtoa: radix 10 and free format only; the text is a growing string instead of a buffer whose size the caller has computed.
- DtoaOutput.OutputDigits: radix 10 only; the loop for the powers of two and the other entries of the table of digits per limb are left out.
- DtoaOutput.PutNumber: radix 10 and free format only, so that the marker of the exponent is `e` and the number of digits that of the search.
- RadixLog.MulLog2Radix: the constants for radixes that are neither 10 nor a power of two.
- JsAtod.JsAtod: no flags (underscores, legacy octal, binary and octal prefixes, integers only), an explicit radix of 10, 2, 4, 8, 16 or 32, and where reading stopped only for texts that are numbers.
- AtodText.RadixBaseIs: the entries for the radixes that are neither 10 nor a power of two.
- MessagePipe.Apply: writing the wake-up byte succeeds, a message is opaque and its shared buffers are not counted, and what the handler does with it is not modelled; testing the queue and the step that follows it under the same lock are one step.
- MessagePipe.Pipe.PostMessage: the class performs a whole call without other threads in between; the interleavings are those of the state machine.
- Unicode normalisation, scripts and general categories, the engine itself, files, processes and polling, and the Kotlin code around the library: network requests, page scraping, caches and the choice of formats.
