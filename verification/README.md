# A verified model of the QuickJS engine parts behind the Go binding

The repository wraps the QuickJS engine for Go. The hard parts are in the C files beside the wrapper, and those are what
this project models and proves, with the handle store of the Go layer:

- **Regular expressions** (`libregexp.c`). The compiler appends to, shifts, copies, rotates and patches a byte buffer; the
  interpreter runs the bytes with an explicit stack of choice points. The main theorem is that compiling a pattern and
  running it gives the first result of an ordered-choice reference matcher (`RegexReference.Matches`), for every pattern
  and text and, exactly, for every start position on a character boundary. It covers the greedy fast path, the
  zero-advance analysis and the stack-depth analysis; that no run gets stuck or leaves its stack is proved from every
  start index.
  Captures are reset once before a loop, as the code does, and not on each iteration, as RepeatMatcher in section
  22.2.2.3.1 of ECMA-262 (14th edition) asks; the reference matcher follows the code.
- **Numbers** (`dtoa.c`). Limb arithmetic in place, division by a precomputed inverse, one sticky bit for a chain of
  truncated divisions, rounding to a double, parsing of decimal literals, the search for the shortest digits, output in
  every layout and with a given number of digits. Doubles are bit patterns whose value is a whole number of units of 2^-1074
  (`Doubles.Units`); "nearest" is stated against every other pattern (`Doubles.NearestEven`), not by the algorithm.
- **Character sets and tables** (`libunicode.c`, `libunicode.h`). Set algebra on sorted boundary points, the image of a set
  under case canonicalisation, run-length tables with an index, and canonical ordering. Tables are arbitrary data that
  meet a well-formedness predicate.
- **Sorting** (`cutils.c`). The quicksort with its explicit stack, the heapsort fallback and the insertion sort.
- **Protocols** (`quickjs-libc.c`, `list.h`, `go-ptr-id.go`). The worker message pipe on its circular list, with
  its waker and the counts of the pipe and of shared buffers, as a state machine over the steps of all threads; and the
  store of numbered handles.

## How to read it

Code that updates memory is a class or a method with a loop; what it computes is a function or a relation beside it, and
the theorems are about those. The files build on each other in this order.

| part | files |
|---|---|
| bytes and text | `Bytes`, `CharSets`, `RegexCode`, `RegexText` |
| patterns, their code and their meaning | `RegexSyntax`, `RegexReference`, `RegexMeaning` |
| the machine and the proof | `RegexMachine`, `RegexAnalysis`, `RegexSimple`, `RegexDepth`, `RegexFragments`, `RegexLoops`, `RegexGreedy`, `RegexCorrect`, `RegexTheorem`, `RegexProgram`, `RegexOffBoundary`, `RegexJumps`, `RegexSafety` |
| the C routines of the compiler and the interpreter | `RegexScans`, `RegexCompiler`, `RegexExec` |
| big numbers | `Powers`, `Limbs`, `Division`, `Rounding`, `Bignum`, `RadixPower` |
| doubles and decimals | `Doubles`, `ToDouble`, `Decimals`, `Shortest`, `FreeFormat`, `FixedFormat`, `Atod`, `Printing`, `Notation`, `RoundTrip` |
| Unicode | `CharRanges`, `CaseTables`, `CaseMeaning`, `CaseFolding`, `RunFormat`, `RunTables`, `Ordering` |
| sorting | `Sorting` |
| protocols | `MessagePipe`, `ListRing`, `PtrStore` |

`dafny verify dfyconfig.toml` checks everything.

Some promises hold only under a condition, which is proved to be exact:

- Compiled patterns are answered as by the reference matcher from a position if and only if it is a character boundary
  (`RegexOffBoundary.AnsweredIff`). A match in Unicode mode may be asked to start between the halves of a surrogate pair.
  Backward code steps to the first half and then reads the whole pair, so the look-behind for that half fails; and the
  greedy fast path gives back to the first half, before the start (`RegexGreedy.GiveBackReturns`,
  `RegexOffBoundary.GroupBeforeMatch`).
- The free-format search finds the fewest digits if and only if at none of its precisions the double lies in a window
  between two decimals (`Shortest.InWindow`, `FreeFormat.FreeFormatDigits`). Only powers of two above the smallest normal
  number, whose neighbours are not equally far, can lie there; 2^-44 does (`FreeFormat.PowerOfTwoNotShortest`). The
  digits read back in any case.
- A literal gives the nearest double if and only if the 32-bit arithmetic on its exponent does not wrap (`Atod.JsAtod`).
  It wraps only for exponents of ten digits or more that do not saturate (`Atod.WrapExample`).
- A fresh handle is the least free positive number if and only if fewer than 2^32 - 1 values are alive
  (`PtrStore.FreshIdExists`, `PtrStore.FullStoreWraps`, `PtrStore.NextKeeps`).
- An interval is added to a set if and only if its end is below 2^32 - 1 (`CharRanges.CharRange.UnionInterval`).

## Model

| member | source | states |
|---|---|---|
| `RegexProgram.CompilerCorrect` | libregexp.c:1406-1675 | for every pattern, text and start position on a character boundary, the machine run on the compiled bytes halts, and with exactly the answer of the ordered-choice reference matcher: no match, or the captures of its first match |
| `RegexOffBoundary.AnsweredIff` | libregexp.c:2416-2453 | from a position of a text every compiled pattern is answered as by the reference if and only if the position is a character boundary; off one, the look-behind for the half before it is not found |
| `RegexOffBoundary.GroupBeforeMatch` | libregexp.c:2049-2071 | a run that differs, for every text that ends in a surrogate pair and a start inside it: the group of .?(.) begins before the match, and not at its start as the reference has it |
| `RegexSafety.RunSafe` | libregexp.c:1999-2411 | in every state of every run, from every start index, the machine is not stuck, its positions lie in the text, and its stack is as deep as the linear scan says for its pc, so never deeper than the size in the header; from a character boundary the run ends |
| `RegexSafety.StepSafe` | libregexp.c:2077-2411 | every step keeps that: a fall-through or jump goes to an instruction at the depth of the stack, and greedy entries can always be given back |
| `RegexJumps.CodeSound` | libregexp.c:1119-1675 | every jump of emitted code lands on an instruction of its fragment, or right behind it, at the stack depth it left with; the groups it saves exist |
| `RegexJumps.CodeCounted` | libregexp.c:1535-1568 | at every emitted loop instruction there is a counter on the stack |
| `RegexProgram.SearchMeaning` | libregexp.c:1756-1766 | from every start index a search answers no match exactly when no character position from there on has one, and otherwise with the first match at the first one that has |
| `RegexTheorem.NodeRuns` | libregexp.c:1406-1675 | the code of every pattern, wherever it sits in a program, enumerates the matches of the pattern in order and gives up the rest of its state stack untouched |
| `RegexTheorem.LookYields` | libregexp.c:2123-2134 | a look-around is atomic: the first match of its body decides, and its choice points are dropped with the marker on the state stack |
| `RegexTheorem.CatRuns` | libregexp.c:1609-1641 | sequences, in both directions: a term met while matching backward is tried after the terms to its right |
| `RegexTheorem.AltRuns` | libregexp.c:1643-1675 | alternatives are tried in order, through the chain of split and goto |
| `RegexTheorem.QuantRuns` | libregexp.c:1467-1597 | every shape of quantifier code, with inserted and copied atoms, enumerates the matches of the quantifier |
| `RegexTheorem.CaptureRuns` | libregexp.c:2171-2176 | a group records both ends of its match, exchanged when matching backward |
| `RegexLoops.StarDoes` | libregexp.c:1521-1534 | an unbounded loop enumerates zero or more iterations, greedy or lazy |
| `RegexLoops.UpToDoes` | libregexp.c:1535-1551 | a counted loop on the machine stack enumerates up to n iterations |
| `RegexLoops.TimesDoes` | libregexp.c:1557-1568 | a counted loop enumerates exactly n iterations |
| `RegexLoops.PlusDoes` | libregexp.c:1552-1555 | one or more iterations by a jump back, when the atom always advances |
| `RegexLoops.CheckedBodyDoes` | libregexp.c:2208-2214 | an iteration that does not move is dropped |
| `RegexGreedy.GreedyDoes` | libregexp.c:2364-2406 | simple_greedy_quant arrives at exactly the ends of the generic greedy loop, in the same order and with the same captures |
| `RegexGreedy.GreedyMatches` | libregexp.c:1470-1494 | for a fixed-length atom the matches of the greedy quantifier are the ends after the largest count of iterations, then one less, down to the minimum |
| `RegexGreedy.GiveBackReturns` | libregexp.c:2049-2071 | giving back an iteration of any simple atom returns to where it began if and only if that was a character boundary, and to the start of the character there otherwise |
| `RegexText.PrevUndoesNext` | libregexp.c:1830-1912 | stepping back undoes reading a character if and only if reading began on a character boundary |
| `RegexText.BackwardUndoesForward` | libregexp.c:1830-1912 | n characters back undo n characters forward from a boundary |
| `RegexText.BackReturnsIff` | libregexp.c:1830-1912 | for every n of at least one, n characters forward and n back return to the start if and only if it was a boundary |
| `RegexAnalysis.AdvanceSound` | libregexp.c:878-928 | where the zero-advance check is omitted no match of the atom ends where it began |
| `RegexAnalysis.CharTestCorrect` | libregexp.c:748-784 | the instruction emitted for a class, a character or a dot accepts a character exactly when the pattern does |
| `RegexAnalysis.Range16Correct` | libregexp.c:2281-2320 | the 16-bit range instruction, with 0xffff as infinity, accepts c exactly when c is in the set |
| `RegexAnalysis.Range32Correct` | libregexp.c:2321-2357 | the 32-bit range instruction accepts c exactly when c is in the set |
| `RegexSimple.SimpleSound` | libregexp.c:932-969 | code that passes the simple-quantifier test has at most one match, of a fixed number of characters, and no captures |
| `RegexDepth.CodeBalanced` | libregexp.c:1678-1720 | the code of every pattern leaves the stack as deep as it found it |
| `RegexDepth.DepthBelowMax` | libregexp.c:1678-1720 | the depth at every instruction is at most the maximum the scan returns |
| `RegexDepth.MaxDepthReached` | libregexp.c:1678-1720 | and some address has that depth |
| `RegexCode.DecodeEncode` | libregexp.c:317-339 | decoding undoes encoding for every instruction, wherever it sits |
| `RegexCode.AssembledCodeAt` | libregexp.c:317-339 | assembled code is found again instruction by instruction |
| `RegexCorrect.CompareForwardIsAgain` | libregexp.c:2237-2280 | the forward back-reference loop accepts exactly a case-folded copy of the group |
| `RegexCorrect.CompareBackwardIsAgain` | libregexp.c:2237-2280 | so does the backward one, which compares from the end |
| `RegexScans.ReIsSimpleQuantifier` | libregexp.c:932-969 | the byte-level scan computes the length of simple code, or -1 |
| `RegexScans.ReNeedCheckAdvance` | libregexp.c:878-928 | the byte-level scan decides whether the check is needed |
| `RegexScans.ComputeStackSize` | libregexp.c:1678-1720 | the byte-level scan returns the largest depth, or fails exactly beyond the limit |
| `RegexCompiler.Compiler.Insert` | libregexp.c:116-123 | inserting a gap keeps the bytes before and after it |
| `RegexCompiler.Compiler.EmitRange` | libregexp.c:748-784 | appends the class instruction, or reports too many ranges |
| `RegexCompiler.Compiler.EmitQuantifier` | libregexp.c:1467-1597 | turns the bytes of an atom into those of its quantifier by insertion, copying and patching |
| `RegexCompiler.Compiler.CompileCat` | libregexp.c:1609-1641 | emits a sequence; matching backward, each term is rotated in front of those before it |
| `RegexCompiler.Compiler.RotateTerm` | libregexp.c:1626-1638 | the rotation of the last term to the front |
| `RegexCompiler.Compiler.CompileAlt` | libregexp.c:1643-1675 | inserts the split before the left alternative and patches the goto over the right one |
| `RegexCompiler.Compiler.CompileLook` | libregexp.c:1187-1217 | emits a look-around and patches its jump |
| `RegexCompiler.Compiler.CompileCapture` | libregexp.c:1235-1259 | emits a group between its save instructions, or reports too many groups |
| `RegexCompiler.Compiler.CompileNode` | libregexp.c:1119-1607 | the bytes appended are the assembled code of the pattern; it fails exactly when a class has too many ranges or there are too many groups |
| `RegexCompiler.LreCompile` | libregexp.c:1726-1815 | the whole program and its stack size and group count, or the right error |
| `RegexExec.SearchPairs` | libregexp.c:2294-2316 | the binary search finds a pair that holds c if there is one, and its unsigned indices never underflow |
| `RegexExec.RunAtom` | libregexp.c:2378-2393 | running an atom without recursion is running its straight-line code |
| `RegexExec.MatchBack` | libregexp.c:2237-2280 | the back-reference loops |
| `RegexExec.Interpreter.DoGreedy` | libregexp.c:2364-2406 | counts iterations, then leaves one entry that gives them back |
| `RegexExec.Interpreter.Unwind` | libregexp.c:2028-2085 | one round of unwinding is one step of the machine: split, greedy and look-around entries |
| `RegexExec.LreExec` | libregexp.c:2416-2453 | executing a compiled program returns what the run of the machine ends with and, from a character boundary, the captures of the reference answer |
| `RegexMeaning.WordBoundaryMeaning` | libregexp.c:2215-2236 | \b matches exactly where one of the look-behind and the look-ahead for the class of digits, ASCII letters and the underscore succeeds and the other fails, without case folding; \B matches elsewhere |
| `RegexMeaning.LineStartMeaning` | libregexp.c:2141-2149 | ^ matches at the start of the text and, with several lines, exactly where the look-behind for 10, 13, 0x2028 or 0x2029 succeeds |
| `RegexMeaning.LineEndMeaning` | libregexp.c:2150-2158 | $ matches at the end of the text and, with several lines, exactly where the look-ahead for one of them succeeds |
| `RegexMeaning.DotMeaning` | libregexp.c:2159-2170 | the dot has the matches of the class of all characters, or of all but those four |
| `RegexMeaning.CharMeaning` | libregexp.c:2087-2103 | a character matches, forward or backward, exactly when the next one is the same or, ignoring case, has the same canonical form |
| `RegexMeaning.ClassMeaning` | libregexp.c:2281-2357 | a class matches exactly when the next character or, ignoring case, its canonical form lies in one of its intervals |
| `RegexMeaning.ReadMeaning` | libregexp.c:1830-1861 | the units passed in reading a character are its UTF-16 encoding (D91 in section 3.9 of the Unicode Standard); two are passed exactly for a high and a low surrogate in UTF-16 mode |
| `RegexMeaning.ReadBackMeaning` | libregexp.c:1863-1912 | the same for reading backward |
| `RegexMeaning.DecodeEncoded` | libregexp.c:1830-1845 | reading the encoding of any sequence of scalar values gives back the sequence |
| `RegexMeaning.MatchFrame` | libregexp.c:2171-2190 | a match of any pattern changes no group but those of the pattern |
| `RegexMeaning.CaptureMeaning` | libregexp.c:2171-2176 | every match of a group has set it to the part of the text matched, in either direction |
| `RegexMeaning.GroupsInOrder` | libregexp.c:1235-1259 | of two groups in a row the first has the lower number, and the second starts where the first ends, in either direction |
| `RegexMeaning.SkipMeaning` | libregexp.c:1509-1520 | a quantifier with minimum 0 can be matched by no iteration, as the last choice if greedy and the first if lazy; then every group inside is unset and the others are unchanged |
| `RegexMeaning.QuantifierForgets` | libregexp.c:1509-1520 | what the groups inside held before makes no difference to the matches of such a quantifier |
| `RegexMeaning.BackRefMeaning` | libregexp.c:2237-2280 | when case counts and units are characters, a back reference matches exactly the units of its group, behind or before the position; an unset group matches the empty text and one that does not exist nothing |
| `Limbs.MpAddUi` | dtoa.c:75-89 | adds a limb in place; value and carry |
| `Limbs.MpMul1` | dtoa.c:92-104 | multiplies in place by a limb; value and carry |
| `Limbs.MpDiv1` | dtoa.c:137-148 | schoolbook division by a limb; quotient and remainder |
| `Limbs.MpShr` | dtoa.c:152-166 | shift to the right with the bits shifted out |
| `Limbs.MpShl` | dtoa.c:170-184 | shift to the left with the bits shifted out |
| `Division.Udiv1normExact` | dtoa.c:107-135 | the division by a precomputed inverse, in wrapping arithmetic, is exact for every a1 < d and every normalised d |
| `Division.MpDiv1norm` | dtoa.c:186-199 | in place and with any shift it computes the quotient limbs and the remainder of the schoolbook division |
| `Rounding.RoundDivUnique` | dtoa.c:294-298 | rounding to nearest even is the only integer within half, and even on a tie |
| `Rounding.RoundSticky` | dtoa.c:313-398 | rounding a quotient with a sticky bit, at least two bits above it, rounds the exact quotient |
| `Bignum.Mpb.Renorm` | dtoa.c:214-218 | drops leading zero limbs and keeps the value |
| `Bignum.Mpb.GetBit` | dtoa.c:300-310 | the bit of the value, zero beyond the last limb |
| `Bignum.Mpb.ShrRound` | dtoa.c:313-398 | the value, zero included, divided by 2^shift, exactly rounded in every mode, or multiplied |
| `Bignum.Mpb.FloorLog2` | dtoa.c:448-456 | the position of the highest bit |
| `Bignum.Mpb.MulAdd` | dtoa.c:1333-1351 | multiplies by the limb base and adds the next digits |
| `RadixPower.PowUi` | dtoa.c:242-269 | the power, from the tables or by squaring, without leaving 64 bits |
| `RadixPower.PowUiInv` | dtoa.c:271-292 | the normalised power, its shift and its inverse; the tables agree with the computation |
| `RadixPower.MulPow` | dtoa.c:893-956 | an exact product, or a quotient with a sticky bit and at least two extra bits |
| `RadixPower.MulPowRound` | dtoa.c:959-967 | the exactly rounded integer of m * 2^e * radix^f for every sign of e and f, every radix and every mode |
| `Doubles.GridNearest` | dtoa.c:970-1001 | rounding on the grid of the binade of a number is rounding to the nearest double, ties to even (section 4.3.1 of IEEE 754-2019) |
| `Doubles.NearestEvenUnique` | dtoa.c:970-1001 | a number has only one nearest double |
| `ToDouble.RoundToD` | dtoa.c:970-1001 | rounds to 53 bits, or to fewer for a subnormal result, with the carry out of the significand |
| `ToDouble.EncodeIsPattern` | dtoa.c:1591-1607 | the final encoding, with its overflow, underflow and subnormal branches, gives the bit pattern of the rounded number |
| `ToDouble.MulPowRoundToD` | dtoa.c:1006-1013 | the significand and exponent are those of the exact product or quotient rounded once |
| `ToDouble.RoundedNearest` | dtoa.c:1591-1607 | what is rounded on its grid and encoded is the nearest double |
| `Decimals.EstimateExact` | dtoa.c:474-488 | the fixed-point estimate of the decimal exponent is exact for every binary exponent of a double |
| `Shortest.SeventeenDigitsRead` | dtoa.c:1193-1215 | seventeen digits read back without a check |
| `Shortest.TriedNearest` | dtoa.c:1196-1207 | the decimal tried is the nearest of all decimals with that many digits |
| `Shortest.TriedMisses` | dtoa.c:1196-1232 | some decimal of at most p digits reads back and the one tried does not, if and only if the double is more than half its lower gap above the one tried and the next decimal up is within half its upper gap |
| `Shortest.TriedReads` | dtoa.c:1208-1232 | so never for a double that is no power of two above the smallest normal number |
| `Shortest.TriedIsFirstFit` | dtoa.c:1198-1207 | whatever good estimate it starts from, the search tries the first exponent at which p digits are enough |
| `FreeFormat.FreeFormatDigits` | dtoa.c:1182-1236 | ends for every finite positive double with digits that read back as it, nearest to it of all decimals with as many; no decimal with fewer digits reads back, if and only if the search misses with none of 1 to 16 digits, so always unless the double is a power of two (section 6.1.6.1.20 of ECMA-262, 14th edition) |
| `FreeFormat.PowerOfTwoNotShortest` | dtoa.c:1184-1236 | for 2^-44 the search misses with sixteen digits: a decimal of sixteen digits reads back, but the one tried does not |
| `FreeFormat.TryDigits` | dtoa.c:1196-1207 | at most one step of the exponent is needed, and the digits then have the right number |
| `FreeFormat.DropZeros` | dtoa.c:1208-1212 | dropping trailing zeros keeps the decimal |
| `FreeFormat.ReadBack` | dtoa.c:1216-1222 | the comparison of significand and exponent decides whether the digits read back as the double |
| `FreeFormat.Split` | dtoa.c:1123-1165 | a double as a 53-bit significand and an exponent, subnormal ones included |
| `FreeFormat.PrintFits` | dtoa.c:64-65 | in free format no step needs more than 52 limbs, the carry limb of a shift included |
| `FreeFormat.FixedFits` | dtoa.c:1262-1276 | with up to 101 digits no step needs more than 52 limbs, nor the bound radix^digits more than 18 |
| `FreeFormat.FractionFits` | dtoa.c:1245-1248 | the same with up to 101 digits after the dot |
| `FreeFormat.ReadFits` | dtoa.c:1006-1013 | the same for every parsed number |
| `FixedFormat.FixedDigits` | dtoa.c:1262-1276 | with p digits, up to 101: the exactly rounded integer of x * 10^(p - E), ties away from zero, with exactly p digits after at most one step of the exponent |
| `FixedFormat.PowerOfTen` | dtoa.c:1264-1268 | the bound radix^p, within its 18 limbs |
| `FixedFormat.MpbCmp` | dtoa.c:401-417 | the order of two numbers without leading zeros |
| `Atod.SkipZeros` | dtoa.c:1442-1459 | passes the leading zeros and a dot among them |
| `Atod.ScanDigits` | dtoa.c:1461-1496 | collects the first 38 significant digits, nine to a limb, and passes the others |
| `Atod.ScanExponent` | dtoa.c:1513-1563 | the signed exponent, or that it has reached 2147483640, from where on it is not followed |
| `Atod.Convert` | dtoa.c:1582-1607 | infinity and zero beyond the cut-offs are the nearest doubles, and in between the conversion is exact |
| `Atod.JsAtod` | dtoa.c:1354-1620 | a decimal literal at the start of a string under 2^30 characters, up to a character that does not continue it, gives the double nearest to its value with the digits after the first 38 significant ones as zeros, ties to even, with its sign, if and only if the 32-bit arithmetic on its exponent does not wrap; a sign and the word Infinity at the start give infinity; the result is NaN if and only if the string starts with neither |
| `Atod.LiteralScans` | dtoa.c:1440-1566 | what the scan has read when it succeeds is a literal at the start of the string, up to a character that does not continue it |
| `Atod.NothingDropped` | dtoa.c:1488-1510 | with at most 38 significant digits that value is the exact value |
| `Atod.WrapExample` | dtoa.c:1583-1584 | an exponent that wraps: 0.00000000001e-2147483639 |
| `RoundTrip.PrintAndParse` | dtoa.c:1108-1318 | every double that is a number, of either sign, zero and infinity included, printed in free format in any of the three exponent modes and parsed, comes back; the sign of zero does if it is printed |
| `RoundTrip.JsDtoa` | dtoa.c:1108-1318 | a positive double is printed with an exponent in the mode Auto if and only if the decimal printed is below 10^-6 or at least 10^21, in Always it is and in Never it is not; the double itself is on the same side of either power, or below 10^-6 and printed as 10^-6; the exponent has a sign, and without one the dot stands where the exponent says, with the zeros that takes |
| `Notation.Thresholds` | dtoa.c:1282-1284 | the comparisons of the decimal exponent with -6 and 21 compare the decimal printed with 10^-6 and 10^21, and the double with them |
| `Notation.TextOfLayout` | dtoa.c:1282-1313 | with an exponent: one digit, the others behind a dot, e, a sign and the exponent; without: 0. and zeros, or a dot inside, or zeros behind and no dot |
| `RoundTrip.IntegerPrinted` | dtoa.c:1168-1178 | the fast path for integers below 2^53 prints what the search would: the digits, without trailing zeros, read back, and no decimal with fewer does |
| `Printing.OutputDigits` | dtoa.c:847-890 | takes nine digits at a time off the limbs and moves the last ones for the dot |
| `Printing.U64Toa` | dtoa.c:616-643 | a 64-bit number in decimal without leading zeros, in pieces of nine digits |
| `Printing.LayoutMeaning` | dtoa.c:1278-1313 | every layout is a literal of the number it was made for, and parsing it wraps nothing |
| `CharRanges.CharRange.Compress` | libunicode.c:433-459 | in place: the same set, strictly increasing and of even length |
| `CharRanges.CharRange.Op` | libunicode.c:462-512 | appends the set of the characters in one of two sets, in both, or in exactly one, above the points that are there, in normal form |
| `CharRanges.CharRange.Union1` | libunicode.c:514-524 | the union with a set |
| `CharRanges.CharRange.UnionInterval` | libunicode.h:78-84 | adds an interval, both ends included, if and only if its end is below 2^32 - 1 |
| `CharRanges.CharRange.Invert` | libunicode.c:526-538 | the complement in [0, 2^32 - 1), in normal form |
| `CharRanges.ContainsIsOdd` | libunicode.c:462-512 | a character is in a sorted set exactly when an odd number of points is not above it |
| `CharRanges.NormalUnique` | libunicode.c:433-459 | equal sets have equal lists of points |
| `CharRanges.DoubleInversion` | libunicode.c:526-538 | inverting twice gives back the same list |
| `CaseTables.Canonicalize` | libunicode.c:227-261 | the binary search of the case table finds the run of a character |
| `CaseTables.CanonicalUnique` | libunicode.c:227-261 | a character has one canonical form |
| `CaseTables.UnaffectedFixed` | libunicode.c:59-149 | what the mask of a run kind does not select, folding leaves alone, in both modes |
| `CaseMeaning.AlternatingPair` | libunicode.c:76-80 | in an alternating run a letter and the one behind it have one form: the lower case one in Unicode mode, the upper case one otherwise |
| `CaseMeaning.AlternatingForms` | libunicode.c:76-80 | two letters of such a run have the same form if and only if they are one pair |
| `CaseMeaning.ThreeCases` | libunicode.c:81-86 | the upper, title and lower case letters of a run of three have one form |
| `CaseMeaning.ShiftedRun` | libunicode.c:67-75 | a run with its other case in another row is shifted as a whole to the start of that row |
| `CaseMeaning.ShiftedNeighbours` | libunicode.c:67-75 | so neighbours go to neighbours |
| `CaseMeaning.UnshiftedRun` | libunicode.c:67-75 | runs of the other case are left alone |
| `CaseMeaning.SpecialRun` | libunicode.c:87-127 | the runs that say where their characters go, by a field or by an entry of the extension table |
| `CaseMeaning.SeveralRun` | libunicode.c:190-226 | a character that converts to several is its own form, but for three pairs in Unicode mode |
| `CaseMeaning.OutsideRuns` | libunicode.c:227-261 | a character of no run is its own form |
| `CaseMeaning.AsciiForms` | libunicode.c:227-241 | two ASCII characters have the same form if and only if they are the same or one letter in two cases |
| `CaseMeaning.MaskMeaning` | libunicode.c:540-565 | where the entries a run names differ from its characters, the mask selects a character if and only if one of its conversions changes it |
| `CaseFolding.UnicodeCase1` | libunicode.c:549-610 | the set of the characters that the mask selects |
| `CaseFolding.SortIntervals` | libunicode.c:619-625 | the same intervals sorted by their start |
| `CaseFolding.RemoveOverlap` | libunicode.c:626-653 | in place: the same set as sorted, separate intervals |
| `CaseFolding.FoldAll` | libunicode.c:686-718 | the images of the selected characters, merged where they are consecutive |
| `CaseFolding.RegexpCanonicalize` | libunicode.c:657-739 | the set becomes exactly the image of the set under canonicalisation, in both modes, for every well-formed table whose ASCII rows agree with the fast path |
| `RunTables.UnicodeProp1` | libunicode.c:1453-1498 | decodes the table into the set of its runs; for every list of run lengths packed by three and three bits, seven, thirteen or twenty-one, that is the set of the characters in every second run |
| `RunTables.GetIndexPos` | libunicode.c:271-302 | a decoder boundary not above the character, or -1 beyond the table |
| `RunTables.IsInTable` | libunicode.c:304-345 | lookup through the index agrees with decoding the whole table; for every packed list of run lengths it holds exactly for the characters in every second run |
| `RunTables.PackedMember` | libunicode.c:316-323 | the set of a packed table is the set of the characters in every second run |
| `RunTables.PackedIndexOk` | libunicode.c:263-302 | the index made of the first items in each block of 32 bytes after an even number of runs, 21 bits of character and 3 of offset in little-endian order, is a correct index |
| `RunTables.WalkKeeps` | libunicode.c:304-345 | from any boundary on the way, membership is decided as from the start |
| `Ordering.SortCc` | libunicode.c:1088-1122 | the canonical order: starters stay, every run between them is sorted stably by class (D109 in section 3.11 of the Unicode Standard) |
| `Ordering.CanonicalOrderUnique` | libunicode.c:1088-1122 | a string has only one canonical order |
| `Sorting.RqSort` | cutils.c:514-631 | a sorted permutation for every total preorder and every length; the largest number of pending segments is at most 50 |
| `Sorting.Partition` | cutils.c:544-601 | a permutation of the segment into elements below, equal to and above the pivot |
| `Sorting.Scan` | cutils.c:549-575 | the two cursors leave equal elements at both ends |
| `Sorting.MoveEqual` | cutils.c:586-601 | the two block swaps bring the equal elements to the middle |
| `Sorting.SplitSegment` | cutils.c:608-623 | the larger part is stacked, the smaller one is processed next |
| `Sorting.Med3` | cutils.c:506-511 | the position of the median |
| `Sorting.HeapSort` | cutils.c:472-504 | a sorted permutation of the segment |
| `Sorting.SiftDown` | cutils.c:482-491 | restores the heap below one element |
| `Sorting.InsertionSort` | cutils.c:625-629 | a sorted permutation of the segment |
| `MessagePipe.Pipe.PostMessage` | quickjs-libc.c:3654-3665 | signals if the queue was empty, then links the message at the end of the ring; the waker holds a byte exactly when the queue is not empty |
| `MessagePipe.Pipe.HandlePostedMessage` | quickjs-libc.c:2226-2245 | unlinks the first message of the ring, and clears the waker after the last one |
| `MessagePipe.StepsAreSafe` | quickjs-libc.c:3333-3417 | no step of any thread touches the count of a buffer that has been freed, nor the pipe once its last reference is given back |
| `MessagePipe.StepKeeps` | quickjs-libc.c:3362-3417 | every step of every thread keeps the invariant: the counts of the pipe and of the buffers are the numbers of references to them |
| `MessagePipe.RunPromises` | quickjs-libc.c:2226-2280 | under every interleaving: first in, first out; nothing is discarded while there is a reference to the pipe; until then waker and queue agree; the buffers of queued messages are alive |
| `MessagePipe.NothingLeaks` | quickjs-libc.c:3385-3417 | with an empty queue and no thread at work, every reference left is one of the engine |
| `MessagePipe.FreeMessage` | quickjs-libc.c:3385-3395 | gives back exactly the references of the message |
| `MessagePipe.FreePipe` | quickjs-libc.c:3397-3417 | gives back exactly the references of what is still queued |
| `ListRing.InitListHead` | list.h:41-45 | a ring of the head alone |
| `ListRing.ListAddTail` | list.h:63-67 | the ring with the element at its end |
| `ListRing.ListDel` | list.h:69-78 | the ring without the element |
| `ListRing.ListEmpty` | list.h:80-83 | whether the ring has no element |
| `PtrStore.Store.Register` | go-ptr-id.go:69-88 | counts a known value once more, or gives a new one the first free id after the index in the order of the wrapping increment |
| `PtrStore.Store.Lookup` | go-ptr-id.go:90-97 | the value behind an id exactly when it is taken |
| `PtrStore.Store.Remove` | go-ptr-id.go:99-115 | counts once less; the last removal frees the id and moves the index below it |
| `PtrStore.NextKeeps` | go-ptr-id.go:69-115 | all ids up to the index stay taken and 0 stays free, if and only if no new value is registered with every positive id taken |
| `PtrStore.MapsKept` | go-ptr-id.go:69-115 | in any case the maps stay inverse and counts positive |
| `PtrStore.CountsBalance` | go-ptr-id.go:69-115 | over every run the count of a value is its registrations minus its removals |
| `PtrStore.IdsWithinPeak` | go-ptr-id.go:69-115 | over every run ids never exceed the peak number of live values, and 0 is handed out only once 2^32 values were alive |
| `PtrStore.FreshIdExists` | go-ptr-id.go:79-84 | a new value gets a positive id, the least free one, if and only if fewer than 2^32 - 1 values are alive |
| `PtrStore.FullStoreWraps` | go-ptr-id.go:79-84 | in every full store, whatever its index, a new value gets the id 0 |

## Left out

- Pattern syntax (escapes, Annex B fallbacks, named groups): the compiler starts from a parsed pattern.
- Allocation failure, interrupt polling, stack-overflow callbacks and error messages: allocation succeeds and there is no timeout.
- Case folding of single characters in regular expressions is an arbitrary function there; the Unicode part gives one by tables.
- The bytes that an insertion leaves in its gap before they are written are arbitrary only until the caller fills them; the model writes them at once.
- Regular expression programs are taken to be shorter than 2^31 bytes, so that relative jumps fit their operand.
- RegexProgram.CompilerCorrect: takes a start on a character boundary; that this is exactly when every pattern is answered is RegexOffBoundary.AnsweredIff.
- RegexExec.LreExec: from a start between the halves of a pair it asks that the run of the machine ends, because only the safety of such runs is proved and not their end.
- Radices other than ten in the digit search and in parsing: the rounding routines are proved for every radix, the string layer for ten.
- Printing NaN; underscores between digits, prefixes and integer-only parsing; how far parsing had come when the result is NaN.
- Output with digits after the dot: only the exact rounding of the number and the size of the buffer.
- CharRanges.CharRange.Op: promises nothing when a point of the receiver is above one to be appended, or the points are out of order.
- The shift of a zero significand by 64 bits or more in round_to_d, which C leaves undefined: the model's shift gives zero.
- NFC and NFKC composition, script extensions, property names and the contents of the generated tables.
- The bit fields of a row of the case table: a row is given by its fields.
- Conversions of one character to several, which case folding of sets does not use.
- The message pipe on Windows, and write or read errors of the waker: a write succeeds.
- MessagePipe.RunPromises: the value that is being sent is taken to stay alive until its references are counted, and a thread to use the pipe only while it holds a reference to it.
- PtrStore.Store.Register: asks for a known value or a free id; with all 2^32 ids taken the loop of the source does not end.
- The clear method of the store, after which the maps are gone, and the table of stores by context.
- The Go wrapper, the engine behind it and the operating-system parts of `quickjs-libc.c`.
