# Models of the engine libraries

The project models five components and proves what they are for:

- the regular expression compiler and its backtracking machine (`quickjs/libregexp.c`),
- printing and reading of float64 numbers (`quickjs/dtoa.c`),
- sets of code points, property tables and normalization (`quickjs/libunicode.c`),
- the hybrid sort (`quickjs/cutils.c`),
- the copy of a guest heap to the host (`dump` in `src/context.ts`).

`dafny verify dfyconfig.toml` checks all of it.

**Regular expressions.** `Ecma` is the reference: the matchers of section 22.2.2 of ECMA-262 in
continuation-passing style, `RepeatMatcher` included; `Totality` shows that the tests which only make it
total never decide anything. `Codegen` gives the code of a pattern, `Simulation` shows that it does what
the matcher says, `Snapshot` runs it on a machine with full copies, `UndoLog` on the real stack with undo
entries, `Executor` in the interpreter loop over `capture[]`. `Compiler` is the compiler over its byte
buffer, `Registers` the register pass. `Regexp.CompileAndExec` puts everything together.

**Numbers.** `Limbs`, `Bignum` and `Scaling` are the arithmetic on limbs of 32 bits with every wrap-around
written out; `Ratios` and `Doubles` say what it computes in terms of exact ratios; `Atod`, `Numerals` and
`Scanner` are `js_atod`, and `Grammar` says in terms of the text what it reads; `Dtoa`, `Formats`, `Layout`
and `Writer` are `js_dtoa`, `Minimal` and `Notation` say what it writes, `Subnormals` and `Lengths` are about
its buffer. `RoundTrip.PrintAndRead` connects both. Signed sums that leave the range of `int` are modelled as wrapping around.

**Unicode.** The tables are parameters. What is assumed of them is in `CaseFold.CaseData`,
`PropTables.IndexOk` and `Normalization.Consistent`; two results about NFC also need
`Composition.Stable` and `Composition.Latin1Tables`.

**Dump.** Addresses are given by a function of the handles held so far and the cell, of which
`GraphDump.Allocator` says only that held cells stay where they are and do not share a place; cells that
nobody holds may move.

## Findings

Where the code does not do what it is for, it is modelled as it is.

- A counter that starts at `INT32_MAX` runs out: `Saturation.CounterRunsOut` gives a pattern with the
  minimum 2147483647 whose result is not that of ECMA-262. (It takes as many turns, each of which leaves
  something on the stack: the example presumes a machine with enough memory.) `Saturation.SaturatedCode`
  gives the exact meaning of every pattern, so `Regexp.CompileAndExec` says what the engine does without any condition on
  the counters. The condition `SimulationBase.Counters`, under which the pattern itself is meant, can be
  checked before compiling. It is sufficient and not necessary: a counter that runs out may make no
  difference, as in `(?:){2147483647,}`, and whether it does depends on all that follows in the pattern and
  on the subject.
- The exponent arithmetic of `js_atod` has no overflow check. `Wrapping.TinyReadAsInfinity` is a number
  that is read as infinity and should be zero; `Wrapping.RightIfFits` says for radix 10 exactly when the
  result is right, and `Wrapping.BinaryRight` for the powers of two.
- The search for the shortest digits gives up when the correctly rounded digits are not read back. For some
  powers of two, below which doubles lie closer together, other digits of that number would be: 2^-44 is
  written as 5.6843418860808015e-14, and 5.684341886080802e-14 would do (`Minimal.OneDigitTooMany`).
  `Minimal.FewestDigits` says exactly when the digits are the fewest: always if the number is no power of two.
- `compose_pair` takes U+11A7 for a trailing consonant and drops it. `Normalization.Normalize` says exactly
  when NFC keeps the decomposed normal form.
- `js_dtoa_max_len` is no bound for every argument. `Lengths.MaxLenIsBound` says exactly for which it is: in
  free format for all; in fractional format unless a zero is written with an exponent, and the number of
  digits behind the point, with one more for a sign, is more than four; in fixed format unless it is a subnormal
  number written without an exponent that rounds to less than 10^-318 (10^-317 with a minus sign).
  `Writer.JsDtoa` asks for exactly what is missing.

## Model

| member | source | states |
|---|---|---|
| Regexp.CompileAndExec | quickjs/libregexp.c:2524-2610 | Compiling a pattern and running the code on a subject: the pattern is refused exactly if it exceeds a limit (65535 intervals in a class, 255 captures, 255 registers); otherwise a match is reported exactly if the search of section 22.2.2 of ECMA-262 finds one, with the same captures: on every subject for the pattern as its counters read it, and for the pattern as it stands if no counter can run out. It includes that the run ends. |
| Simulation.Simulate | quickjs/libregexp.c:1845-2440 | For every node, direction, register depth and continuation: wherever the code emitted for the node stands in a program, it yields what the matcher of the node yields, backtracking, capture resets and every {min,max} layout included. |
| Programs.ProgramYields | quickjs/libregexp.c:2554-2576 | The code of a whole program, with the loop over all start positions, yields the leftmost match that the search of ECMA-262 yields. |
| Snapshot.YieldsHalts | quickjs/libregexp.c:2774-3321 | A machine whose choice points hold full copies of captures and registers halts with the result that the program yields. |
| UndoLog.FlatStepRefines | quickjs/libregexp.c:2805-2978 | One step of the machine with the undo log, from any well-formed state, is one step of the machine with full copies: unwinding to any frame rebuilds the copy taken when the frame was pushed. |
| UndoLog.SqueezeAbstract | quickjs/libregexp.c:2874-2906 | Compacting the undo entries when a lookahead has matched leaves a log whose unwinding gives the state in front of the lookahead, while the captures of the lookahead stay. |
| Halting.TurnsRefine | quickjs/libregexp.c:2774-3321 | The same for any number of steps. |
| Halting.ProgramHalts | quickjs/libregexp.c:2774-3321 | Every run of a compiled program stops, and reports what the search of ECMA-262 reports. |
| Executor.Exec | quickjs/libregexp.c:3326-3364 | lre_exec over its registers, capture[] and its growing stack returns a match exactly if the search of ECMA-262 finds one, and leaves the start and end of every capture. |
| Executor.ExecContext.Run | quickjs/libregexp.c:2774-3321 | The interpreter loop computes what the machine with the undo log computes. |
| Executor.ExecContext.NoMatch | quickjs/libregexp.c:2852-2873 | Backtracking in place: either the state of the latest split is restored from the log, or there is none. |
| Executor.ExecContext.LookaheadMatch | quickjs/libregexp.c:2874-2906 | The frames of a lookahead are removed and its undo entries moved down in the stack, in place. |
| Executor.SearchRange | quickjs/libregexp.c:3229-3307 | For increasing bounds the binary search of the range opcodes, with 0xffff as infinity in the short form, succeeds exactly if one of the pairs contains the character; it stays inside the table. |
| Text.NarrowChars | quickjs/libregexp.c:2621-2636 | Without Unicode mode the characters of a subject are its units, and every unit is a position. |
| Text.WideChars | quickjs/libregexp.c:2621-2636 | In Unicode mode the units of a subject are the UTF-16 form of its characters, and no half of a surrogate pair stands in front of the other half. |
| Text.ReadingUnique | quickjs/cutils.h:335-363 | There is only one such reading. |
| Text.UnitsBefore | quickjs/libregexp.c:2621-2636 | The position of a character is behind the units of the characters before it. |
| Classes.EmitRangeMatches | quickjs/libregexp.c:1225-1259 | The opcode chosen for a class (none, 16-bit or 32-bit) accepts a code point exactly if one of the intervals contains it. |
| Bytecode.DecodeEncode | quickjs/libregexp-opcode.h:28-73 | Every instruction that fits its operands is decoded from its bytes as itself, with its length. |
| Codegen.AtomScan | quickjs/libregexp.c:1557-1628 | If the scan of the code of an atom asks for no advance check, every match of the atom moves the position; if it asks for no capture reset, the atom is straight-line code without captures. |
| Compiler.NeedCheckAdvAndCaptureInit | quickjs/libregexp.c:1557-1628 | The byte-level scan decides what the scan of the instructions decides. |
| Compiler.Compiler.EmitClass | quickjs/libregexp.c:1225-1259 | A class is refused exactly if it has 65535 or more intervals; otherwise the bytes of its opcode are appended. |
| Compiler.Compiler.Quantify | quickjs/libregexp.c:2257-2360 | The byte code of an atom at the end of the buffer is turned in place, by insertion and relocation, into the code of the quantified atom. |
| Compiler.Compiler.CompileNode | quickjs/libregexp.c:1845-2440 | Every pattern is compiled in place to the code that the simulation is about, unless a class or the number of captures exceeds its limit. |
| Compiler.Compiler.ComputeRegisterCount | quickjs/libregexp.c:2444-2505 | The scan over the bytes allocates in place what the scan over the instructions allocates, and fails exactly if that needs too many registers. |
| Compiler.Compile | quickjs/libregexp.c:2524-2610 | lre_compile on a pattern that has been read, if no allocation fails: it succeeds exactly within the limits, and returns the header and the code with registers. |
| Registers.AllocateComp | quickjs/libregexp.c:2444-2505 | For the code of any node, in both directions, the linear scan gives every loop or check the registers of its own quantifier, distinct from those that are live around it, and ends at the depth at which it began. |
| Registers.AllocateProgram | quickjs/libregexp.c:2444-2505 | For every program the scan never underflows, ends at depth 0, and fails exactly if quantifiers are nested more than 255 registers deep. |
| Saturation.SaturatedCode | quickjs/libregexp.c:2314-2357 | The pattern in which every counter that starts at INT32_MAX is read as a bound has the same code: this is the exact meaning of such counters. |
| Saturation.SaturatedCounts | quickjs/libregexp.c:2314-2357 | No counter of that pattern can run out. |
| Saturation.CounterRunsOut | quickjs/libregexp.c:2314-2357 | An unbounded quantifier whose minimum is INT32_MAX and whose atom can be empty does not match what ECMA-262 says. |
| Totality.LookReaches | quickjs/libregexp.c:1960-2000 | The test that makes the reference matcher of a lookaround total never fails. |
| Totality.OnlyGoodStates | quickjs/libregexp.c:3172-3228 | Started with captures that are ranges of the input, the reference matcher meets no others, so that the tests in its back references decide nothing. |
| Sorting.Rqsort | quickjs/cutils.c:522-639 | Any array, with any comparison: it ends, the result is a permutation, the stack of 50 entries suffices; with a total preorder the result is sorted. |
| Sorting.SortSegment | quickjs/cutils.c:540-637 | One round of the loop keeps the stacked depths strictly increasing and at most 50, and what is still to do gets smaller. |
| Sorting.Partition | quickjs/cutils.c:553-625 | The three-way partition, with the blocks of equal elements swapped to the middle, rearranges the segment into smaller, equal and larger ones. |
| Sorting.HeapSort | quickjs/cutils.c:480-512 | The fallback sorts its segment. |
| Sorting.Med3IsMedian | quickjs/cutils.c:514-519 | Of three elements at most one is smaller and at most one larger than the one chosen. |
| Limbs.UDiv1Norm | quickjs/dtoa.c:117-135 | Division of two limbs by one with the inverse: the exact quotient and remainder for every normalized divisor, through all wrap-arounds of the C types. |
| Bignum.Mpb.DivNorm | quickjs/dtoa.c:186-199 | In-place division of any number of limbs with a normalizing shift: the exact quotient and remainder. |
| Bignum.Mpb.ShrRound | quickjs/dtoa.c:313-398 | A shift of either sign, rounded in any of the three modes. |
| Scaling.Pow5InvTableCorrect | quickjs/dtoa.c:233-240 | The table of inverses holds what udiv1norm_init computes. |
| Scaling.PowUiInv | quickjs/dtoa.c:271-292 | The normalized power, its inverse and the shift. |
| Scaling.DivPow | quickjs/dtoa.c:929-951 | The chain of divisions by powers of the radix is one floor division, and the sticky bit tells whether something was lost. |
| Rounding.StickyRounds | quickjs/dtoa.c:313-398 | Rounding the quotient with a sticky bit, at least two bits up, is rounding the exact ratio. |
| Rounding.RoundIsNearest | quickjs/dtoa.c:313-398 | The nearest modes find the nearest integer; of two, the even one or the one away from zero. |
| Ratios.MulPowRound | quickjs/dtoa.c:959-967 | m * 2^e * radix^f for exponents of either sign, correctly rounded to an integer, within the limbs that are there. |
| Doubles.RoundToD | quickjs/dtoa.c:970-1001 | The mantissa and exponent of the double nearest to the number, subnormal or not, with the carry. |
| Doubles.NearestDouble | quickjs/dtoa.c:970-1001 | No double is nearer to the number than the rounded one. |
| Atod.ConvertBinary | quickjs/dtoa.c:1572-1580 | For radices that are powers of two: the double nearest to all the digits, dropped ones included, with the exponent that the int holds. |
| Atod.ConvertDecimal | quickjs/dtoa.c:1581-1608 | For other radices: the double nearest to the digits that were kept, with the exponent that the int holds; overflow, underflow, subnormal numbers, and the branch for exponents below -1073 that is never taken. |
| Numerals.ReadDigits | quickjs/dtoa.c:1461-1496 | The digits that fit are collected limb by limb; of the others it is known whether one is not zero. |
| Numerals.JsAtod | quickjs/dtoa.c:1442-1620 | Correct rounding for radix 2, 4, 8, 16 and 32 with any number of digits, and for radix 10 with the digits from the 39th significant one on taken for zeros, with the exponent that the int holds; that is the exponent of the numeral if the exponent of its first digit fits an int. |
| Wrapping.RightIfFits | quickjs/dtoa.c:1581-1590 | For radix 10 the result is the right one exactly if the exponent of the first significant digit fits an int. |
| Wrapping.ZeroExactly | quickjs/dtoa.c:1591-1606 | A number is read as zero exactly if it is at most 2^-1075. |
| Wrapping.InfinityExactly | quickjs/dtoa.c:1591-1606 | It is read as infinity exactly if it is at least (2^54 - 1) * 2^970, the middle between the largest double and 2^1024. |
| Wrapping.BinaryRight | quickjs/dtoa.c:1572-1580 | For the powers of two the result is right exactly if that exponent fits an int, or the number with the wrapped exponent is read as infinity, or zero, as the numeral itself would be. |
| Wrapping.TinyReadAsInfinity | quickjs/dtoa.c:1583-1586 | A numeral far below every double that is read as infinity. |
| Logs.MulLog2TenIsFloor | quickjs/dtoa.c:474-488 | For radix 10 the fixed-point product is the floor of a * log10(2) for every a from -2048 to 2047. |
| Dtoa.MantSettles | quickjs/dtoa.c:1191-1200 | The loop that corrects the exponent goes round at most once more, and finds exactly P digits. |
| Dtoa.EnoughForReading | quickjs/dtoa.c:1186-1210 | 17 digits, correctly rounded, are read back as the same double. |
| Dtoa.FreeFormat | quickjs/dtoa.c:1184-1241 | The correctly rounded digits without trailing zeros, which are read back as the same double; more digits are read back as well, those that are one fewer are not. |
| Minimal.ShortestIsNearest | quickjs/dtoa.c:1191-1210 | No integer is nearer to the number in units of the last digit, and on a tie the digits are even. |
| Minimal.ShortestUnique | quickjs/dtoa.c:1184-1241 | These digits are the only ones of that kind. |
| Minimal.FewestDigits | quickjs/dtoa.c:1189-1236 | No decimal with fewer digits is read as the double, except exactly for powers of two for which the rounded digits that are one fewer are too far below and the next larger ones are near enough. |
| Minimal.OneDigitTooMany | quickjs/dtoa.c:1189-1236 | 2^-44 is such a power of two: it is written with 17 digits, and 5684341886080802 * 10^-29 is read as it. |
| FastPath.IntegerShortest | quickjs/dtoa.c:1168-1177 | The digits of an integer below 2^53, without trailing zeros, are what the search for the shortest digits finds. |
| FastPath.IntegerText | quickjs/dtoa.c:1168-1177 | And they are written the same. |
| Formats.Compare | quickjs/dtoa.c:401-417 | mpb_cmp orders numbers without leading zero limbs by value. |
| Formats.FixedFormat | quickjs/dtoa.c:1260-1277 | P digits, rounded half away from zero, and their exponent, for all doubles and P up to 101, within the two buffers. |
| Formats.MantIsNearest | quickjs/dtoa.c:1247-1277 | No number with that many digits is nearer, and of two the larger one is chosen. |
| Formats.FracRange | quickjs/dtoa.c:1250-1253 | One digit more than the estimate always holds the integer part, and is the only one that can be a useless zero. |
| Writer.U64ToA | quickjs/dtoa.c:616-645 | An integer of 64 bits without leading zeros, in up to three parts. |
| Writer.FracDigits | quickjs/dtoa.c:1247-1259 | After at most one zero has been removed the text is the integer part without leading zeros, the point and n digits. |
| Printing.OutputDigits | quickjs/dtoa.c:847-889 | The lowest digits of a number, nine at a time from the right, with a point among them. |
| Layout.PutNumber | quickjs/dtoa.c:1278-1311 | The two notations with and without an exponent. |
| Notation.FreeNotation | quickjs/dtoa.c:1278-1311 | In free format an exponent is written, unless it is required or forbidden, exactly for numbers below 10^-6 and from 10^21 on. |
| Notation.FixedNotation | quickjs/dtoa.c:1278-1311 | In fixed format exactly for rounded numbers below 10^-6 and from 10^n on, for n digits. |
| Notation.ZeroTexts | quickjs/dtoa.c:1145-1165 | The texts of a zero in all formats, with a minus sign only for -0 and if it is asked for. |
| Writer.JsDtoa | quickjs/dtoa.c:1107-1318 | The text of every bit pattern in radix 10 in the three formats, inside the buffer: shortest digits, P digits or n digits behind the point, NaN, infinities, zeros and signs. |
| Writer.RoomForBody | quickjs/dtoa.c:1034-1082 | The announced length with what is missing has room for the sign and the digits of every number; if something is missing it is exactly their length. |
| Subnormals.FineEnough | quickjs/dtoa.c:1186-1210 | A subnormal number is read back from 324 digits behind the point, however many significant digits these are. |
| Subnormals.ShortestEnds | quickjs/dtoa.c:1184-1241 | The shortest digits of a subnormal number end at the 325th place behind the point. |
| Lengths.FixedExpFrom | quickjs/dtoa.c:1191-1200 | The decimal exponent of a subnormal number rounded to n digits is above -k exactly if 2 * x * 10^(n+k) + 2^1074 >= 2 * 10^n * 2^1074 for its bit pattern x. |
| Lengths.MaxLenIsBound | quickjs/dtoa.c:1034-1082 | The text of a number is no longer than js_dtoa_max_len announces exactly if Announced holds, a test on the bit pattern, the format and the number of digits; otherwise it is longer by Missing. |
| Lengths.ZeroTooLong | quickjs/dtoa.c:1034-1082 | A zero in fractional format with an exponent is longer than announced. |
| Lengths.SubnormalTooLong | quickjs/dtoa.c:1034-1082 | The smallest subnormal number without an exponent is longer than announced. |
| Scanner.ScanDigits | quickjs/dtoa.c:1442-1495 | The digits and the point of a text: all that belongs to the numeral and no more. |
| Scanner.ScanExponent | quickjs/dtoa.c:1525-1555 | The exponent, or that it is larger than 2147483639. |
| Scanner.AtodText | quickjs/dtoa.c:1354-1620 | js_atod of a text in radix 10 without flags, and where it stops, from the places that the scan finds. |
| Grammar.ReadText | quickjs/dtoa.c:1354-1620 | js_atod in terms of the text, however it is taken apart: infinity, NaN if there is no numeral or an exponent has no digits, and otherwise the double for the digits, the point and the exponent of the numeral, with every sign, mark and empty part that is allowed; and where it stops. |
| Grammar.EveryText | quickjs/dtoa.c:1375-1545 | Every text can be taken apart in one of these four ways. |
| Grammar.PlainNumeral | quickjs/dtoa.c:1581-1608 | A numeral of up to 38 significant digits whose first digit is at a place that fits an int is read as the nearest double. |
| RoundTrip.NumberMeans | quickjs/dtoa.c:1278-1311 | What is written is a numeral of the number that was to be written, in every notation. |
| RoundTrip.PrintAndRead | quickjs/dtoa.c:1107-1620 | Every finite double and both infinities, written in free format with the sign of -0 into a buffer of the announced length, are read as the same bit pattern up to the end of the text, whatever the notation; NaN is read as NaN. |
| CharRanges.CharRange.Compress | quickjs/libunicode.c:440-466 | Adjacent intervals are merged and empty ones removed in place: the list is strictly increasing and has the same members. |
| CharRanges.CharRange.CrOp | quickjs/libunicode.c:469-522 | Union, intersection, exclusive or and difference of two weakly sorted lists, as a strictly increasing list. |
| CharRanges.CombinedMembers | quickjs/libunicode.c:469-522 | Membership in the result is or, and, exclusive or, or and-not of the memberships, for every code point. |
| CharRanges.CharRange.Invert | quickjs/libunicode.c:536-548 | The complement below 2^32 - 1, as a strictly increasing list. |
| CharRanges.ComplementMembers | quickjs/libunicode.c:536-548 | A code point below 2^32 - 1 is a member of the complement exactly if it is none of the list. |
| CharRanges.InvertTwice | quickjs/libunicode.c:536-548 | Two complements give the list back. |
| CharRanges.CanonicalUnique | quickjs/libunicode.c:440-466 | A strictly increasing list is determined by its members. |
| CaseFold.SortAndRemoveOverlap | quickjs/libunicode.c:629-663 | Any intervals, in any order, become a strictly increasing list with the same members. |
| CaseFold.Canonicalize | quickjs/libunicode.c:227-261 | The binary search finds the conversion of every character. |
| CaseFold.RegexpCanonicalize | quickjs/libunicode.c:667-749 | The set becomes exactly the set of the conversions of its members, in canonical form; the run that is searched for is always found. |
| PropTables.UnicodeProp1 | quickjs/libunicode.c:1466-1511 | Decoding a whole table gives the strictly increasing list of the characters whose bit is set. |
| PropTables.TableMembers | quickjs/libunicode.c:316-322 | The members of a table that encodes run lengths in the four forms are those of the runs, which are alternately outside and inside. |
| PropTables.GetIndexPos | quickjs/libunicode.c:271-302 | The search in the index finds a byte where decoding can start, or that the character is behind the table. |
| PropTables.IsInTable | quickjs/libunicode.c:304-345 | The bit found by starting where the index says is the bit found by decoding from the beginning, and decoding never leaves the table. |
| PropTables.BothAgree | quickjs/libunicode.c:304-345 | Membership by table and membership in the decoded list agree for every code point. |
| Canonical.SortCc | quickjs/libunicode.c:1098-1132 | The in-place sort puts combining characters in the order of their classes and keeps the starters, and between them the characters of each class, in their order. |
| Canonical.OrderedUnique | quickjs/libunicode.c:1098-1132 | There is only one such order. |
| Normalization.ToNfdRec | quickjs/libunicode.c:1134-1160 | The full decomposition is appended, Hangul syllables included. |
| Normalization.NfdIdempotent | quickjs/libunicode.c:1134-1160 | The decomposed normal form of a decomposed normal form is itself. |
| Normalization.ComposedFull | quickjs/libunicode.c:1163-1176 | A composition is decomposed into what it was made of, unless it loses U+11A7. |
| Normalization.FindStarter | quickjs/libunicode.c:1226-1239 | The starter before a character and whether it is blocked. |
| Normalization.ComposeMarks | quickjs/libunicode.c:1222-1249 | Composition in place computes Compose, joining each character with the starter before it; the characters it does not drop are the decomposed normal form of the result, and it drops none exactly if there is no <L, V, U+11A7>. |
| Normalization.Normalize | quickjs/libunicode.c:1178-1250 | NFD and NFKD give the canonical order of the full decomposition, NFC and NFKC its composition, and Latin-1 text is returned as it is for NFC. NFD(NFC(s)) == NFD(s), and the same for the compatibility forms, exactly if NFD(s) contains no <L, V, U+11A7> or the text is Latin-1. |
| Composition.NfcIdempotent | quickjs/libunicode.c:1222-1249 | Decomposing a composition, which may be shorter, and composing again gives the same composition. |
| Composition.NormalizeTwice | quickjs/libunicode.c:1178-1250 | Normalizing twice to any of the four forms is normalizing once, for every text and without any condition on U+11A7. |
| Composition.NothingLeft | quickjs/libunicode.c:1163-1249 | In the result of NFC two characters with nothing between them that blocks the way are composed neither by the table nor as Hangul, for tables whose full decompositions are ordered and whose compositions end with a character that cannot be decomposed. |
| Composition.FullCharacter | quickjs/libunicode.c:1141-1158 | The full decomposition of every character, Hangul syllables in numbers. |
| Composition.Latin1Unaffected | quickjs/libunicode.c:1192-1205 | The fast case of NFC returns what the general case would, for tables that decompose Latin-1 letters into Latin-1 letters and combining characters. |
| Normalization.WithoutTBase | quickjs/libunicode.c:1163-1176 | A text without U+11A7 has no such triple in its decomposed normal form. |
| Normalization.TripleIsNfd | quickjs/libunicode.c:1163-1176 | A text of three characters that normalization to NFC and back does not keep. |
| GraphDump.LookupIsIdentity | src/context.ts:644-690 | While the fetched handles are held, a lookup by address finds a cell exactly if this very cell has been seen. |
| GraphDump.Dumper.Visit | src/context.ts:647-713 | A value is copied, or found copied, in the order of the walk; only new cells of the host change, cells that are being copied higher up stay as they are, and every visit counts one; each of the three ways to end early has its reason in the heap. |
| GraphDump.ReachedCopied | src/context.ts:683-708 | Everything that can be reached from the root has a copy. |
| GraphDump.Dump | src/context.ts:638-728 | For a heap with any cycles and sharing the result is isomorphic to what can be reached, with one copy of every array and object, and the outcome is that of a depth-first walk without copies. Unless there is a path of more than maxDepth different cells with something in the last one, there is a result exactly if one value, and one for every entry that can be reached, are at most maxNodes, and nothing of another kind can be reached. With a result every cell is within maxDepth references. |
| GraphDump.LongPathNeedsCells | src/context.ts:648-650 | A heap of at most maxDepth reachable cells has no such path. |

## Left out

- Compiler.Compile: does not model failing allocations, among them the refusal of buffers of more than `INT32_MAX / 2` bytes; `Regexp.CompileAndExec` requires that the code has at most that size.
- Regexp.CompileAndExec: requires subjects of fewer than 2^31 - 1 characters that are code points, and starts from the syntax tree; a maximum of 2^31 - 1 or more is no maximum, as the parser reads it.
- Opcodes that the modelled patterns do not use (ignoring case, `\s` and `\S`) are neither emitted, scanned nor run.
- Numerals.JsAtod: takes the digits one by one; radices other than 10 and the powers of two are covered by `Atod.ConvertDecimal` for tables that keep `Atod.TablesBound`; in radix 10 the digits after the 38th significant one are dropped by design, so the result may differ from the double nearest to the whole numeral.
- Scanner.AtodText: radix 10 without flags, texts of fewer than 2^31 characters; prefixes, separators, integers only and other radices are not modelled at the level of text.
- Writer.JsDtoa: radix 10; other radices and their exponent notation are not modelled.
- Normalization.Normalize: decomposition, combining classes and composition are functions, not the compressed tables.
- CaseFold.RegexpCanonicalize: the mask that `unicode_case1` computes is a parameter.
- GraphDump.Dump: getters, proxies and changes of the heap during the walk, conversion of strings, numbers and errors, deadlines and disposal of the handles are not modelled; between the two conditions on the depth the outcome depends on the order of the walk and is only given by `GraphDump.Walk`.
- Sorting.Rqsort: elements are values of an array; the choice of an exchange function by size and alignment and the opaque argument of the comparison are not modelled.
- Ignoring case in regular expressions, string lists of classes, named groups, modifiers and the syntax of patterns.
- Timeouts, interrupts and the native stack.
- `unicode_to_utf8`, `unicode_from_utf8`, general categories, scripts, property expressions and `lre_is_cased` of `quickjs/libunicode.c` and `quickjs/cutils.c`: conversions between encodings, and selections from the compressed tables, whose contents are parameters here.
- Contexts, runtimes, host functions, promises and modules in `src/`: their behaviour is that of the engine behind the foreign function interface, which is not part of this model.
