# The assembler and archiver of cctools, modelled and proved

This project models the parts of the `as` assembler and the `ar` archiver that carry real algorithms, in Dafny 4.11,
and proves what they keep. `dafny verify dfyconfig.toml` checks everything. Nothing of the original program is run.

Code that changes things step by step is imperative here: frags, sections, flonums, bit readers, hash tables, the
scrubber, the expression input and archive files are classes whose methods change the fields the C code changes, and
every loop of the source is a loop with invariants. Each such method is proved against a function on values, and the
theorems are about those functions.

## What is modelled

**Span-dependent layout** (`Relax.dfy`, `Layout.dfy`, `LayoutAddresses.dfy`; `cctools/as/layout.c`, `frags.c`). A chain
of fills, alignments and relaxable branches is laid out, relaxed pass by pass to a fixpoint, relaxed again until no address of any section
changes, slid to its final place, and its alignments are turned into fills. The relax table is any table whose chains
grow strictly longer. Proved: termination, every branch reaches its target or is at the end of its chain, the result is
the least one for chains of fills and branches to labels, a second relaxation changes nothing, at most two rounds of
the outer loop, alignments survive the slide, sections do not overlap, and a converted alignment writes only the bytes
`frag_align` reserved. `LayoutAddresses` joins the passes and the slide and states the outcome at the final addresses,
in plain arithmetic: every section starts at the least multiple of its alignment behind everything that is placed before
it, the first one at zero; each frag starts where the one before ends, as long as its kind makes it; applied alignments
hold; and every branch is in a state of its chain that reaches its target, or in the last one.

**Line-number programs** (`Leb128.dfy`, `LineMachine.dfy`, `LineProgram.dfy`, `LineTable.dfy`; `dwarf2dbg.c`, `read.c`).
The machine that interprets a line program is written from sections 6.2.2 and 6.2.5 of DWARF 3 with the numbers of its
opcodes, and LEB128 from section 7.6; the compiler has its own numbers. Proved: the program compiled from a list of locations, run by the machine, gives exactly the rows of the list if and
only if no line delta equals `INT_MAX`, and the bytes of a relaxed frag are the ones that were counted when it was sized.

**Decimal to binary floating point** (`Decimal`, `Scan`, `Bignum`, `Multiply`, `Flonum`, `PowersOfTen`, `PowerLoop`,
`DecimalFlonum`, `BitReader`, `Words`, `Ieee754`, `Encoding`, `IeeeWords`, `DecimalToIeee`, and `NormalForm`, `Nearness`,
`PowerTables`, `PowerErrors`, `ProductErrors`, `PowerAccuracy`, `SafeDigits`, `ReadingAccuracy`, `ComputedPowers`,
`ManyDigits`, `LostReading`, `NumeralText`; `atof-generic.c`, `flonum-mult.c`, `flonum-copy.c`, `flonum-const.c`, `atof-ieee.c`). The accumulator of `flonum_multip` wraps at 32 bits as in the source,
and what the wraps lose is part of the theorem. Every flonum that is read is empty or has a leader other than zero, so
that the search for its first bit ends within sixteen reads. Rounding is judged against a definition of the nearest
number written from IEEE 754-2008 (sections 3.4 and 4.3.1, ties away from zero), for the single and the double format,
normal and denormal numbers alike. Numerals that are read exactly are converted to the nearest number. For all others
the error is bounded: each entry of the tables is near its power of ten, no multiplication of the power loop wraps, every
one fills its buffer or is exact, and so the number encoded is nearest to the numeral but for a slack that is worked out.
The slack contains what the last multiplication, the one by the digits, loses in wraps: nothing for any single, nothing
for a double whose digits are safe, and too much for some doubles whose digits are not. Digits are safe when no factor
whatever makes them wrap; up to fourteen always are, and the others can be told by their highest littlenums.
`NumeralText` starts from the text: a numeral spelled with a sign or none, digits, mark, fraction, exponent mark and signed
exponent is read as exactly that numeral, to its end, and the theorems on the nearest number are stated from there to
the words.

**Expressions** (`Operators.dfy`, `OperatorLaws.dfy`, `Parser.dfy`, `SyntaxTree.dfy`, `ExpressionValue.dfy`,
`ConcreteText.dfy`, `Differences.dfy`; `expr.c`). The parser is a class with a pointer into the text. Proved: a written
tree, with only the parentheses its ranks need, is read back to the tree's own meaning and ends at its last character;
constants have the value that the laws of their operators give, and the laws (exact modulo 2^64, division with its
remainder, shifts, bit by bit) leave no other; of two operators in a text the tighter one comes first; literals of each
radix are the numbers their digits denote; sums of symbols denote what they say;
and a difference made absolute early is right exactly under a condition on the frags between its labels, judged by the
addresses that relaxing gives them.

**The scrubber** (`Scrubber.dfy`, `ScrubbedText.dfy`, `SourcePieces.dfy`; `app.c`). A source file is a list of pieces:
plain characters, blanks, comments of each kind, strings, quoted characters, newlines, separators and line markers.
Proved: enough calls read every file to its end, and what comes out, but for blanks outside strings, is the pieces' own
output in order: text and strings as they are, quoted characters as numbers, markers as directives, comments as nothing.
Newlines are conserved over every run, white space never vanishes between two symbol characters, and the first word of a
line keeps one blank after it.

**The hash table** (`HashTable.dfy`; `hash.c`). Proved: the move-to-front table is a map.

**The archiver** (`ArFormat.dfy`, `ArObject.dfy`, `ArOperations.dfy`, `ArReplace.dfy`, `ArOutcome.dfy`; `cctools/ar`).
Proved: the operations rewrite the file to exactly the members they promise. `ArOutcome` says which: each member in turn
uses up the first argument left that names it, and by that it is deleted, moved, or replaced by the argument's file when
there is one and, with the option for it, it is newer; every other member stays.

`Arith.dfy` and `Wrappers.dfy` hold shared arithmetic and the option type.

## Where the code does not do what it is for

Each of these is stated by a theorem that says exactly when the code is right, or by a concrete example.

- A line delta of `INT_MAX` is taken for the end of a sequence (`LineTable.ProgramIsRightIff`, `LineTable.ClashExample`).
- `flonum_multip` can lose a multiple of 2^32 when the first sum of a column wraps; factors of three and more littlenums
  of 0xffff are enough (`Multiply.ExactIffNoWrap`, `Multiply.WrapExample`). When each factor is one littlenum followed by
  zeros and the buffer is less than half as long as both, a product whose highest littlenums multiply to a multiple of
  2^16 is lost altogether (`NormalForm.ProductNormal`, `NormalForm.VanishingProductExample`).
- The last multiplication of `atof_generic` can wrap in this way, and then a double is read too small: the numeral
  `18446744073709551615e-278` is encoded more than 2^16 units of the last place too low (`LostReading.LostExample`). It
  cannot when the digits are safe, which can be checked before the call (`SafeDigits.SafeIff`, `SafeDigits.LowTopIsSafe`,
  `ReadingAccuracy.NumeralIsAlmostNearest`).
- `flonum_copy` clears as many bytes as there are unused littlenums, so only half of them (`Flonum.FlonumCopy`).
- The table entry for 10^128 and all later ones are not exact; the one for 10^128 has wrong littlenums
  (`PowersOfTen.EntryIsExactIff`), though its error is below 2^-67 of it (`PowerErrors.EighthIsNear`).
- A fraction with many leading zeros reads as zero, since the zeros count as useful digits
  (`DecimalFlonum.VanishesIff`, `DecimalFlonum.VanishingExample`).
- `gen_to_words` does not watch for the all-ones exponent, drops the carry of a denormal with sixteen significant bits
  that are all one, and gives infinity instead of zero far below the smallest number, as `atof_ieee` does for every decimal exponent of
  -2^11 or less (`NumeralText.TextOverflows`) (`Encoding.NearestExactlyIfRight`,
  with `Encoding.AllOnesExample`, `Encoding.LostCarryExample` and `Encoding.TooSmallExample`). A denormal whose flonum is
  the single bit 1 is read wrong once more, since that bit is put back into the wrong littlenum, when an even littlenum
  lies above it (`IeeeWords.LoneBitIsLostIff`).
- A unary minus does not negate the number beside a symbol: `-(a+4)` reads as `4-a` without a warning
  (`ExpressionValue.UnaryMinusIsRightIff`, `ExpressionValue.NegatedOffsetExample`).
- A difference of labels in different frags loses the number that the expression had, and is worked out as if the first
  frag stood at address zero and no alignment had a maximum (`Differences.MakeAbsoluteIsRightIff`, with
  `Differences.DroppedNumberExample`, `Differences.MisalignedExample` and `Differences.LimitedAlignExample`).
- A binary `!` is always read as `!=`, whatever follows it; or-not is never found (`Operators.OrNotIsNeverFound`).
- A newline after a backslash in a string, meant to become a newline of the string, comes out as a second backslash and an
  `n` (`SourcePieces.ContinuedStringExample`).
- A quote directly before a newline eats the newline (the `eaten` count of `Scrubber.FileConserves`,
  `Scrubber.EatenNewlineExample`).
- `ar` writes names of 253 to 255 characters whose headers it cannot read back (`ArObject.NewMemberIsReadableIff`,
  `ArObject.UnreadableNameExample`).
- The position member of `ar -a` or `-b` is never found when it is also an argument that is moved or replaced
  (`ArOperations.MovePosition` and `ArReplace.ReplacePosition` speak of the other members;
  `ArOperations.MissedPositionExample`, `ArReplace.MissedReplacedPositionExample`).

## Model

| member | source | states |
|---|---|---|
| Relax.GrowIsLeast | cctools/as/layout.c:1263-1286 | growing a state for a displacement never passes a later state of its chain that copes with a displacement at least as demanding |
| Relax.IsDownRange | cctools/as/layout.c:1380-1391 | the walk down the chain answers whether the second frag comes after the first |
| Relax.GrowState | cctools/as/layout.c:1263-1286 | both search loops stop at the first state of the chain that reaches or is last |
| Relax.AimOf | cctools/as/layout.c:1241-1262 | the displacement worked out in the middle of a pass, with the guess that a frag not yet reached moves by the stretch |
| Relax.AimIsNoFurther | cctools/as/layout.c:1252-1262 | the guessed displacement is never more demanding than the one in any later layout that still has to come, so the guess never over-grows |
| Relax.DistancesGrow | cctools/as/layout.c:1186-1337 | when states only move up, distances between frags of a chain without alignments never shrink |
| Relax.GrowthOf | cctools/as/layout.c:1194-1289 | one frag's growth is the change of its variable part, and only its state changes |
| Relax.VisitFrag | cctools/as/layout.c:1186-1336 | one turn of the pass moves the frag by the stretch so far and adds its growth |
| Relax.RelaxPass | cctools/as/layout.c:1185-1337 | one pass over the chain brings states, addresses and the stretched flag where the steps of the value-level pass bring them |
| Relax.PassOutcome | cctools/as/layout.c:1184-1338 | after a pass the addresses are contiguous again; a pass that stretches uses up room in the table, one that does not leaves a settled chain and its states alone; no settled assignment above the start is overshot |
| Relax.RelaxationIsSound | cctools/as/layout.c:1178-1338 | relaxation ends for every chain of fills, alignments and branches; in the result every displacement fits its state's reach or the state is last, and states only moved up their chains |
| Relax.RelaxationIsMinimal | cctools/as/layout.c:1233-1287 | for fills and branches to labels the result lies below every settled assignment above the start, state by state and address by address |
| Relax.RelaxationIsIdempotent | cctools/as/layout.c:240-264 | relaxing a relaxed section again changes no state |
| Relax.RelaxToFixpoint | cctools/as/layout.c:1184-1338 | the do-while loop over the frag objects stops with the relaxed states and contiguous addresses |
| Relax.RelaxAlign | cctools/as/layout.c:1361-1371 | the padding is below the power of two and leads to a multiple of it |
| Relax.GuessAlign | cctools/as/layout.c:1122-1142 | the first guess skips an alignment beyond its maximum and otherwise raises the section's alignment to its power |
| Relax.GuessFrag | cctools/as/layout.c:1108-1167 | the first guess places one frag and gives the address after its fixed part and its variable part |
| Relax.FirstGuess | cctools/as/layout.c:1104-1168 | the first guess lays the chain out contiguously from zero and records every applied alignment with a maximum |
| Relax.AppliedAlignsAreRecorded | cctools/as/layout.c:1123-1142 | afterwards the section's alignment is at least the power of each of them |
| Relax.RememberAddresses | cctools/as/layout.c:1346-1351 | the answer says whether any address differs from the one remembered, and the new ones are remembered |
| Relax.RelaxSection | cctools/as/layout.c:1071-1353 | the whole of relax_section on frag objects: relaxed states, contiguous addresses, change flag and section alignment |
| Layout.RelaxRound | cctools/as/layout.c:241-263 | one round relaxes each section that is not zerofill and tells whether any address changed |
| Layout.SecondRound | cctools/as/layout.c:241-264 | a second round leaves the states where the first put them |
| Layout.QuietRounds | cctools/as/layout.c:241-264 | a round that reports no change found every section already laid out in its final form |
| Layout.RelaxUntilQuiet | cctools/as/layout.c:241-264 | the outer loop runs once or twice, and then every applied alignment with a maximum, in the final layout, has its power recorded in the section's alignment, which is the old one or the power of such an alignment |
| Layout.AlignEndsAligned | cctools/as/layout.c:1199-1212 | after an applied alignment the next frag's address is a multiple of its power |
| Layout.AlignsSurviveTheSlide | cctools/as/layout.c:271-285 | it still is after the section was slid to a multiple of the section's alignment |
| Layout.SectionsArePartitioned | cctools/as/layout.c:266-304 | sections start at multiples of their alignments and take disjoint ascending ranges, all zerofill after the rest |
| Layout.SectionsArePacked | cctools/as/layout.c:271-304 | the section placed first starts at zero, and every other one less than its alignment after the end of one placed before it |
| Layout.SlideOrdinary | cctools/as/layout.c:276-284 | every frag of an ordinary section moves by the start of the section |
| Layout.SlideZerofill | cctools/as/layout.c:298-303 | a zerofill section's first address becomes its start and its last one the end |
| Layout.SlideKind | cctools/as/layout.c:272-304 | one of the two loops slides exactly the sections of its kind and hands on the end of the last |
| Layout.SlideSections | cctools/as/layout.c:266-304 | both loops bring every section to its start |
| Layout.AlignFrag.constructor | cctools/as/frags.c:254-294 | an align frag reserves twice the fill's size less one, holds the fill after the fixed part, and complains of a width other than 1, 2 and 4 |
| Layout.AlignFrag.PushBack | cctools/as/layout.c:395-409 | the fill moves behind the partial bytes, which become zeros, and no byte outside the reserve is written |
| Layout.AlignFrag.Convert | cctools/as/layout.c:336-411 | fixed part, zeros and repeated fill take exactly the gap to the next address, and nothing outside the reserved bytes changes; a negative gap counts as zero |
| Layout.ConvertedLength | cctools/as/layout.c:355-411 | what a converted frag emits is as long as its fixed part and the gap |
| LayoutAddresses.LayPass | cctools/as/layout.c:240-264 | the do-while loop of one pass lays out the sections of that pass, records their alignments and leaves all others alone |
| LayoutAddresses.SlideApart | cctools/as/layout.c:266-304 | after the slide every section is in its relaxed states at its addresses, moved to its start, or placed with its size |
| LayoutAddresses.LayoutAddresses | cctools/as/layout.c:230-304 | after the three passes and the slide every section, debug and zerofill ones included, is packed and, if it is ordinary, right at its final addresses; its alignment is the old one or the power of an alignment of its own |
| LayoutAddresses.FragsFollow | cctools/as/layout.c:336-371 | in the object file each frag starts right after the one before, so the gap that an alignment is to fill is its padding and not negative |
| LayoutAddresses.AlignsKept | cctools/as/layout.c:1199-1212 | the frag after an applied alignment stands on a multiple of its power |
| LayoutAddresses.BranchesReach | cctools/as/layout.c:1233-1287 | a branch to a symbol of its section reaches it from the final addresses or is in the last state of its chain |
| LayoutAddresses.ExtentsArePacked | cctools/as/layout.c:271-304 | a section starts at the least multiple of its alignment behind the ends of all that are placed before it: ordinary sections in list order, then zerofill ones |
| LayoutAddresses.SectionIsRight | cctools/as/layout.c:1104-1338 | at the final addresses a fill takes its repeated size, a branch the length of its state, an alignment the way to the next multiple or, beyond its maximum, nothing; and each branch is in a state of its chain that reaches its target or is last |
| LayoutAddresses.LayoutIsRight | cctools/as/layout.c:230-304 | every section is packed in this sense; ordinary ones are right in that sense, and zerofill ones keep their size |
| Leb128.UlebRoundTrip | cctools/as/read.c:5190-5213 | an unsigned number is read back from its bytes, whatever follows them |
| Leb128.SlebRoundTrip | cctools/as/read.c:5160-5188 | so is a signed number |
| Leb128.UlebGroups | cctools/as/read.c:5190-5213 | the bytes are the number's groups of seven bits, the lowest first, with the top bit set in all but the last, and no more than it needs |
| Leb128.SlebGroups | cctools/as/read.c:5160-5188 | the same for a signed number, whose last group holds the sign |
| Leb128.UlebLengthMonotone | cctools/as/read.c:5102-5138 | larger numbers take no fewer bytes |
| Leb128.SizeofUleb | cctools/as/read.c:5102-5138 | the size loop counts the bytes of the encoding |
| Leb128.SizeofSleb | cctools/as/read.c:5061-5100 | the same for signed numbers |
| Leb128.OutputUleb | cctools/as/read.c:5190-5213 | the output loop writes the encoding and no other byte |
| Leb128.OutputSleb | cctools/as/read.c:5160-5188 | the same for signed numbers |
| LineProgram.LineOpcode | cctools/as/dwarf2dbg.c:1024-1037 | the special opcode of a line delta in range lies between the opcode base and the base plus the line range |
| LineProgram.SizeIncLineAddr | cctools/as/dwarf2dbg.c:1004-1060 | the size is the number of bytes that will be written, for every line and address delta |
| LineProgram.EmitIncLineAddr | cctools/as/dwarf2dbg.c:1063-1155 | the bytes written are the encoding of the two deltas, they fill the reserved room exactly, and the fatal error is not reached |
| LineProgram.DoesRow | cctools/as/dwarf2dbg.c:1092-1155 | run by the line machine, the bytes append one row moved by exactly the two deltas and clear the flags of the row |
| LineProgram.DoesEnd | cctools/as/dwarf2dbg.c:1070-1090 | the bytes for the end of a sequence append a last row at the end address and reset the machine |
| LineTable.OutIncLineAddr | cctools/as/dwarf2dbg.c:1158-1163 | bytes are reserved for their size and written |
| LineTable.OutAdvance | cctools/as/dwarf2dbg.c:1446-1449 | labels in one frag give bytes at once, labels in different frags a frag to be relaxed |
| LineTable.OutSettings | cctools/as/dwarf2dbg.c:1390-1424 | only the registers that change are set, and the row's flags are set |
| LineTable.OutMove | cctools/as/dwarf2dbg.c:1439-1449 | the first location sets the address, later ones advance from the one before |
| LineTable.ProcessEntries | cctools/as/dwarf2dbg.c:1373-1480 | the loop over the locations with its running line, file, column, isa and flags puts out the compiled list |
| LineTable.EntryMeans | cctools/as/dwarf2dbg.c:1386-1461 | each entry appends its own row and leaves its own registers, unless its line delta is INT_MAX, when it ends the sequence with the line before |
| LineTable.ProgramMeans | cctools/as/dwarf2dbg.c:1373-1480 | the compiled list appends one row per location, in order, then the end row, and leaves the machine as it started |
| LineTable.ClashMisleads | cctools/as/dwarf2dbg.c:1373-1480 | a list with a line delta of INT_MAX never gives its own rows |
| LineTable.ProgramIsRightIff | cctools/as/dwarf2dbg.c:1373-1480 | for ascending addresses the program gives the rows of the list if and only if no line delta is INT_MAX |
| LineTable.OrdinaryLinesNeverClash | cctools/as/dwarf2dbg.c:1373-1480 | lines from 1 to INT_MAX never give that delta |
| LineTable.ClashExample | cctools/as/dwarf2dbg.c:1373-1480 | a single location at line 2^31 does |
| LineTable.WholeTableMeans | cctools/as/dwarf2dbg.c:1373-1480 | the programs of several sections, one after the other, give all their tables |
| LineTable.ReservedRoomIsEnough | cctools/as/dwarf2dbg.c:1254-1263 | no address delta takes more bytes than the delta of -1 for which the room was reserved |
| LineTable.DeltaFrag.constructor | cctools/as/dwarf2dbg.c:1225-1265 | the frag keeps both labels and reserves that room |
| LineTable.DeltaFrag.EstimateSize | cctools/as/dwarf2dbg.c:1272-1307 | the first guess is the exact size for the present addresses |
| LineTable.DeltaFrag.Relax | cctools/as/dwarf2dbg.c:1313-1322 | a pass gives the new exact size and its growth |
| LineTable.DeltaFrag.Convert | cctools/as/dwarf2dbg.c:1329-1367 | after the slide the bytes written are as many as the last pass counted, encode the final delta, and fit the reserve |
| Multiply.ColumnsAreProduct | cctools/as/flonum-mult.c:121-144 | the column sums, each at its place, add up to the product |
| Multiply.ColumnsConserved | cctools/as/flonum-mult.c:121-162 | littlenums stored, carry and what wraps lost add up to the columns done so far |
| Multiply.ComputedProduct | cctools/as/flonum-mult.c:121-191 | all littlenums and the last carry, which fits one littlenum, are the product less what wraps lost |
| Multiply.ProductValue | cctools/as/flonum-mult.c:104-197 | the flonum left in a buffer of any length is that number divided by the radix once for each exponent step, rounded down |
| Multiply.ExactIffNoWrap | cctools/as/flonum-mult.c:125-139 | with room for both factors the product is exact if and only if no column wraps |
| Multiply.ShortFactorsNeverWrap | cctools/as/flonum-mult.c:125-139 | no column wraps when the shorter factor has at most two littlenums |
| Multiply.WrapExample | cctools/as/flonum-mult.c:125-139 | the largest factors of any length from three littlenums on wrap and lose something |
| Multiply.CarryBound | cctools/as/flonum-mult.c:138-139 | the carry out of a column is at most the number of its products times the largest littlenum |
| NormalForm.LastColumnKept | cctools/as/flonum-mult.c:121-162 | the last column of normalised factors never wraps, so something of it is always left |
| NormalForm.ProductNormal | cctools/as/flonum-mult.c:145-196 | normalised factors give a product with a non-zero leader, whatever wraps, or an empty one: exactly when both are one littlenum above zeros, the two multiply to a multiple of the radix, and the buffer is less than half as long as both factors |
| NormalForm.VanishingProductExample | cctools/as/flonum-mult.c:145-196 | 2 times 2^31 is such a product in a buffer of one littlenum |
| Flonum.AddColumn | cctools/as/flonum-mult.c:125-144 | the inner loop leaves the column's low littlenum and its carry, the wrap at 32 bits included |
| Flonum.MultiplyLoops | cctools/as/flonum-mult.c:104-197 | both loops and the placing of the carry leave exactly the littlenums and the exponent of the product, in the buffer's bounds |
| Flonum.StoreCarry | cctools/as/flonum-mult.c:170-195 | the carry goes on top when there is room and otherwise everything shifts down by one littlenum |
| Flonum.FlonumMultip | cctools/as/flonum-mult.c:76-198 | the whole function: product, sign rule, and only the sign set when a factor is not a number |
| Flonum.CopyValue | cctools/as/flonum-copy.c:44-72 | a copy is the number divided by the radix once for each littlenum dropped, and a normalised number stays so |
| Flonum.Memset | cctools/as/flonum-copy.c:53-54 | clearing by bytes, a littlenum of two bytes at a time |
| Flonum.FlonumCopy | cctools/as/flonum-copy.c:24-74 | the whole function, with as many bytes cleared as there are littlenums unused; a zero copies only its sign and its leader |
| BitReader.TopBitsStep | cctools/as/atof-ieee.c:83-107 | the first m + n bits of a number are its first m bits followed by the next n |
| BitReader.Reader.NextBits | cctools/as/atof-ieee.c:83-107 | the bits returned are the next bits of the number from its highest one, zeros after its end, and the position moves on |
| BitReader.Reader.UngetBit | cctools/as/atof-ieee.c:112-125 | one bit is put back and is the next one read again, unless it was the last bit of all, when the reader strays to the littlenum above |
| Ieee754.NearestUnit | cctools/as/atof-ieee.c:503-526 | half of one more than twice the number, in units of the exponent, rounded down, encodes the nearest number |
| Ieee754.NearestIsUnique | cctools/as/atof-ieee.c:404-416 | at most one encoding is nearest, ties going away from zero |
| Ieee754.NearestInfinity | cctools/as/atof-ieee.c:458-479 | from the first number too large on, infinity is the nearest |
| Ieee754.LeadingBrackets | cctools/as/atof-ieee.c:316-335 | the leading bits of a number and one more bracket it |
| Encoding.NearestExactlyIfRight | cctools/as/atof-ieee.c:316-538 | for the single and the double format the encoding is the nearest number if and only if the exponent is in the normal range, or in the denormal range with its carry kept, or beyond all ones, or all ones with a zero fraction |
| Encoding.AllOnesExample | cctools/as/atof-ieee.c:458-482 | 1.5 * 2^128 as a single is encoded as not-a-number, which is not nearest |
| Encoding.LostCarryExample | cctools/as/atof-ieee.c:420-455 | a single denormal of sixteen ones and one more is encoded as zero, which is not nearest |
| Encoding.TooSmallExample | cctools/as/atof-ieee.c:458-479 | 2^-160 as a single is encoded as infinity, which is not nearest |
| Words.PropagateCarry | cctools/as/atof-ieee.c:522-526 | the carry loop adds one to the words read as one number, modulo their size |
| IeeeWords.StoreInfinity | cctools/as/atof-ieee.c:469-479 | the words are an infinity of the sign |
| IeeeWords.SeekFirstBit | cctools/as/atof-ieee.c:316-321 | the search stops at the first one bit of any number but zero, after fewer than 16 skips when the leader is not zero |
| IeeeWords.FillWords | cctools/as/atof-ieee.c:499-501 | the words hold the next bits of the number |
| IeeeWords.RoundNormal | cctools/as/atof-ieee.c:522-535 | rounding up adds one to the words, and clears them when the carry reaches the sign |
| IeeeWords.EncodeNormal | cctools/as/atof-ieee.c:484-537 | the normal path leaves the encoding, also when the carry runs into the exponent |
| IeeeWords.StartDenormal | cctools/as/atof-ieee.c:342-399 | the first words of a denormal hold sign, zeros and first bits, or it is found to be too small |
| IeeeWords.RoundDenormal | cctools/as/atof-ieee.c:420-455 | rounding up adds one to a denormal, but loses the carry of sixteen ones |
| IeeeWords.EncodeDenormal | cctools/as/atof-ieee.c:338-457 | the denormal path leaves the encoding |
| IeeeWords.GenFinite | cctools/as/atof-ieee.c:316-538 | every finite number other than zero is encoded, a denormal single bit with what lies above it included, and at most one word after the format is written |
| IeeeWords.GenToWords | cctools/as/atof-ieee.c:243-538 | the whole function: zeros, not-a-number, infinities and finite numbers, all with the words that the code leaves |
| IeeeWords.LoneBitIsLostIff | cctools/as/atof-ieee.c:338-457 | those words differ from the encoding of the number if and only if the flonum is the single bit 1, denormal but not too small, and an even littlenum lies above it |
| Scan.ScanWhole | cctools/as/atof-generic.c:130-156 | the digits before the mark, with leading zeros skipped |
| Scan.ScanFraction | cctools/as/atof-generic.c:157-181 | the digits after the mark; none count when all are zero and another character follows |
| Scan.RetractZeros | cctools/as/atof-generic.c:182-183 | trailing zeros are taken back |
| Scan.ScanExponent | cctools/as/atof-generic.c:186-220 | the exponent is the signed number after the exponent mark |
| Scan.ScanMantissa | cctools/as/atof-generic.c:130-183 | the counted digits are those of the numeral less leading and trailing zeros |
| Scan.ScanNumber | cctools/as/atof-generic.c:130-221 | the scan finds the numeral at its start and ends after it |
| Decimal.DropDigits | cctools/as/atof-generic.c:260-268 | the digits used are the numeral's digits divided by a power of ten, rounded down, and exactly so when none that matters is dropped |
| PowersOfTen.Positive | cctools/as/flonum-const.c:132-145 | the table of 10^(2^n); every entry has a non-zero leader, no zero at its low end and no littlenum above 65417 |
| PowerErrors.SmallNegative | cctools/as/flonum-const.c:117-130 | the negative powers up to 10^-64 are the powers cut off after twenty littlenums |
| PowerErrors.EntryIsSquare | cctools/as/flonum-const.c:117-145 | each later entry, and each positive one from 10^256 on, is the square of the one before, cut off |
| PowerErrors.EighthIsNear | cctools/as/flonum-const.c:132-145 | the entry for 10^128 is too large by at most 3 * 2^-69 of it |
| PowerErrors.EntryIsNear | cctools/as/flonum-const.c:117-145 | every entry of both tables is the power of ten it stands for but for a relative error below 2^-64 |
| PowersOfTen.EntryIsExactIff | cctools/as/flonum-const.c:132-145 | an entry is the power of ten it stands for if and only if it is one of the first seven |
| PowerLoop.OverflowIff | cctools/as/atof-generic.c:446-484 | overflow is reported if and only if the exponent is 2^11 or more |
| PowerLoop.PowerIsExact | cctools/as/atof-generic.c:400-484 | for exponents below 128 the loop yields ten to the exponent when no multiplication on the way loses anything |
| PowerLoop.PowerIsNormal | cctools/as/atof-generic.c:400-484 | every power that the loop computes has a non-zero leader, whatever is cut off and also when it overflows |
| ProductErrors.ProductShare | cctools/as/flonum-mult.c:104-197 | what is left of a product and what its wraps lose make it up but for one part in the radix to the littlenums left less one |
| ProductErrors.FullCut | cctools/as/flonum-mult.c:104-197 | a product without wraps and with few low zeros is exact or fills its buffer |
| PowerAccuracy.EntryNeverWraps | cctools/as/flonum-mult.c:125-139 | no column wraps when one factor is an entry of the tables, whatever the other is |
| PowerAccuracy.StepFills | cctools/as/atof-generic.c:451-484 | with four or six littlenums every multiplication of the loop is of that kind |
| PowerAccuracy.RaiseIsNear | cctools/as/atof-generic.c:451-484 | each step of the loop adds at most two and a half units to the relative error |
| PowerAccuracy.PowerIsNear | cctools/as/atof-generic.c:400-484 | for every exponent below 2^11 in magnitude, of either sign, the power is ten to the exponent but for a relative error of 27.5 units of 2^-48 in four littlenums and of 2^-64 in six |
| PowerLoop.ShortRaise | cctools/as/atof-generic.c:451-484 | for exponents below 16 none does |
| PowerLoop.TableEntry | cctools/as/atof-generic.c:447-450 | the multiplicand is the table's entry as a flonum |
| PowerLoop.MultiplyIn | cctools/as/atof-generic.c:480-481 | multiply and copy back is one step of the loop |
| PowerLoop.PowerOfTen | cctools/as/atof-generic.c:400-484 | the loop on flonums computes the power and the overflow flag |
| DecimalFlonum.RoomIsEnough | cctools/as/atof-generic.c:270-276 | the littlenums reserved hold every number of so many digits |
| DecimalFlonum.TimesTenPlus | cctools/as/atof-generic.c:326-340 | the inner loop multiplies the buffer by ten and adds the digit, the carry out included |
| DecimalFlonum.CollectDigits | cctools/as/atof-generic.c:288-381 | the digits become exactly the integer they denote, normalised, and the abort is not reached |
| DecimalFlonum.MantissaIsTruncated | cctools/as/atof-generic.c:260-268 | the integer read is the numeral's digits less those not used |
| DecimalFlonum.ReadingOverflows | cctools/as/atof-generic.c:456-472 | reading overflows if and only if the numeral is not zero and its exponent is at least 2^11 in magnitude |
| DecimalFlonum.ReadingIsExact | cctools/as/atof-generic.c:65-505 | when nothing is lost on the way the flonum is the numeral's own value |
| DecimalFlonum.ShortNumeralsReadExactly | cctools/as/atof-generic.c:65-505 | nothing is lost for numerals with digits below 2^32 and small exponents |
| DecimalFlonum.OnlyZerosIff | cctools/as/atof-generic.c:255-267 | only zeros are used of a numeral other than zero if and only if it has no whole part and as many leading zeros in the fraction as there are useful digits |
| DecimalFlonum.VanishesIff | cctools/as/atof-generic.c:255-267 | its reading is an empty flonum if and only if that is so |
| DecimalFlonum.VanishingExample | cctools/as/atof-generic.c:255-267 | 0.000000000001 reads as zero into four littlenums |
| DecimalFlonum.VanishedIsZero | cctools/as/atof-generic.c:501-503 | such a number becomes an empty flonum |
| DecimalFlonum.ReadingIsNormal | cctools/as/atof-generic.c:494-505 | every reading is empty or has a non-zero leader, whatever wraps, is cut off or overflows |
| DecimalFlonum.ReadNumeral | cctools/as/atof-generic.c:222-505 | scan, digits, power and last multiplication leave the reading of the numeral |
| DecimalFlonum.AtofGeneric | cctools/as/atof-generic.c:65-505 | the whole function: not-a-number, infinities and numerals, sign and end of text |
| DecimalToIeee.DecimalIsNearestIff | cctools/as/atof-ieee.c:243-538 | a flonum that is exactly a decimal is encoded as the number nearest to the decimal if and only if it takes a right branch |
| DecimalToIeee.NumeralIsNearestIff | cctools/as/atof-ieee.c:153-240 | the same from the text of the numeral on, when reading loses nothing |
| DecimalToIeee.ShortNumeralIsNearest | cctools/as/atof-ieee.c:153-240 | short numerals are always converted to the nearest single or double number |
| DecimalToIeee.SeekIsShort | cctools/as/atof-ieee.c:316-321 | whatever the numeral, a flonum that is read of it and is not empty has fewer than sixteen leading zero bits, so that the search for the first bit ends |
| DecimalToIeee.AtofIeee | cctools/as/atof-ieee.c:153-240 | the whole function from any text to words and to the end of the number, infinity on overflow included |
| NumeralText.NumeralIsRead | cctools/as/atof-generic.c:94-221 | a numeral spelled at start, with a sign or none, digits, a mark and more digits, and an exponent mark with signed digits, any part missing, is read with that sign, those digits and plus or minus the number of its exponent digits, and ends where its spelling does |
| NumeralText.ShortTextIsNearest | cctools/as/atof-ieee.c:153-240 | the words for the text of a short numeral are its sign and the nearest number, ties away from zero |
| NumeralText.TextIsAlmostNearest | cctools/as/atof-ieee.c:153-240 | the words for the text of any readable numeral on a right branch, with safe digits for a double, are its sign and a number than which no other is nearer by more than twice the error of the reading |
| NumeralText.TextOverflows | cctools/as/atof-generic.c:456-472 | the words for a numeral that is not zero and whose exponent is 2^11 or more in magnitude are the infinity of its sign, for negative exponents too |
| NumeralText.ZeroText | cctools/as/atof-generic.c:224-235 | the words for a numeral without other digits than zeros are the zero of its sign |
| NumeralText.WordsAreRead | cctools/as/atof-generic.c:94-128 | nan, inf and infinity in any case, after a sign or none, give a number that is none and the infinity of the sign, and are read to their ends |
| ReadingAccuracy.ReadingIsNear | cctools/as/atof-generic.c:494-505 | a reading, with what the last multiplication loses in wraps, is the number that the digits in use denote but for 27.5 units and the share that this multiplication cuts off |
| ReadingAccuracy.ReadingIsNearValue | cctools/as/atof-generic.c:222-505 | and it is the numeral's own value but for that and one part in the number of the digits in use when some are not used |
| ReadingAccuracy.ShortDigits | cctools/as/atof-generic.c:494-505 | with digits below 2^32 the last multiplication loses nothing in wraps and leaves at most one littlenum empty |
| ReadingAccuracy.SinglesNeverWrap | cctools/as/atof-generic.c:494-505 | in four littlenums the last multiplication never wraps, whatever the numeral |
| SafeDigits.SafeIff | cctools/as/flonum-mult.c:125-139 | a factor is safe, which the product with six littlenums of 0xffff decides, if and only if no product with any factor of at most six littlenums loses anything |
| SafeDigits.LowTopNeverWraps | cctools/as/flonum-mult.c:125-139 | when the highest littlenums of a factor are low enough no column wraps, whatever the other factor is |
| SafeDigits.LowTopIsSafe | cctools/as/flonum-mult.c:125-139 | so digits of one or two littlenums are safe, of three when the highest is at most 0xfffe, of four when it is at most 0xfffd, of five when it is at most 0xfffc and the one below at most 0xfffe |
| ReadingAccuracy.SafeDigitsNeverWrap | cctools/as/atof-generic.c:494-505 | in six littlenums the last multiplication loses nothing when the digits are safe, whatever the exponent |
| ReadingAccuracy.FourteenDigitsAreSafe | cctools/as/atof-generic.c:494-505 | any digits below 10^14 are |
| ReadingAccuracy.LossyNumeralIsAlmostNearest | cctools/as/atof-ieee.c:153-240 | for every numeral that can be read and whose encoding takes a right branch, no other number of the format is nearer to the numeral than the one encoded by more than twice the error of the reading and the worth of what its wraps lose |
| ReadingAccuracy.NumeralIsAlmostNearest | cctools/as/atof-ieee.c:153-240 | for every such single, and every such double with safe digits, by more than twice the error of the reading alone |
| ReadingAccuracy.CutIsAlmostNearest | cctools/as/atof-ieee.c:153-240 | when moreover all digits are used and the last multiplication leaves at most one littlenum empty or is exact, by more than 2^-58 of the numeral for a double and 2^-30 for a single |
| ReadingAccuracy.NineDigitsAreAlmostNearest | cctools/as/atof-ieee.c:153-240 | with up to nine digits and any exponent below 2^11 in magnitude, by more than that share, with no further condition |
| ComputedPowers.CutProduct | cctools/as/flonum-mult.c:104-197 | the product of factors with no zero at their low end, together too long for the buffer and without wraps, is cut off so as to fill it, and is the whole product divided by as many powers of the radix as it is too long, rounded down |
| ComputedPowers.MinusTenIsComputed | cctools/as/atof-generic.c:400-484 | the loop yields the littlenums listed for 10^-1 to 10^-31 in the room for a double |
| ComputedPowers.SmallPowerStarts | cctools/as/atof-generic.c:400-484 | so for exponents from -31 to 31 its power has no zero at its low end, and fills the room when the exponent is negative |
| ManyDigits.FillingIsAlmostNearest | cctools/as/atof-ieee.c:153-240 | with all digits used, up to eleven for a single and twenty-one for a double, the same share bounds the error for every exponent when power and digits do not both end in many zeros and the digits of a double are safe |
| ManyDigits.ManyDigitsAreAlmostNearest | cctools/as/atof-ieee.c:153-240 | in particular for doubles with safe digits and exponents from -31 to 31, when the digits before a positive exponent are no multiple of 2^16 |
| LostReading.PowerIsComputed | cctools/as/atof-generic.c:400-484 | the loop yields 10^-278 in six littlenums, worked out step by step |
| LostReading.CarriesHere | cctools/as/flonum-mult.c:125-139 | the columns and carries of its product with 2^64 - 1, of which exactly the sixth column wraps |
| LostReading.LostExample | cctools/as/atof-generic.c:494-505 | 18446744073709551615e-278 is read with something lost and encoded, on a right branch, as a double that one 2^16 steps above it beats by more than twice the error of the reading |
| Operators.OrNotIsNeverFound | cctools/as/expr.c:1428-1431 | an exclamation mark between operands is always a not-equal of two characters |
| SyntaxTree.OperatorFound | cctools/as/expr.c:1403-1444 | before an operand every operator but or-not is recognised from its own characters |
| OperatorLaws.ComputeObeys | cctools/as/expr.c:539-648 | every operation with a meaning in C obeys its law: product, sum, difference and left shift are exact modulo 2^64, quotient and remainder make up the dividend with a remainder smaller than the divisor and of the dividend's sign, right shift is the floor, comparisons and logical operators are 1 or 0, the others work bit by bit |
| OperatorLaws.ResultIsUnique | cctools/as/expr.c:539-648 | no other 64-bit number obeys the law |
| OperatorLaws.UnaryObeys | cctools/as/expr.c:1046-1071 | so do negation modulo 2^64, logical negation and complement of every bit |
| OperatorLaws.MeaningIsDefined | cctools/as/expr.c:539-648 | an operation has a result unless it shifts by less than 0 or more than 63, or is the one quotient that does not fit |
| Operators.Rank | cctools/as/expr.c:246-263 | every operator has a rank from 1 to 10 and anything else has none |
| Parser.Input.Digits | cctools/as/expr.c:765-797 | the digits at the pointer become a 64-bit number, wrapped, and the pointer stops after them and their suffix |
| Parser.Input.Integer | cctools/as/expr.c:682-800 | a literal of any radix |
| Parser.Input.SymbolName | cctools/as/expr.c:1462-1488 | the longest name at the pointer |
| Parser.Input.Operand | cctools/as/expr.c:671-1102 | reads an operand: number, symbol, unary operator or parentheses, with the white space after it |
| Parser.Input.Expr | cctools/as/expr.c:336-655 | reads operands and operators of higher rank from the left, consuming text at every turn, so that it ends |
| SyntaxTree.NumberFound | cctools/as/expr.c:682-800 | a decimal number is read back from its digits |
| SyntaxTree.OperandFound | cctools/as/expr.c:671-1102 | an operand is read back from its text to its meaning |
| SyntaxTree.ExpressionFound | cctools/as/expr.c:336-655 | an expression with the parentheses its ranks need is read to its meaning, and the rest of the text is left to the caller's rank |
| ExpressionValue.TextMeansTree | cctools/as/expr.c:336-655 | the text of a tree, anywhere in a text and before anything that is no operator, is read to the tree's meaning and ends with it |
| ExpressionValue.ConstantMeaning | cctools/as/expr.c:539-648 | for constants the meaning is the value of the tree by those laws, with a warning exactly of a zero divisor |
| ExpressionValue.ParenthesisedIsWellFormed | cctools/as/expr.c:246-263 | adding parentheses by rank makes any tree writable and leaves a writable one alone |
| ExpressionValue.ParenthesisedValue | cctools/as/expr.c:246-263 | they do not change its value |
| ExpressionValue.ConstantsRoundTrip | cctools/as/expr.c:336-655 | a constant tree printed with the fewest parentheses and read back gives its own value by those laws |
| ConcreteText.TwoOperators | cctools/as/expr.c:246-263 | the text of three numbers with two operators between them is read as C groups it: the operator of the tighter tier first, of equal ones the left one |
| ConcreteText.MissingOperandIsZero | cctools/as/expr.c:361-367 | a number and an operator with nothing after it are zero, with a warning |
| ConcreteText.DecimalLiteral | cctools/as/expr.c:682-800 | up to 21 digits that do not start with a zero are the decimal number they denote, modulo 2^64 |
| ConcreteText.HexadecimalLiteral | cctools/as/expr.c:682-800 | up to 17 digits of either case after 0x or 0X are the hexadecimal one |
| ConcreteText.OctalLiteral | cctools/as/expr.c:682-800 | up to 21 digits after a zero are the octal one, 8 and 9 included |
| ConcreteText.CharacterLiteral | cctools/as/expr.c:1079-1087 | a quoted character is the signed byte of its code |
| ExpressionValue.CleanUpDenotes | cctools/as/expr.c:1118-1157 | cleaning up, equal symbols cancelled, keeps the value denoted |
| ExpressionValue.PlusDenotes | cctools/as/expr.c:405-504 | a sum made without a warning denotes the sum under every valuation of the symbols |
| ExpressionValue.UnaryMinusIsRightIff | cctools/as/expr.c:1046-1071 | a negation denotes the negated value if and only if the operand is absolute or has no number beside its symbol (up to half of 2^64) |
| ExpressionValue.SumMeans | cctools/as/expr.c:336-655 | sums, differences and negations of symbols and numbers, read without a warning, denote their value under every valuation, when no negation meets a symbol with a number |
| ExpressionValue.NegatingPlainlyIsEnough | cctools/as/expr.c:1046-1071 | the condition on negations holds when each of them stands before a constant or a lone name, in parentheses or not |
| ExpressionValue.NegatedOffsetText | cctools/as/expr.c:1046-1071 | the tree of the example is written -(a+4) |
| ExpressionValue.NegatedOffsetExample | cctools/as/expr.c:1046-1071 | -(a+4) has the meaning 4-a |
| Differences.MakeAbsoluteIsRightIff | cctools/as/expr.c:1294-1394 | making a difference of labels absolute keeps its value, by the addresses of the relaxed frags, unless labels of different frags are passed to it and the number is not what the walk is off by |
| Differences.MisroundingIsZeroIff | cctools/as/expr.c:1357-1378 | without maxima the walk over the frags is off by nothing if and only if the first frag stands on a multiple of every power that the walk rounds to and the distance is below 2^32 |
| Differences.PlainDifferenceIsRightIff | cctools/as/expr.c:1294-1394 | so a plain difference of labels of different frags is right if and only if that is so |
| Differences.AppliedWalkIsRight | cctools/as/expr.c:1357-1378 | with maxima too, the walk is right when every alignment on the way is applied and the first frag stands so |
| Differences.MisalignedExample | cctools/as/expr.c:1357-1378 | a label at address 1 and one behind an alignment at 4 are taken to be 4 apart |
| Differences.LimitedAlignExample | cctools/as/expr.c:1357-1378 | an alignment that its maximum skips is counted |
| Differences.DroppedNumberExample | cctools/as/expr.c:1379-1386 | a difference of 3 with 5 added is made 3 |
| ScrubbedText.NextComes | cctools/as/app.c:122-517 | a call returns the first character of what is still to come of the text, when it is no blank outside a string, and leaves the rest to come |
| ScrubbedText.RunComesOut | cctools/as/app.c:122-517 | over every run what has been returned and what is still to come make up what was to come |
| ScrubbedText.RunEnds | cctools/as/app.c:122-517 | a number of calls worked out from the text reads it to its end |
| SourcePieces.PiecesComeOut | cctools/as/app.c:299-517 | what comes of a list of pieces is each one's output in order, whatever the state between two words |
| SourcePieces.FileIsScrubbed | cctools/as/app.c:122-517 | enough calls read a file of complete lines to its end and return, but for blanks outside strings, plain characters and strings unchanged, quoted characters as numbers in parentheses, line markers as directives and no comments, all in order |
| SourcePieces.IndentComesOut | cctools/as/app.c:302-337 | blanks at the start of a line come out as one |
| SourcePieces.WordComesOut | cctools/as/app.c:302-337 | the first word of a line comes out as it is, and the blanks after it come out as one |
| SourcePieces.StringAtEnd | cctools/as/app.c:229-240 | a string that the file ends in is closed, and a newline put after it |
| SourcePieces.CommentAtEnd | cctools/as/app.c:487-496 | so is a newline after a comment that the file ends in |
| SourcePieces.ContinuedStringExample | cctools/as/app.c:242-252 | a string with a backslash before a newline comes out with two backslashes and an n |
| Scrubber.NextConserves | cctools/as/app.c:122-517 | one call keeps newlines unread, newlines owed and newline returned constant, but for one eaten by a quote |
| Scrubber.RunConserves | cctools/as/app.c:122-517 | so does every run: newlines left, newlines in the text returned and newlines eaten add up to those at the start |
| Scrubber.FileConserves | cctools/as/app.c:122-517 | so does every run over a file of complete lines from its start |
| Scrubber.EatenNewlineExample | cctools/as/app.c:389-406 | a quote before a newline eats it |
| Scrubber.NextKeepsApart | cctools/as/app.c:122-517 | a call that drops white space or a comment after a symbol character does not return another symbol character |
| Scrubber.RunNeverJoins | cctools/as/app.c:122-517 | no run joins two symbol characters that were apart |
| Scrubber.FileNeverJoins | cctools/as/app.c:122-517 | in particular none over a file of complete lines |
| Scrubber.NextValid | cctools/as/app.c:122-517 | the state stays one of the twelve, with a return state that makes sense |
| Scrubber.Source.SkipComment | cctools/as/app.c:342-354 | a comment is skipped to its end and its newlines are owed |
| Scrubber.Source.DealWhite | cctools/as/app.c:302-337 | a run of white space becomes one separator, or nothing, by state |
| Scrubber.Source.DealSlash | cctools/as/app.c:339-381 | a slash begins a comment of either kind or stands for itself |
| Scrubber.Source.FlushChar | cctools/as/app.c:299-517 | the common part of a call, with the retries that comments and white space cause |
| Scrubber.Source.ScanLineNumber | cctools/as/app.c:180-212 | the state that looks for a line number after a line comment character |
| Scrubber.Source.ScanString | cctools/as/app.c:213-241 | the state inside a string |
| Scrubber.Source.ScanEscape | cctools/as/app.c:242-280 | the state after a backslash inside a string |
| Scrubber.Source.NextChar | cctools/as/app.c:122-517 | one call on the real fields is one step of the value-level machine |
| HashTable.ComputeHash | cctools/as/hash.c:150-158 | the loop computes the hash of the key in 32 bits |
| HashTable.MoveToFrontPermutes | cctools/as/hash.c:183-188 | moving an entry to the front permutes the chain |
| HashTable.Walk | cctools/as/hash.c:169-197 | the walk finds the entry of the key and the one before it, or there is none |
| HashTable.Relink | cctools/as/hash.c:185-187 | the three pointer assignments move the entry to the front of the linked chain |
| HashTable.Table.constructor | cctools/as/hash.c:82-108 | a new table is the empty map |
| HashTable.Table.Lookup | cctools/as/hash.c:135-198 | finds the key's entry and leaves it first in the bucket of its hash; the map does not change |
| HashTable.Table.Insert | cctools/as/hash.c:205-229 | adds a new key, or reports that it exists and changes nothing |
| HashTable.Table.Jam | cctools/as/hash.c:235-267 | sets the key's value whether or not it was there |
| HashTable.Table.Replace | cctools/as/hash.c:273-292 | sets the value of a key that is there and returns the value before |
| HashTable.Table.Find | cctools/as/hash.c:297-307 | returns the key's value in the map |
| HashTable.Table.Delete | cctools/as/hash.c:327-351 | removes the key and returns its value; the abort is not reached |
| ArFormat.MemberBytes | cctools/ar/archive.c:298-387 | a member's bytes place by place: name or the length of a long one, stamp, size and end mark in sixty characters, then the long name padded with NULs, the contents, and a newline after an odd number of bytes |
| ArFormat.HeaderRoundTrip | cctools/ar/archive.c:246-287 | a written header is read back to name length, name, stamp and size |
| ArObject.GetArobj | cctools/ar/archive.c:230-289 | reads the next member's header and long name, or the end, and goes no further |
| ArObject.CopyAr | cctools/ar/archive.c:404-442 | copies as many bytes as asked, with the pad read and written when asked |
| ArObject.SkipArobj | cctools/ar/archive.c:449-457 | skips the member's data and pad |
| ArObject.PutArobj | cctools/ar/archive.c:298-387 | copies a whole member to the end of another file |
| ArObject.PutFile | cctools/ar/archive.c:298-387 | writes a new member made from a file on disk |
| ArObject.RnameIsLast | cctools/ar/misc.c:145-151 | the name of a path is the part after its last slash, or the whole path when there is none |
| ArObject.NewMemberIsReadableIff | cctools/ar/archive.c:328-358 | the header written for a path is read back, and its member is one of an archive, if and only if the name has at most 252 characters |
| ArObject.UnreadableNameExample | cctools/ar/archive.c:246-287 | a header with a name of 253 characters is not read back |
| ArOperations.Files | cctools/ar/misc.c:120-133 | the first argument that names the member is found and the later ones close the gap |
| ArOperations.DeleteOne | cctools/ar/delete.c:100-108 | one argument deletes only the first member that it names |
| ArOperations.DeleteOneByOne | cctools/ar/delete.c:100-108 | deleting several is deleting one after the other |
| ArOperations.Delete | cctools/ar/delete.c:87-124 | the archive ends up as exactly the members kept, the code says whether arguments are left, and a bad archive stays as it is |
| ArOperations.Split | cctools/ar/move.c:115-136 | the three temporary files hold the members before, selected and after |
| ArOperations.Move | cctools/ar/move.c:91-168 | the archive ends up as before, selected, after; with a missing position member it keeps its bytes |
| ArOperations.MovePermutes | cctools/ar/move.c:115-160 | no member is lost or doubled |
| ArOperations.MoveKeepsOthers | cctools/ar/move.c:115-160 | the members not selected keep their order |
| ArOperations.MovePosition | cctools/ar/move.c:124-131 | they are split right before or right after the first of them that is the position member, which is missing exactly when none of them is |
| ArOperations.MissedPositionExample | cctools/ar/move.c:124-131 | moving a member before or after itself misses the position |
| ArReplace.ReplaceMembers | cctools/ar/replace.c:125-164 | the loop over the members leaves the two temporary files, arguments and error flag as specified |
| ArReplace.ReplaceKeepsOrder | cctools/ar/replace.c:126-164 | the two parts together are the members in their order, each swapped in place |
| ArReplace.ReplacePosition | cctools/ar/replace.c:150-158 | the members are split right before or right after the first one of the position's name that was not replaced, which is missing exactly when there is none |
| ArReplace.MissedReplacedPositionExample | cctools/ar/replace.c:126-158 | so does replacing one before or after itself |
| ArReplace.AddFiles | cctools/ar/replace.c:172-187 | the arguments left over are added in order, those that cannot be opened are skipped and reported |
| ArReplace.Replace | cctools/ar/replace.c:91-207 | the archive ends up as the members in order with the new ones at the position or at the end; with a missing position member it keeps its bytes |
| ArOutcome.ClaimsAreUnique | cctools/ar/misc.c:120-133 | there is one way for the members in turn to use up the first argument left that names them |
| ArOutcome.DeleteOutcome | cctools/ar/delete.c:100-124 | delete leaves exactly the members that use up no argument, in order, and reports exactly the arguments that no member uses up |
| ArOutcome.MoveOutcome | cctools/ar/move.c:105-160 | move puts the members that use up an argument between the others, right before or after the first of these that has the position's name, or at the end without a position; the position is missed exactly when none of these has its name |
| ArOutcome.InPlaceBecomes | cctools/ar/replace.c:126-148 | a member becomes the file of the argument it uses up, with the file's name, stamp and data, if there is such a file and, with the update option, its time is above the number in the first twelve characters of the stamp; otherwise it stays |
| ArOutcome.ReplaceOutcome | cctools/ar/replace.c:125-207 | every member becomes that and stays in its place; the files of the arguments left over stand, in order, at the position or, without one, at the end; a failure is reported exactly when an argument is no file |

## Left out

- Relax.RelaxationIsSound: `.org` and LEB128 frags are not in the chain, since the one may overlap with only a warning and the other can shrink; the ARM relaxer is not modelled, and branch symbols are in the same section or absolute.
- Relax.RelaxationIsMinimal: says nothing of alignments, nor of targets outside the fixed part of their frag, for which the least assignment need not exist.
- Relax.RelaxSection: addresses do not wrap at 32 or 64 bits, and the estimate of a target's variable part is taken to be the length of its present state.
- LayoutAddresses.LayoutAddresses: line frags are not frags of the chain; while the debug sections are laid out all labels stand already, so that their size does not change, as a fill's does not. Symbols' values and the fixups are left out, and branches to absolute addresses are relaxed by section-relative ones as in the code.
- Layout.AlignFrag.Convert: without the i386 path that pads with long no-operation instructions.
- Multiply.ProductValue: the carry between columns is a natural number; by the bound on it, it fits 32 bits when the shorter factor has at most 65537 littlenums.
- Flonum.FlonumMultip: exponents are unbounded integers.
- IeeeWords.GenToWords: requires that a flonum with a leader is not all zeros, as every reading is; flonums of other makers are not covered.
- DecimalToIeee.AtofIeee: the extended and packed formats are left out.
- DecimalFlonum.AtofGeneric: the decimal exponent does not wrap at 32 bits, and the target has at most 1000 littlenums.
- DecimalFlonum.VanishesIff: the same bound on the target.
- ReadingAccuracy.NumeralIsAlmostNearest: for the rooms of four and six littlenums that singles and doubles are read into; for a double it asks for safe digits, since some others fail (LostReading.LostExample). The condition is exact for the digits, but with unsafe digits many exponents give a power that does not wrap, and which ones do is not listed; LossyNumeralIsAlmostNearest covers them all.
- ManyDigits.ManyDigitsAreAlmostNearest: for the other exponents ManyDigits.FillingIsAlmostNearest speaks of the low littlenums of the power, which are worked out here only from 10^-31 to 10^31 and for 10^-278.
- ReadingAccuracy.ReadingIsNearValue: a numeral with leading zeros in its fraction can have few digits in use, and then the error is large; it is stated by the digits in use.
- DecimalFlonum.RoomIsEnough: up to 20000 digits, more than any target of 1000 littlenums uses.
- ExpressionValue.ConstantsRoundTrip: numbers of the tree are below 2^63, as literals of 64 bits are; shifts by 64 or more and the quotient that does not fit have no meaning in C and no result here.
- Differences.MakeAbsoluteIsRightIff: the chain of frags is the one known when the expression is read; alignments are to at most 2^31, and addresses do not wrap.
- ExpressionValue.SumMeans: symbols with an attached expression, local labels, quoted names, floating constants, numbers over 64 bits and the location counter are outside.
- SourcePieces.FileIsScrubbed: a character that starts comments at the start of a line only is not followed where the code may or may not take it for one, which is after a colon (the code goes by the blanks before it) or as plain text at the start of a line; of the blanks that are kept only those of IndentComesOut, WordComesOut and Scrubber.FileNeverJoins are stated.
- NumeralText.TextIsAlmostNearest: not for a flonum that is a single bit, read as a denormal, for which IeeeWords.LoneBitIsLostIff says what is encoded.
- Scrubber.RunConserves: without quoting for the preprocessing option, the version that reads from a string, and a line marker left open at the end of the file.
- HashTable.Table.Replace: data is never null, so that a null result always means a missing key; freeing, traversal and statistics are left out.
- ArOperations.Delete: reads and writes are complete; locking, verbose output and the creation of temporary files are left out.
- ArObject.GetArobj: a size field that is negative or not a number counts as a bad format.
- ArReplace.Replace: the archive exists; creating a new one with a position option writes to a descriptor that was never opened and is not modelled.
- The making of flonums from integers, fixed-size line deltas and the headers of the line table.
- LineTable.ProcessEntries: when the list is compiled the last frag of the section must still have address and repeat zero, since the end of the sequence leaves both out; that is so before layout.
- Choice of relocations, opcode tables and the machine back ends: mostly tables.
- Buffers and includes of the input scrubber, and the storage allocator of the frags.
