# p16as, the P16 assembler: a model of its back end

The P16 assembler turns a list of parsed statements into the bytes of a memory image. This project models everything
between the two: expressions and symbols, the layout of pass one, the code generator, placement of sections, relocation,
the paged memory, and the Intel HEX, Logisim and raw outputs. The phases and their error gates are those of `main`
(`src/pas.cpp:207-265`).

The results, from the widest to the narrowest:

- `Assembler.Assemble`: the whole run is refused exactly when some phase finds the program wrong; otherwise, if its
  sections fit, decoding the lines of the HEX file gives the program's image, no byte missing, repeated or extra, in
  lines that a loader accepts.
- `Statements.SucceedsIff`: which programs those are, in terms of the source: no name defined twice and every `.space`
  size known in pass one, nothing misused in any operand that is evaluated, the rules for registers and operands,
  sections apart, and addresses within the range their fields are checked against.
- `WholeProgram`: on that file, every `.byte`/`.word` item is the value its expression has once sections are placed,
  every instruction decodes to itself with its label operand resolved and is spelled out as a number, a branch or `ldr rd, target` reaches the
  address its target has, and strings, `.space` and `.align` have their bytes.
- `Operators`: what each operator computes, stated on integers, and `ErrorIff`: evaluating an expression is an error
  exactly when something that is evaluated on the way is misused.
- `Relocatable.Soundness`: evaluating before placement and adding a section base afterwards gives the value the
  expression has after placement.
- `LazySymbols.Evaluator`: the nodes and symbols cache what was evaluated last while the parser goes on defining symbols.
  `Perform`: in a run of evaluations, look-ups and definitions in any order, an error is reported exactly when a step
  fails with the symbols defined by then, and if there is none every answer is what all the symbols give. The parser,
  the code generator and the linker all evaluate through one such evaluator, from an empty one to the end of `Assemble`.
- `Layout`, `TwoPass`, `SectionNames`, `CodeGeneration`: which section each statement is in; pass one and pass two agree; the sections are the statements' images in program
  order, and pass two writes only into the room pass one reserved.
- `Relocations`, `Linking`: patching is exact bit by bit, in any order, and the relocations of a program meet its needs.
- `Example` applies the end-to-end results to the manual's endless loop `b .`, and `Perform` to a small run, so their
  conditions can be met; `Counterexamples` has an input for each condition without which a result would be false.
- `Placement`, `MemorySpaces`, `MemoryImages`, `IntelHex`, `Logisim`, `RawBinary`: the remaining phases.

Objects that the source changes in place are classes (`Evaluator`, `SectionTable`, `Section`, `Parser`,
`CodeGenerator`, `MemorySpace`); their methods are proved against functions on values, and the theorems are about those
functions. The modules, in the order they build on each other: `Bits` and `Machine` (bit and word arithmetic),
`Expressions`, `ExactArithmetic`, `Relocatable`, `Stability`, `Operators`, `LazySymbols`, `Sections`, `Placement`, `MemorySpaces`,
`MemoryImages`, `IntelHex`, `Logisim`, `RawBinary`, `Relocations`, `InstructionSet`, `Instructions`, `PcRelative`,
`Layout`, `TwoPass`, `SectionNames`, `PassOneActions`, `CodeGeneration`, `Linking`, `ObjectCode`, `Assembler`,
`WholeProgram`, `Statements`, `Example`, `Counterexamples`.

`dafny verify dfyconfig.toml` checks everything.

## Where the code does less than one would expect

Each of these is stated with the exact condition under which the expected property holds, and with an input on which it
fails.

| what the code does | the condition | an input |
|---|---|---|
| a constant minus a label is typed as a label, so a base is added that should be subtracted (`src/expression.cpp:325-327`) | right exactly when twice the base is a multiple of 2^16: `Relocatable.ConstantMinusLabelIff` | `lbl: .word 5 - lbl` at 0x100: `Counterexamples.MinusInFile` |
| an `.equ` that names a label is relocated with the section of the `.equ` (`src/directive.cpp:209`) | right exactly when both sections start at the same address: `Relocatable.EquOfLabelIff` | `.equ ptr, var` in `.text` with `var` in `.data`: `Counterexamples.AliasInFile` |
| ordering comparisons of labels compare offsets (`src/expression.cpp:357-372`) | right exactly when both or neither of the two addresses wrap: `Relocatable.OrderingIff` | offsets 0 and 0x10 at 0xFFF8: `Counterexamples.OrderingWraps` |
| a left shift is checked after it wrapped to 32 bits (`src/expression.cpp:262`, `src/expression.cpp:290`) | the check is exact on every operand exactly for counts up to 16: `ExactArithmetic.ShiftCheckExactIff` | `0x8000 << 17`: `Counterexamples.ShiftLosesBit` |
| the range check of absolute relocations uses `>` and has no lower bound (`src/relocations.cpp:90`) | an accepted value is kept exactly when it is not negative and not the power of two: `Relocations.AbsoluteCheckIff` | `lbl: mov r0, lbl` at 0x100: `Counterexamples.MoveInFile`; at 0x101 it is refused: `Counterexamples.MoveAssemblesIff` |
| a relocation rewrites 16 bits (`src/relocations.cpp:56-97`) | linking keeps every size exactly when no `.byte label` is on the last byte of a section: `Relocations.SizesKeptIff`, `Linking.ProgramFixes` | `lbl: .byte lbl` alone in `.text`: `Counterexamples.LastByteGrows` |
| the Logisim run test reads one element past the range (`src/sections.cpp:280`, `src/sections.cpp:305`) | one extra element exactly when the last one starts a token and equals its successor: `Logisim.LogisimExact` | memory 1, 7, 7 and the range from 0 to 2: `Counterexamples.RunOverruns` |
| the HEX scan stops at a section above the range (`src/sections.cpp:238-239`) | complete exactly when no such section precedes one that reaches into the range: `IntelHex.FileCompleteIff` | sections at 0x100 and 0, in this order, and the range from 0 to 0x80: `Counterexamples.ScanStops` |
| the two half-width HEX files divide addresses by two (`src/sections.cpp:246-251`) | those of one part interleave back exactly when both its bounds are even: `IntelHex.InterleaveIff` | the part from 1 to 3: `Counterexamples.HalvesMisaligned` |
| selecting a section renames a lone empty one, and what is in it (`src/sections.cpp:134-153`) | a statement is in the section selected before it, unless no statement up to it takes room and another section is selected before the first that does: `Statements.SectionSelected` | `lbl:` and then `.data` and `.byte 1`: `Counterexamples.LabelIsRenamed` |

The documentation and the code disagree in two places, and the model follows the code. The manual pairs `bcs` with
`blo` and `bcc` with `bhs` (`doc/pas_assembly_language.rst:45-47`); the code gives `lo` the word of `cc` and `hs` that
of `cs` (`src/code_generator.cpp:201-208`). The manual says a result of 2^16 or more draws a warning
(`doc/pas_assembly_language.rst:294-296`); for a sum it is an error (`src/expression.cpp:309-313`).

## Model

| member | source | states |
|---|---|---|
| Assembler.Assemble | src/pas.cpp:207-292 | a program is refused iff a phase finds it wrong; otherwise the HEX lines are those of the memory its image was loaded into, and if it fits they, read back, are exactly the image's loadable bytes, each once, in lines of 1 to 16 bytes below 64 KiB with checksum zero |
| Assembler.Build | src/pas.cpp:207-263 | the phases up to the linker, with their gates, succeed iff no statement, overlap or relocation is wrong, and then leave addresses and linked contents as specified |
| Assembler.WriteHex | src/sections.cpp:217-268 | loading memory and writing the default range; for sections in place within 64 KiB the file decodes to exactly the sections and every line is one a loader accepts |
| Assembler.RangeCovers | src/sections.h:180-186 | the default range from lowest base to highest end takes in every section |
| Assembler.PlaceAndLink | src/pas.cpp:245-263 | placing and linking succeed iff sections are apart and every relocation is accepted; sizes and order survive linking when sizes do |
| Assembler.GenerateAll | src/pas.cpp:231-241 | the visits of all statements report an error iff one is wrong, and otherwise leave the concatenated images |
| Assembler.CodeGenerated | src/code_generator.cpp:105-579 | statement images fill exactly the rooms of pass one, so section sizes are sums of statement sizes |
| Assembler.ParsedPrepared | src/pas.cpp:213-222 | an error-free pass one leaves all the code generator relies on: ranked symbols in known sections, rooms of the right sizes, one after the other |
| WholeProgram.ItemInFile | src/code_generator.cpp:534-579 | each byte of each safe `.byte`/`.word` item of a loaded section is in the file, at its address, with the value the expression has after placement |
| WholeProgram.ItemStoredInFile | src/relocations.cpp:45-99 | safe or not, each item is in the file with its relocated value, or zero if it could not be evaluated |
| WholeProgram.FillInFile | src/code_generator.cpp:475-532 | each byte of an `.ascii`, `.asciz`, `.space` or `.align` of a loaded section is in the file at its address |
| WholeProgram.InstructionInFile | src/code_generator.cpp:28-462 | the two bytes at each instruction's address in the file decode to the instruction with its label operand resolved, and are its opcode, registers and operand as numbers (`Instructions.Spelled`) |
| WholeProgram.ReachesStatement | src/relocations.cpp:75-89 | a branch or `ldr rd, label` at an even distance reaches the address the labelled statement has in the file; the same for `.` |
| WholeProgram.ReachesTarget | src/relocations.cpp:75-89 | a branch or `ldr rd, target` at an even distance reaches the value after placement of any safe target expression, such as a label plus a constant |
| WholeProgram.MoveMeansValue | src/code_generator.cpp:379-412 | `mov` and `movt` carry the low byte of the value after placement of their safe operand |
| Statements.SucceedsIff | src/pas.cpp:207-263 | a program is assembled iff no name is defined twice, every `.space` size is known when it is read, every statement is allowed, no two sections overlap and every address is in range |
| Statements.ParsedErrorIff | src/directive.cpp:170-220 | pass one reports an error iff a statement defines a name in use or asks for room of unknown size |
| Statements.WrongIff | src/code_generator.cpp:105-579 | the code generator reports a statement iff something in its operands is misused or it breaks a rule for registers, labels, constants or `.bss` |
| Statements.InstructionAllowedIff | src/code_generator.cpp:105-462 | an instruction is accepted iff its registers fit, its constants are constants, and its label is in its section and near enough |
| Statements.LinksAllowedIff | src/relocations.cpp:45-99 | the linker accepts a statement iff `mov` and `.byte` addresses are at most 0x100, `.word` addresses at most 0x10000, and `ldr rd, label` distances in [0, 128) |
| Statements.MisuseRefused | src/expression.cpp:217-382 | a program with a sum of 2^16 or more, a division by zero, an unknown name or a misused label in an operand that is evaluated is refused |
| Statements.SectionSelected | src/sections.cpp:134-164 | the section of a statement is the one selected last; before any statement takes room, the one selected when the first does |
| Statements.LoadedByName | src/sections.cpp:136-142 | a statement is loaded iff its section is neither `.bss` nor `.stack` |
| Statements.SectionsInFile | src/sections.cpp:219-268 | the file has every byte of every section but `.bss` and `.stack`, and no byte of these two |
| Statements.SectionAddress | src/sections.cpp:192-211 | a section is at its given address, or the first at zero and each other at the first even address after the one before |
| Statements.AlignAligns | src/directive.cpp:225-232 | `.align n` ends at a multiple of 2^n and takes less than 2^n bytes |
| Statements.NextIsAligned | src/directive.cpp:225-232 | the next statement of the section starts at a multiple of 2^n |
| Statements.StringInFile | src/directive.cpp:87-98 | each string is in the file after those before it, and for `.asciz` a zero after it |
| Statements.FillerInFile | src/code_generator.cpp:254-286 | room that is reserved and not written holds 0x55 |
| Statements.ItemLiteral | src/code_generator.cpp:546-577 | the bytes of an item, low byte first |
| WholeProgram.LabelIsAddress | src/statement.h:51-63 | a label's value after placement is the address of its statement |
| WholeProgram.StatementSettled | src/statement.h:51-63 | at the end of pass one each statement still has its room, and its label, `.equ` and `.` symbols are what it defined |
| WholeProgram.StatementAccepted | src/pas.cpp:238-263 | in a successful run no statement is wrong and none of its relocations is refused |
| Example.LoopInFile | doc/pas_assembly_language.rst:449-460 | the file of `b .` and a word naming the loop: at address 0 a branch to address 0, then the loop's address |
| Example.Assembles | doc/pas_assembly_language.rst:449-460 | that program is well formed, is refused by no phase, and fits |
| Example.SumThroughCaches | src/symbols.cpp:87-94 | `n + 1`, evaluated through the caches between the `.equ` of `n` and a later label, is 8 |
| Counterexamples.MinusInFile | src/expression.cpp:325-327 | the file of `lbl: .word 5 - lbl` at 0x100 has 0x105 where 0xFF05 is meant |
| Counterexamples.AliasInFile | src/directive.cpp:209 | the file of a word that names `.data` through an `.equ` in `.text` has 0 where 0x10 is meant |
| Counterexamples.LastByteGrows | src/relocations.cpp:56-97 | `lbl: .byte lbl` is assembled, and linking makes its section one byte longer |
| Counterexamples.ScanStops | src/sections.cpp:238-239 | the file for a range has nothing of a section that follows one above the range |
| Counterexamples.OrderingWraps | src/expression.cpp:356-372 | one label is less than another by offset and greater by address |
| Counterexamples.ShiftLosesBit | src/expression.cpp:261-264 | a shift that loses its only bit is accepted as zero |
| Counterexamples.MoveInFile | src/relocations.cpp:90-97 | an address of 0x100 is accepted for an 8-bit field, and the file has `mov r0, 0` |
| Counterexamples.MoveAssemblesIff | src/relocations.cpp:90-94 | `lbl: mov r0, lbl` is assembled up to address 0x100 and refused from 0x101 on |
| Counterexamples.LabelIsRenamed | src/sections.cpp:134-153 | a label written in `.text` is in `.data` in the end |
| Counterexamples.RunOverruns | src/sections.cpp:279-289 | a Logisim image of two elements expands to three |
| Counterexamples.HalvesMisaligned | src/sections.cpp:246-251 | from an odd start the first byte goes to an even address |
| Machine.MaskTest | src/expression.cpp:81-85 | the mask test on `abs(value)` is exactly the bound 2^16 on the magnitude |
| Machine.ShiftedMask | src/utils.h:32 | `MAKE_MASK(w, p)` is the number with `w` ones from bit `p` on |
| ExactArithmetic.ProductCheckExact | src/expression.cpp:239-242 | the check on a wrapped product is exact, because a product that wraps is at most -131071 |
| ExactArithmetic.ShiftCheckExact | src/expression.cpp:261-264 | for shift counts up to 16 the check on the wrapped result is exact |
| ExactArithmetic.ShiftCheckExactIff | src/expression.cpp:261-264 | counts up to 16 are the only ones for which the check is exact on every operand |
| ExactArithmetic.BinaryNodeExact | src/expression.cpp:217-296 | on absolute operands a node succeeds iff the exact result exists and is below 2^16 in magnitude, and then holds it |
| ExactArithmetic.EvalSane | src/expression.cpp:199-385 | a successful evaluation is typed absolute or label and its value fits, so the evaluator's asserts hold |
| Operators.QuotientLaw | src/expression.cpp:243-251 | `x / y` is the v with v*y <= x < v*y + y; by zero it is an error |
| Operators.RemainderLaw | src/expression.cpp:252-260 | `x % y` is the v below y that differs from x by a multiple of y; by zero it is an error |
| Operators.ProductLaw | src/expression.cpp:239-242 | `x * y` succeeds iff it is below 2^16, with that value |
| Operators.ShiftLeftLaw | src/expression.cpp:261-264 | `x << y` is x * 2^y up to a multiple of 2^32; for counts up to 16 it succeeds iff that is below 2^16 |
| Operators.ShiftRightLaw | src/expression.cpp:265-268 | `x >> y` is the v with v * 2^y <= x < v * 2^y + 2^y |
| Operators.BitsLaw | src/expression.cpp:269-280 | and, or and exclusive or, bit by bit |
| Operators.LogicLaw | src/expression.cpp:281-288 | the logical operators are 1 iff both, or one, of the operands is not zero, and else 0 |
| Operators.SumLaw | src/expression.cpp:297-316 | a sum of constants succeeds iff it is below 2^16, and is an error otherwise |
| Operators.DifferenceLaw | src/expression.cpp:317-343 | a difference of constants succeeds, negative or not |
| Operators.ComparisonLaw | src/expression.cpp:344-382 | each comparison of constants is 1 iff it holds, and else 0 |
| Operators.LabelPairLaw | src/expression.cpp:218-382 | labels of one section are subtracted and compared by their offsets; all else between labels is an error |
| Operators.LabelConstantLaw | src/expression.cpp:218-382 | a label plus or minus a constant is a label of its section; all else between them is an error |
| Operators.UnaryLaw | src/expression.cpp:110-144 | v == x, v + x == 0, v + x + 1 == 0, and 1 iff x is zero |
| Operators.UnaryLabelLaw | src/expression.cpp:117-124 | a unary operator on a label is an error |
| Operators.ConditionalLaw | src/expression.cpp:445-475 | the second operand if the first is not zero, and else the third |
| Operators.ConditionalLabelLaw | src/expression.cpp:451-456 | a label as condition is an error |
| Operators.LiteralLaw | src/expression.cpp:79-87 | a literal is itself if below 2^16 in magnitude, and never an error |
| Operators.NameLaw | src/expression.cpp:92-105 | a label is its offset in its section, an unknown name an error |
| Operators.EquLaw | src/symbols.cpp:80-94 | an `.equ` is its expression's value, cut to 16 bits, unless that is invalid |
| Operators.PriorityLaw | src/expression.h:84-94 | parentheses change nothing but to cut to 16 bits |
| Operators.ErrorIff | src/expression.cpp:92-475 | evaluating is an error iff something that is evaluated is misused |
| Relocatable.Soundness | src/expression.cpp:165-475 | for safe expressions and every layout, a successful evaluation plus the base of its symbol's section is the 16-bit value after placement |
| Relocatable.AbsoluteIgnoresLayout | src/expression.cpp:199-385 | an absolute result is the true value under every layout, so no layout changes it |
| Relocatable.OrderingIff | src/expression.cpp:356-372 | an ordering comparison of two labels of one section evaluates to its value after placement iff the base carries both addresses over the top, or neither |
| Relocatable.ConstantMinusLabelIff | src/expression.cpp:325-327 | a constant minus a label is relocated rightly iff twice the base is zero modulo 2^16 |
| Relocatable.EquOfLabelIff | src/directive.cpp:203-220 | an `.equ` of a label is relocated rightly iff its section and the label's start at the same address modulo 2^16 |
| LazySymbols.Evaluator.constructor | src/pas.cpp:207 | no symbol, no node, and caches that are right |
| LazySymbols.Evaluator.Build | src/expression.h:33-160 | the nodes of an expression, from its operands up, with a symbol for each name and nothing evaluated |
| LazySymbols.Evaluator.SetProperties | src/symbols.h:38-42 | a symbol gets its definition, and everything evaluated without an error still stands |
| LazySymbols.Evaluator.AddLabel | src/statement.h:51-63 | a new name, or one used before, becomes a label; a defined one is an error |
| LazySymbols.Evaluator.AddEqu | src/directive.cpp:209-219 | a new name, or one used before, gets its expression; a defined one is an error |
| LazySymbols.Evaluator.AddDot | src/expression.h:52-65 | a `.` gets a symbol that is a label from the start |
| LazySymbols.Evaluator.Read | src/expression.h:84-94 | an operand's result, type and value, and for a label its symbol and section, are those of evaluating it afresh |
| LazySymbols.Evaluator.Perform | src/symbols.cpp:80-94 | over evaluations, symbol queries and definitions in any order, an error is on record iff some step fails with the symbols defined by then, and otherwise every answer is the one all the symbols together give |
| LazySymbols.Evaluator.Run | src/symbols.cpp:80-94 | any sequence of evaluations and symbol queries gives each the answer it would have with nothing cached, and an error is on record iff one of them has one |
| LazySymbols.Evaluator.Evaluate | src/expression.h:84-94 | evaluating a node, through the caches, leaves the type, value, result and errors of evaluating it afresh |
| LazySymbols.Evaluator.TypeOf | src/symbols.cpp:87-94 | a symbol's cached type and value are those of its definition, whenever it is asked for |
| LazySymbols.Evaluator.EvaluateValue | src/expression.cpp:79-87 | a literal succeeds iff it fits, with its own value |
| LazySymbols.Evaluator.EvaluateIdentifier | src/expression.cpp:92-105 | an identifier gives its symbol's type and value, an undefined one an error |
| LazySymbols.Evaluator.EvaluatePriority | src/expression.h:84-94 | parentheses pass on the inner result, cut to 16 bits |
| LazySymbols.Evaluator.EvaluateUnary | src/expression.cpp:110-144 | unary operators on the 16-bit operand; labels are refused |
| LazySymbols.Evaluator.EvaluateBinary | src/expression.cpp:199-215 | left operand first, right only if it succeeded, then the operator |
| LazySymbols.Evaluator.OperateAbsolutes | src/expression.cpp:217-296 | operators that refuse labels, division by zero and results that do not fit |
| LazySymbols.Evaluator.OperateSum | src/expression.cpp:297-316 | sums with at most one label |
| LazySymbols.Evaluator.OperateDifference | src/expression.cpp:317-382 | differences and comparisons, two labels only if they share their section |
| LazySymbols.Evaluator.EvaluateConditional | src/expression.cpp:445-475 | an absolute condition chooses the one operand that is evaluated |
| LazySymbols.Evaluator.GetSymbol | src/expression.cpp:165-197 | the symbol read off the mutable nodes is the one the label result is relative to |
| LazySymbols.Evaluator.InSameSection | src/expression.cpp:318-320 | the section test on mutable symbols is that on their definitions |
| Stability.LabelIsDefined | src/expression.cpp:165-197 | the symbol of a label result always has a definition |
| Sections.RunConcatenates | src/sections.cpp:134-164 | over any run of selections and appends names stay distinct, and each name holds its fragments in program order; coming back to a name resumes at its end |
| Sections.StepSound | src/sections.cpp:134-164 | one selection stores nothing and moves the current section; one append stores at its end and nowhere else |
| Sections.SectionTable.SetSection | src/sections.cpp:134-164 | selecting by name, with the rename of a lone empty section; numbers stay positions and flags follow names |
| Sections.KindNames | src/sections.cpp:136-142 | every section is loaded but `.bss` and `.stack` |
| Sections.SectionTable.IndexOf | src/sections.cpp:155-160 | the first section of a name, or the length of the table |
| Sections.SectionTable.AppendHere | src/sections.h:124-126 | appending to the current section changes that section alone |
| Sections.SectionTable.IncreaseHere | src/sections.h:132-134 | reserving room fills it with 0x55 |
| Sections.Section.EnsuresSpace | src/sections.cpp:34-39 | a buffer grows with zeros to the size asked for and never shrinks |
| Sections.Section.Write8 | src/sections.cpp:41-45 | one byte stored, growing the buffer if needed, all others kept |
| Sections.Section.Write16 | src/sections.cpp:47-52 | a word stored low byte first |
| Sections.Section.WriteBlock | src/sections.cpp:63-67 | a block stored in place |
| Sections.Section.Fill | src/sections.cpp:69-73 | one byte repeated |
| Sections.Section.Read16 | src/sections.cpp:82-90 | a word, with 0x55 for bytes past the end |
| Placement.SearchExact | src/sections.cpp:177-190 | on a sorted list the search with its early `break` reports free iff the section conflicts with no section at all, at the place that keeps the order |
| Placement.ConflictMeans | src/sections.cpp:181-183 | sections conflict iff they have an address in common; an empty one iff it is inside the other |
| Placement.BaseOfSection | src/sections.cpp:192-211 | given addresses are kept, all others are the first even address after the section before |
| Placement.AddressIsFree | src/sections.cpp:177-190 | inserts iff no placed section conflicts; the list stays sorted and gains exactly this section |
| Placement.SortedIsApart | src/sections.cpp:122-124 | sections of a sorted list are pairwise disjoint |
| Placement.Locate | src/sections.cpp:192-211 | succeeds iff the addresses it would give are pairwise disjoint, and then gives them, with all sections in the sorted list |
| Placement.LocateOne | src/sections.cpp:194-206 | one section gets its address and is placed iff it conflicts with no earlier one |
| Placement.AlignLeast | src/sections.h:78-81 | `align` gives the least multiple of 2^n not below its argument |
| Placement.ImplicitLayout | src/sections.cpp:192-211 | without given addresses nothing is rejected, every base is even, bases follow the table and at most one byte separates neighbours |
| Placement.SortedExtremes | src/sections.h:180-186 | the ends of the sorted list are the least base and the greatest end |
| MemorySpaces.MyLog2 | src/memory_space.cpp:32-40 | the binary logarithm |
| MemorySpaces.PowerOfTwo | src/memory_space.cpp:44-50 | the constructor's test `n & (n - 1)` singles out the powers of two |
| MemorySpaces.MemorySpace.constructor | src/memory_space.cpp:42-60 | a new memory reads as zero everywhere |
| MemorySpaces.MemorySpace.Addressing | src/memory_space.cpp:90-91 | shift and masks find the page and offset of the address modulo the space |
| MemorySpaces.MemorySpace.MakePresent | src/memory_space.cpp:96-99 | a page's first write gives it a page of its own and changes no byte of the memory |
| MemorySpaces.MemorySpace.NextPage | src/memory_space.cpp:103-104 | going on to the next page index, from the last to the first, is going on to the next address |
| MemorySpaces.MemorySpace.WriteRound | src/memory_space.cpp:95-105 | one round of the loop stores its chunk in the flat memory |
| MemorySpaces.MemorySpace.Write | src/memory_space.cpp:88-106 | a write of any length, across pages and the top of the space, stores byte i at (address + i) modulo the size; the zero page stays zero and pages never alias |
| MemorySpaces.MemorySpace.Write8 | src/memory_space.cpp:108-117 | a one-byte write of the flat memory |
| MemorySpaces.MemorySpace.Read8 | src/memory_space.cpp:151-156 | the byte of the flat memory at the wrapped address |
| MemorySpaces.MemorySpace.Read16 | src/memory_space.cpp:158-165 | the two bytes at an address and its successor, low byte first, wrapped |
| MemorySpaces.MemorySpace.Read | src/memory_space.cpp:72-86 | a stretch of the flat memory of any length, wrapped |
| MemorySpaces.StoredHit | src/memory_space.cpp:88-106 | data no longer than the space is found again where it was stored |
| MemorySpaces.StoredMiss | src/memory_space.cpp:88-106 | a byte that no stored byte goes to is unchanged |
| MemoryImages.LoadHit | src/sections.cpp:219-227 | after loading, memory at base + i is byte i of every loadable section |
| MemoryImages.LoadMiss | src/sections.cpp:219-227 | and is untouched where no loadable section is |
| MemoryImages.LoadOrderIrrelevant | src/sections.cpp:219-227 | the order of the table does not matter |
| MemoryImages.LoadMemorySpace | src/sections.cpp:219-227 | the loop loads exactly the loadable sections |
| IntelHex.ChecksumZero | src/sections.cpp:249-257 | the bytes of a record add up to zero modulo 256 |
| IntelHex.FileTidy | src/sections.cpp:243-259 | for any word size, every data record of a file whose sections end within 64 KiB has 1 to 16 bytes, stays below 64 KiB and adds up to zero |
| IntelHex.LineSizes | src/sections.cpp:248-258 | every data record has 1 to 16 bytes and says so |
| IntelHex.DecodeLines | src/sections.cpp:246-259 | the records of one section tile its part of the range contiguously |
| IntelHex.FileExact | src/sections.cpp:234-260 | the byte-wide file loads exactly what the sections reached by the scan hold in the range |
| IntelHex.FileNoRepeats | src/sections.cpp:234-260 | no address is loaded twice |
| IntelHex.FileCompleteIff | src/sections.cpp:238-239 | every wanted byte is there iff no loadable section above the range precedes one that reaches into it |
| IntelHex.WholeRangeExact | src/sections.cpp:229-268 | for a range that takes in every section, the file is exactly the sections' bytes |
| IntelHex.InterleaveIff | src/sections.cpp:243-256 | the two halves of one section's part interleave back iff both bounds are even |
| IntelHex.HalfFilesMerge | src/sections.cpp:229-268 | the two half-width files hold together what the byte-wide file holds, when every part that goes into them has even bounds |
| IntelHex.EmitLine | src/sections.cpp:249-257 | one record: count, address, the memory's bytes and the checksum |
| IntelHex.EmitSection | src/sections.cpp:248-259 | one section's loop writes full records and then the rest |
| IntelHex.BinaryHexIntel | src/sections.cpp:229-268 | the whole file, with its `continue` and `break`, is the specified list of records and the end record |
| Logisim.ExpandExact | src/sections.cpp:270-320 | expanding the tokens gives the range in order, with at most one true element after it |
| Logisim.LogisimExact | src/sections.cpp:270-320 | the expansion is memory at lower + byte order + k * word size for every k of the range, low byte first for 16-bit elements, and one more iff the run test reads past its end |
| Logisim.ElementBytes | src/sections.cpp:302-308 | a 16-bit element has the byte at its address as low byte and the next one as high byte |
| Logisim.TokensMinimal | src/sections.cpp:279-289 | neighbouring tokens differ in value and every printed count is at least two |
| Logisim.NextToken | src/sections.cpp:276-290 | one round of the outer loop prints the next token and moves past it |
| Logisim.SkipRun | src/sections.cpp:282-285 | the inner loop stops at the end of the run or of the range |
| Logisim.BinaryLogisim | src/sections.cpp:270-320 | both outputs, by bytes and by 16-bit words, are the token list of the range; the loops end |
| RawBinary.RawWhole | src/sections.cpp:322-336 | the full-width file is the range, byte for byte |
| RawBinary.HalvesInterleave | src/pas.cpp:288-300 | alternating the two half-width files gives the full-width file, for any bounds |
| RawBinary.BinaryRaw | src/sections.cpp:322-336 | the loop writes every word-size-th byte from lower + byte order on |
| Relocations.PatchBit | src/relocations.cpp:95-96 | patching replaces the field's bits by the value's and no other bit |
| Relocations.AppliedBits | src/relocations.cpp:56-97 | reading, patching and writing the word changes the field's bits of the section and no other |
| Relocations.AppliedSizeIff | src/relocations.cpp:56-97 | a relocation keeps the section's size iff both bytes of its word are inside |
| Relocations.ApplyAllSizes | src/relocations.cpp:45-99 | relocations inside their sections keep every size |
| Relocations.SizesKeptIff | src/relocations.cpp:45-99 | any number of relocations keep every size iff all their words were inside before the first |
| Relocations.LinkValue | src/relocations.cpp:48-94 | the value computed from the evaluator's symbol and section; an absolute one is refused iff the section's address plus the addend is greater than 2^width |
| Relocations.UntouchedBit | src/relocations.cpp:45-99 | a bit outside all fields is unchanged |
| Relocations.FieldBit | src/relocations.cpp:45-99 | each bit of each of any number of disjoint fields is its value's bit |
| Relocations.FieldReadsBack | src/relocations.cpp:95-97 | every field reads back its value cut to the width, and a value in range unchanged |
| Relocations.OrderIrrelevant | src/relocations.cpp:45-47 | lists with the same disjoint relocations, in any order, give the same sections |
| Relocations.AbsoluteRefusedIff | src/relocations.cpp:90-94 | an absolute relocation of a defined symbol is reported iff the section's address plus the addend is greater than 2^width |
| Relocations.RelativeRefusedIff | src/relocations.cpp:75-89 | a PC-relative one is reported iff the distance is negative or 2^(width + 1) or more |
| Relocations.AbsoluteCheckIff | src/relocations.cpp:90-97 | an accepted address reads back from its field iff it is not negative and not the power of two |
| Relocations.RelocateOne | src/relocations.cpp:47-98 | one round patches the word with the computed value, or skips an undefined symbol, and reports an error iff the value is refused |
| Relocations.Relocate | src/relocations.cpp:45-99 | the whole loop applies every relocation and reports an error iff one is refused |
| InstructionSet.DecodeEncode | src/code_generator.cpp:28-101 | every instruction's code word decodes to its opcode, registers and operand |
| InstructionSet.EncodeInjective | src/code_generator.cpp:28-101 | no two instructions share a code word |
| InstructionSet.EncodeDecode | src/code_generator.cpp:28-101 | a word that decodes is the encoding of what it decodes to |
| Instructions.EncodeLoadLabel | src/code_generator.cpp:105-133 | `ldr rd, label`: its word, its relocation, and an error iff it is not a plain load of a label of its own section |
| Instructions.EncodeIndexed | src/code_generator.cpp:135-188 | loads and stores with a constant index, halved for words |
| Instructions.EncodeIndexedByRegister | src/code_generator.cpp:135-188 | loads and stores with a register index |
| Instructions.EncodeBranch | src/code_generator.cpp:190-252 | branches: the word for each condition, and an error iff the label is in another section or out of range |
| Instructions.BranchOffset | src/code_generator.cpp:222-249 | the encoded distance of a branch and when it is refused |
| Instructions.EncodeShift | src/code_generator.cpp:254-286 | shifts; nothing is written when the count cannot be evaluated |
| Instructions.EncodeArithRegisters | src/code_generator.cpp:297-320 | sums and differences of registers, with and without carry |
| Instructions.EncodeArithImmediate | src/code_generator.cpp:321-355 | sums and differences with a constant; carry forms are refused |
| Instructions.EncodeMoveImmediate | src/code_generator.cpp:379-412 | `mov` and `movt` of a constant, or of a label through a relocation |
| Instructions.EncodeCopy | src/code_generator.cpp:379-384 | `mov rd, rs` |
| Instructions.EncodeSummed | src/code_generator.cpp:288-377 | `rrx`, logic, `not` and `movs` words, and their register errors |
| Instructions.EncodeCompare | src/code_generator.cpp:424-432 | `cmp` |
| Instructions.EncodeStatus | src/code_generator.cpp:434-454 | `msr` and `mrs` |
| Instructions.EncodeStack | src/code_generator.cpp:456-462 | `push r` is 0x2400 + r and `pop r` is 0x0400 + r |
| Instructions.MeaningSpelled | src/code_generator.cpp:28-101 | the word of every accepted instruction before linking, form by form, as numbers |
| Instructions.EncodeInstruction | src/code_generator.cpp:105-462 | every visit's mask-and-or code is the encoding of what the instruction means, the same as its word in numbers, with its relocations and its error condition |
| PcRelative.BranchReaches | src/code_generator.cpp:231-249 | a branch is accepted iff its displacement is in [-1024, 1024), and at every base its word reaches an even label |
| PcRelative.LoadReaches | src/relocations.cpp:75-89 | `ldr rd, label` is accepted iff the distance is in [0, 128), and at every base its field reaches an even label |
| ObjectCode.ResolveSpelled | src/code_generator.cpp:28-101 | the word of every accepted instruction after linking, as numbers |
| Layout.AlignSizeAligns | src/sections.h:78-81 | short of the 32-bit top, the room of `.align n` ends at a multiple of 2^n and is less than 2^n |
| Layout.NextInSection | src/directive.cpp:45-232 | the next statement of a section starts where the one before it there ends |
| Layout.TextAt | src/directive.cpp:87-98 | each string is at the sum of the lengths before it, for `.asciz` followed by a zero |
| SectionNames.LooseNames | src/sections.cpp:134-153 | from an empty lone section, what precedes the first room is in the section selected there, all else in the one selected at it |
| SectionNames.SettledNames | src/sections.cpp:134-164 | once a section holds something no name changes, and every statement is in the section selected at it |
| Layout.RunLaid | src/directive.cpp:45-232 | after any program each section is the concatenation of its statements' rooms across fragments, and each offset is the sum of the sizes before it |
| Layout.GatherSlot | src/directive.cpp:45-232 | a statement's room in its section holds its slice |
| Layout.GatherReplace | src/directive.cpp:45-232 | exchanging one slice for another of its size changes that room only |
| Stability.Stable | src/symbols.cpp:87-94 | an error-free evaluation gives the same result after more symbols are defined |
| TwoPass.PassOneSettles | src/directive.cpp:45-232 | when an error-free pass one ends, every statement has its room, its label, its `.equ` and its `.` symbols as it defined them, and `.space` sizes are those the final symbols give |
| TwoPass.RunEqus | src/directive.cpp:203-220 | every `.equ` symbol has the statement that defines it, so that the code generator evaluates it |
| TwoPass.PassOneErrorIff | src/directive.cpp:170-220 | an error is reported iff a statement defines a name in use or its own name twice, or is a `.space` of unknown size |
| TwoPass.DefinedOnce | src/statement.h:51-63 | a program that defines a name twice, by labels or `.equ`, is an error |
| TwoPass.RedefinitionFails | src/directive.cpp:210-219 | a defined name stays defined, and a later definition is an error however far off |
| PassOneActions.Parser.Parse | src/p16.ypp:230-279 | the constructors, statement by statement, with what they evaluate on the way, report an error iff pass one does, and otherwise carry it out |
| PassOneActions.Parser.Add | src/statement.h:51-63 | one statement: its `.` symbols, its operands, its body, then its label |
| PassOneActions.Parser.constructor | src/pas.cpp:207 | an empty program with `.text` selected |
| PassOneActions.Parser.DefineDots | src/expression.h:52-65 | each `.` becomes a label at the end of the current section |
| PassOneActions.Parser.Reserve | src/instruction.h:45-50 | the statement's place is the section's end, which moves by its size |
| PassOneActions.Parser.Section | src/directive.cpp:45-52 | `.section` selects and takes no room |
| PassOneActions.Parser.Ascii | src/directive.cpp:87-98 | `.ascii` and `.asciz` append their strings and take their length |
| PassOneActions.Parser.SpaceOf | src/directive.cpp:170-180 | `.space` takes the size its operand's nodes evaluate to now, and is an error if that is not known |
| PassOneActions.Parser.EquOf | src/directive.cpp:203-220 | `.equ` defines its name in the current section, once |
| PassOneActions.Parser.AlignTo | src/directive.cpp:225-232 | `.align` takes the distance to the aligned offset, by the 16-bit value its operand has before it is evaluated |
| PassOneActions.Parser.AddLabel | src/statement.h:51-63 | a label is the statement's section and offset; an existing symbol is an error |
| CodeGeneration.CodeGenerator.Generate | src/pas.cpp:231-236 | sections keep their sizes, an error is reported iff a statement is wrong, and otherwise every section is its statements' images in program order |
| CodeGeneration.CodeGenerator.VisitNext | src/pas.cpp:233-235 | one visit replaces one reserved slice and leaves all others |
| CodeGeneration.CodeGenerator.Visit | src/code_generator.cpp:105-579 | a visit writes only into its statement's room, adds its relocations, and reports an error iff the statement is wrong |
| CodeGeneration.CodeGenerator.VisitInstruction | src/code_generator.cpp:105-462 | the instruction's word goes to its two bytes |
| CodeGeneration.CodeGenerator.VisitValues | src/code_generator.cpp:534-579 | the loop stores every item in turn and leaves a relocation for each label |
| CodeGeneration.CodeGenerator.VisitItem | src/code_generator.cpp:546-577 | one item: its value or zero, its relocation, and the `.bss` error |
| CodeGeneration.CodeGenerator.VisitSpace | src/code_generator.cpp:475-517 | `.space` is filled when its operands are constants; labels are errors |
| CodeGeneration.CodeGenerator.Read | src/expression.h:84-94 | a visit reads its operand through the evaluator's caches |
| CodeGeneration.CodeGenerator.VisitAlign | src/code_generator.cpp:519-532 | padding is zero when the operand is a constant; a label is an error |
| CodeGeneration.CodeGenerator.VisitEqu | src/code_generator.cpp:467-473 | an `.equ` whose expression is wrong is an error even if it is not used |
| CodeGeneration.SlotReplaced | src/code_generator.cpp:105-579 | a change confined to one room leaves every section the concatenation of its slices |
| CodeGeneration.ImageSize | src/code_generator.cpp:105-579 | a statement's image is as long as its room |
| Linking.AllOrdered | src/code_generator.cpp:105-579 | the relocations of one section come in the order of their fields, none overlapping |
| Linking.AllSound | src/code_generator.cpp:105-579 | every relocation has a defined symbol, known sections and a word in its statement's room, `.byte` apart |
| Linking.ProgramFixes | src/relocations.cpp:45-99 | a program's fields are disjoint, and linking keeps every size iff no `.byte label` is on a section's last byte |
| ObjectCode.RoomsApart | src/directive.cpp:45-232 | rooms of two statements of one section do not overlap |
| ObjectCode.OwnBit | src/relocations.cpp:95-97 | a bit of a statement's field is the bit of the value linked into it |
| ObjectCode.PlainBit | src/relocations.cpp:45-99 | every other bit of a statement's room is as the code generator left it |
| ObjectCode.PlainByte | src/relocations.cpp:45-99 | the bytes of a statement without relocations are those of its image |
| ObjectCode.ItemHoldsValue | src/code_generator.cpp:546-577 | a linked item is the low bytes of its value plus its section's base, and so of its value after placement, or zero if it could not be evaluated |
| ObjectCode.InstructionDecodes | src/code_generator.cpp:105-462 | every accepted instruction of a linked section decodes to itself with its operand resolved |
| ObjectCode.ReachesLabel | src/code_generator.cpp:105-252 | decoded branches and loads of a linked section reach their labels, wherever the section is |

## Left out

- The lexer and the grammar (`src/p16.l`, `src/p16.ypp`): the model starts from statements and expression trees. Names
  are not empty, `.` symbols have a name of their own per line, and literals are 32-bit integers.
- Texts: diagnostics, the listing, `to_string`, symbol and relocation dumps. Errors are counted; warnings have no effect
  and are not modelled.
- Options and file streams: outputs are lists of records, tokens or bytes. The end-to-end theorem is about the Intel HEX
  output with one byte per word and the default range; the other outputs are modelled from a given memory.
- Cyclic `.equ` definitions: the source then recurses without end. The model takes an order in which the `.equ`
  symbols can be computed, as a ghost parameter that is used for termination only.
- Fields that the source reads before assigning them: a node's `value` until an evaluation assigns it is an arbitrary
  fixed number (`unset`), a literal's its own.
- CodeGeneration.CodeGenerator.VisitEqu: an `.equ` of a name that was used before deletes its own symbol
  (`src/directive.cpp:214-217`) and its visit then reads the deleted one (`src/code_generator.cpp:469`). The model reads
  the symbol in the table, which is the one that was meant.
- `.align` powers from 31 on are undefined in the source; `Placement.AlignLeast` covers those short of the 32-bit range.
- Shift counts from 32 on are undefined in the source; the model takes them modulo 32.
- `Relocation_type::RELATIVE` and a grain of 4 bytes: nothing produces them.
- `Memory_space::write16`, `write32` and `read32`: nothing calls them.
- PassOneActions.Parser.Parse: after the first error the parser's state is only known to stay in error; sizes and caches
  may then differ, and the program is refused.
- Sections.Section.Write16: offsets and sizes are unbounded, so the 32-bit wrap of `offset + size` is not modelled.
- IntelHex.BinaryHexIntel: requires a lower address not above the higher one; otherwise the source's unsigned length
  wraps.
- Assembler.Assemble: asks that section ends fit the source's 32-bit addresses, should the program get that far. That the
  file is the image holds for programs whose sections end within 64 KiB with no `.byte label` on a last byte; for others
  the file is only known to be written from the memory the image was loaded into, wrapping as it does.
- Statements.SucceedsIff: section offsets and addresses below 0x7FFF0000, where the source's `int` arithmetic does not
  overflow.
- Operators.ShiftLeftLaw: counts below 32, and so for `>>`; from 32 on C leaves shifts undefined.
- PcRelative.LoadReaches: section offsets below 0x7FFF0000, where the source's `int` arithmetic does not overflow.
- MemorySpaces.MemorySpace.Read16: the source reads an even address as a 16-bit word of the host; the model takes the host
  to be little-endian.
- What the P16 processor does with the code: the repository does not say.
