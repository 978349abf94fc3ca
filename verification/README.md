# Verified model of the rocketasm assembler and the rocketvm machine

The project models the path from assembly text to a running machine: the scanner,
parser and program store of rocketasm, its encoder and emitter, and the 16-bit CPU,
flat memory and run loop of rocketvm. `dafny verify dfyconfig.toml` checks all of it.

How the parts fit together:

- `Isa`, `Bits`, `WordFormat`, `BitTricks`: machine integers are `int` in their C
  ranges; `&`, `|`, `^` and the shifts are defined bit by bit, and lemmas turn each
  mask of the source into division and remainder.
- `Machine` gives one cycle as a function on states and states results and flags by
  meaning (sums, signed ranges, last bit shifted out). `FlatMemory.Memory`,
  `Processor.Cpu` and `VirtualMachine.Vm` are the objects of the source; their methods
  update fields and arrays with the source's masks and are proved to refine `Machine`.
- `ProgramStore`, `Lexing`, `Parsing`, `Encoder`: the objects and loops of the
  assembler. `Grammar` says what a token sequence means, `Listing` is the printer.
- `Symbolic` is an address-free meaning of a program: instruction numbers, labels, a
  list of return numbers, a table of data words. `Simulation` proves that emitted bytes
  run as this meaning says; `Agreement` compares parser and encoder; `RoundTrip` proves
  that printing and parsing undo each other; `Invariants`, `Termination` and `Laws` are
  about all runs of the machine; `Pipeline` joins the stages.

Main results: `Simulation.AssemblerCorrect` and `Pipeline.SourceCorrect` (lock-step
simulation for runs of any length, with the exact condition of the model in
`Simulation.DefinedExactly`), `RoundTrip.SourcesExactly` and `RoundTrip.ListingIsCanonical`,
`Grammar.ParserExact`, `Invariants.CallReturnsToNext`, `Invariants.MemoryIsWords`,
`Termination.ForwardProgramStops`, `Termination.FallsOffTheEnd`, `Pipeline.ImageExactly`.

Where code and documentation differ, the model follows the code:

- specification/Architecture.md:15 says the stack is 16-bit aligned. RSP starts at
  0xFEFF and moves by 2, so it is always odd (`Invariants.InvariantOfRuns`).
- specification/Architecture.md:186 calls alignment of data addresses recommended. LOAD
  and STORE at an odd address halt the machine.
- A label in brackets denotes its instruction number modulo 256, not a byte address, and
  immediates are reduced modulo 256.
- The 11-bit range assert of a label jump tests the displacement after its conversion to
  `int16_t`. In a program of at most 16383 instructions the conversion loses nothing
  (`Agreement.ReachInSmallPrograms`); in a larger one a far label can slip through
  (`Pipeline.FarJumpIsCut` gives a source text), and `Agreement.SlipsExactly` says exactly
  when one does.

## Model

| member | source | states |
|---|---|---|
| WordFormat.DecodeEncode | rocketvm/common/isa/encoder.h:10-24 | Decoding an encoded word gives back opcode, register, mode and operand, for all fields. |
| WordFormat.EncodeDecode | rocketvm/common/isa/encoder.h:10-24 | Encoding the decoded fields of any 16-bit word gives the word back. |
| WordFormat.DecodeFields | rocketvm/common/isa/encoder.h:15-24 | The shifts and masks of the decoder read the 4/3/1/8-bit fields of the layout. |
| WordFormat.SignExtendMeaning | rocketvm/cpu/cpu_ctrlf.c:39-46 | The inline decoder of JMP and CALL reads the mode bit and the 11-bit field as two's complement. |
| WordFormat.JumpImmLayout | rocketvm/common/isa/encoder.h:136-173 | A displacement in [-1024, 1023] survives the 11-bit mask and the sign extension of the other decoder, next to the opcode and mode. |
| WordFormat.JumpRegLayout | rocketvm/common/isa/encoder.h:142-178 | A register jump is read back as register mode with the same register and opcode. |
| FlatMemory.Memory.ReadUint16 | rocketvm/memory.h:29-35 | Reads the little-endian word at an offset; its precondition is the original's assert. |
| FlatMemory.Memory.WriteUint16 | rocketvm/memory.h:37-44 | Replaces exactly the two bytes of the word and nothing else. |
| BitTricks.SumTricks | rocketvm/cpu/cpu_alu.c:10-32 | The mask-and-xor flag tests of ADD say zero, sign, unsigned carry and signed overflow. |
| BitTricks.DifferenceTricks | rocketvm/cpu/cpu_alu.c:41-64 | The same for SUB and CMP, through the uint32_t difference: equality, sign, borrow, signed overflow. |
| BitTricks.ShiftLeftTricks | rocketvm/cpu/cpu_alu.c:186-209 | The masks of SHL compute the product by 2^k cut to 16 bits, the last bit lost, and a sign change for a shift by 1. |
| BitTricks.ShiftRightTricks | rocketvm/cpu/cpu_alu.c:220-245 | The masks of SHR compute the quotient, the last bit lost, and leave RO alone, also for a shift by 0. |
| Processor.Cpu.ExecMov | rocketvm/cpu/cpu_data.c:3-12 | In place, refines the MOV step: the source value in the destination register, nothing else changed. |
| Processor.Cpu.ExecLoad | rocketvm/cpu/cpu_mem.c:4-25 | Refines the LOAD step: faults exactly at 0xFFFF and odd addresses, else one register gets the word. |
| Processor.Cpu.ExecStore | rocketvm/cpu/cpu_mem.c:27-53 | Refines the STORE step: the same faults, else one word of memory changes. |
| Processor.Cpu.ExecAdd | rocketvm/cpu/cpu_alu.c:4-33 | Refines the ADD step, whose flags are stated by unsigned and signed ranges. |
| Processor.Cpu.ExecSub | rocketvm/cpu/cpu_alu.c:35-65 | Refines the SUB step, whose flags are stated by order and signed range. |
| Processor.Cpu.ExecMul | rocketvm/cpu/cpu_alu.c:67-95 | Refines the MUL step: the mathematical product cut to 16 bits, RC and RO when it did not fit. |
| Processor.Cpu.ExecDiv | rocketvm/cpu/cpu_alu.c:97-133 | Refines the DIV step: halts on a zero divisor, else quotient and RZ, RN only. |
| Processor.Cpu.ExecMod | rocketvm/cpu/cpu_alu.c:135-171 | Refines the MOD step: halts on a zero divisor, else remainder and RZ, RN only. |
| Processor.Cpu.ExecShl | rocketvm/cpu/cpu_alu.c:173-210 | Refines the SHL step; a shift by 0 changes nothing at all. |
| Processor.Cpu.ExecShr | rocketvm/cpu/cpu_alu.c:212-246 | Refines the SHR step; a shift by 0 still rewrites RZ, RN and RC. |
| Processor.Cpu.ExecCmp | rocketvm/cpu/cpu_ctrlf.c:4-32 | Refines the CMP step: the flags of SUB with no register written. |
| Processor.Cpu.ReadTarget | rocketvm/cpu/cpu_ctrlf.c:38-48 | The target is RIP plus the signed offset modulo 2^16, or a register. |
| Processor.Cpu.ExecJmp | rocketvm/cpu/cpu_ctrlf.c:34-61 | Refines the JMP step: faults at 0xFFFF and odd targets, else only RIP changes. |
| Processor.Cpu.ExecJz | rocketvm/cpu/cpu_ctrlf.c:63-70 | Jumps exactly when RZ is set. |
| Processor.Cpu.ExecJnz | rocketvm/cpu/cpu_ctrlf.c:72-79 | Jumps exactly when RZ is clear. |
| Processor.Cpu.ExecCall | rocketvm/cpu/cpu_ctrlf.c:81-116 | Refines the CALL step: target and stack checks, then RSP down by 2, the return address stored, RIP at the target. |
| Processor.Cpu.ExecRet | rocketvm/cpu/cpu_ctrlf.c:118-141 | Refines the RET step: halts on an empty stack, else pops; a bad address faults after the pop. |
| Processor.Cpu.Execute | rocketvm/cpu/cpu.c:66-81 | Dispatch fails exactly on an opcode number of 16 or more and otherwise runs the step of the opcode. |
| Processor.Cpu.Cycle | rocketvm/cpu/cpu.c:37-64 | One cycle refines the machine step with no memory assert reachable, and fails exactly when not halted and RIP > 0x7FFD. |
| VirtualMachine.Vm.constructor | rocketvm/vm.c:9-22 | A new machine is all zero except RSP at 0xFEFF. |
| VirtualMachine.Vm.Load | rocketvm/vm.c:41-51 | Copies an image that fits to address 0 and leaves the rest; refuses a larger one unchanged. |
| VirtualMachine.Vm.Run | rocketvm/vm.c:54-67 | A run that stops ends in a state reached by some number of cycles; 0 means halted, -1 means RIP >= 0x7FFE. |
| InstructionReference.OpcodeRanges | rocketvm/common/isa/opcode.h:4-25 | Opcode by opcode, the 0x1000 words that it owns. |
| InstructionReference.NewMachineState | rocketvm/vm.c:9-22 | Registers, memory, flags and RIP of a new machine are zero and RSP is 0xFEFF. |
| InstructionReference.NoFetch | rocketvm/cpu/cpu.c:37-56 | A halted machine, or one with RIP past 0x7FFD, does not change. |
| InstructionReference.MovCycle | rocketvm/cpu/cpu_data.c:3-12 | One cycle on the bytes of a word 0x0000 + 0x200 d + 0x100 m + x: register d gets x or register x mod 8. |
| InstructionReference.LoadCycle | rocketvm/cpu/cpu_mem.c:4-25 | On 0x1000 + ...: halts on an odd address, else reads two bytes, low first, anywhere in memory, the stack and the program included. |
| InstructionReference.StoreCycle | rocketvm/cpu/cpu_mem.c:27-53 | On 0x2000 + ...: halts on an odd address, else writes just those two bytes, anywhere in memory. |
| InstructionReference.AddCycle | rocketvm/cpu/cpu_alu.c:4-33 | On 0x3000 + ...: the sum modulo 2^16 and all four flags, bit by bit. |
| InstructionReference.SubCycle | rocketvm/cpu/cpu_alu.c:35-65 | On 0x4000 + ...: the difference modulo 2^16 and all four flags. |
| InstructionReference.MulCycle | rocketvm/cpu/cpu_alu.c:67-95 | On 0x5000 + ...: the product modulo 2^16; carry and overflow both say that it did not fit. |
| InstructionReference.DivCycle | rocketvm/cpu/cpu_alu.c:97-133 | On 0x6000 + ...: halts on a zero divisor, else the quotient, zero and negative by value, carry and overflow kept. |
| InstructionReference.ModCycle | rocketvm/cpu/cpu_alu.c:135-171 | On 0x7000 + ...: halts on a zero divisor, else the remainder, zero and negative by value, carry and overflow kept. |
| InstructionReference.ShlCycle | rocketvm/cpu/cpu_alu.c:173-210 | On 0x8000 + ...: the count is the operand modulo 16; by 0 only RIP moves, by k the product by 2^k modulo 2^16, carry bit 16-k. |
| InstructionReference.ShrCycle | rocketvm/cpu/cpu_alu.c:212-246 | On 0x9000 + ...: the count is the operand modulo 16; the quotient by 2^k, carry bit k-1, zero and negative by value, overflow kept. |
| InstructionReference.CmpCycle | rocketvm/cpu/cpu_ctrlf.c:4-32 | On 0xA000 + ...: the four flags of the difference, no register. |
| InstructionReference.JmpCycle | rocketvm/cpu/cpu_ctrlf.c:34-61 | On 0xB000 + 0x800 m + x: RIP at the sum of the next address and the signed 11-bit x modulo 2^16, or at register x mod 8; halts on an odd target. |
| InstructionReference.JzCycle | rocketvm/cpu/cpu_ctrlf.c:63-70 | On 0xC000 + ...: that jump iff flag bit 0 is set. |
| InstructionReference.JnzCycle | rocketvm/cpu/cpu_ctrlf.c:72-79 | On 0xD000 + ...: that jump iff flag bit 0 is clear. |
| InstructionReference.CallCycle | rocketvm/cpu/cpu_ctrlf.c:81-116 | On 0xE000 + ...: halts on an odd target or RSP below 0xF002, else stores the next address in the two bytes below RSP and jumps. |
| InstructionReference.RetCycle | rocketvm/cpu/cpu_ctrlf.c:118-141 | On any word from 0xF000: halts from RSP 0xFEFF up, else pops two bytes into RIP, halting if the address is odd. |
| Laws.AddFlags | rocketvm/cpu/cpu_alu.c:4-33 | After ADD: RZ zero, RN sign, RC iff the unsigned sum was cut, RO iff the signed sum was. |
| Laws.DifferenceFlags | rocketvm/cpu/cpu_alu.c:35-65 | After SUB or CMP: RZ iff equal, RC iff unsigned less, RN differs from RO iff signed less. |
| Laws.ProductFlags | rocketvm/cpu/cpu_alu.c:73-94 | After MUL: RC and RO both hold iff the product was cut. |
| Laws.CompareAndBranch | rocketvm/cpu/cpu_ctrlf.c:4-79 | A two-cycle run of CMP and JZ or JNZ branches exactly on equality or inequality and changes no register. |
| Laws.DivisionIdentity | rocketvm/cpu/cpu_alu.c:67-171 | The five-cycle run MOV, DIV, MOD, MUL, ADD restores the dividend with RC clear after MUL and after ADD. |
| Laws.ShlMultiplies | rocketvm/cpu/cpu_alu.c:173-210 | SHL by 1 to 15 multiplies by 2^k modulo 2^16; RC is bit 16-k and RN bit 15-k of the operand. |
| Laws.ShlTwice | rocketvm/cpu/cpu_alu.c:173-210 | Two left shifts with total at most 15 are one shift by the sum. |
| Laws.ShlShr | rocketvm/cpu/cpu_alu.c:173-246 | Shifting left then right by k keeps the low 16-k bits. |
| Laws.ConstantBuilt | rocketvm/cpu/cpu_alu.c:173-210 | The three-cycle run MOV high; SHL 8; ADD low builds any 16-bit constant. |
| Invariants.CycleKeepsInv | rocketvm/cpu/cpu.c:37-81 | RIP even, RSP odd in 0xF001..0xFEFF, flags below 16 and RSB zero are kept by every cycle. |
| Invariants.InvariantOfRuns | rocketvm/cpu/cpu_ctrlf.c:81-141 | These ranges hold in every reachable state for any memory contents, and call depth never exceeds 1919. |
| Invariants.CallStackRefined | rocketvm/cpu/cpu_ctrlf.c:81-141 | In a run without stores to the stack region the bytes from RSP to 0xFEFE are exactly the pending return addresses, newest first. |
| Invariants.ReturnNeverFaults | rocketvm/cpu/cpu_ctrlf.c:118-141 | In such a run RET takes the newest pending address and does not halt. |
| Invariants.CallReturnsToNext | rocketvm/cpu/cpu_ctrlf.c:81-141 | When RSP first comes back to where a CALL found it, RIP is right after that CALL, however deeply calls nested. |
| Invariants.MemoryIsWords | rocketvm/cpu/cpu_mem.c:4-53 | In any run an even address outside the stack holds the last word stored there, or its first contents. |
| Invariants.LoadYieldsLastStore | rocketvm/cpu/cpu_mem.c:4-25 | A LOAD from such an address yields that word. |
| Termination.ForwardCodeStops | rocketvm/vm.c:54-67 | Code without CALL and with forward relative jumps only, never overwritten, stops within 16383 cycles. |
| Termination.ForwardProgramStops | rocketasm/encoder.c:184-227 | So does every assembled program without calls and register branches whose label branches go forward and whose stores, if any, keep off the program region. |
| Termination.FallsOffTheEnd | rocketvm/cpu/cpu.c:43-56 | Straight-line code, any words but jumps, CALL and RET, that keeps off the program region always stops: if it does not halt within its own words, at exactly cycle 16383, not halted, with RIP 0x7FFE, having run the zero words as MOV RV0, 0. |
| ProgramStore.FindLabelFails | rocketasm/program.c:86-95 | Lookup gives -1 exactly for undeclared names and a 16-bit address otherwise. |
| ProgramStore.FindLabelFirst | rocketasm/program.c:86-95 | Lookup gives the address of the first declaration of a name. |
| ProgramStore.FindLabelLowest | rocketasm/program.c:86-95 | With a table in order, that is the lowest address declared for the name and not past the program. |
| ProgramStore.ProgramBuilder.PushInstr | rocketasm/program.c:50-66 | Appends one instruction, labels unchanged; capacity stays 1024 or below twice the count across doubling. |
| ProgramStore.ProgramBuilder.PushLabel | rocketasm/program.c:68-84 | Appends one label, instructions unchanged, with the same bound on capacity. |
| ProgramStore.ProgramBuilder.FindLabelAddress | rocketasm/program.c:86-95 | The linear search computes the lookup. |
| Encoder.EncodedOpcode | rocketasm/encoder.c:42-241 | Every result but -1 is a word that carries the instruction's opcode. |
| EncodingReference.DataWords | rocketasm/encoder.c:49-181 | The 18 emitted words of MOV, arithmetic and CMP with an immediate or a register, for all operands: ADD reg, imm is 0x3000 + 0x200 reg + imm modulo 0x100. |
| EncodingReference.MemoryWords | rocketasm/encoder.c:60-111 | The words of LOAD and STORE with a number or a register in brackets. |
| EncodingReference.MemoryLabelWords | rocketasm/encoder.c:69-76 | The words of LOAD and STORE with a label in brackets: its index modulo 256, or refusal if there is none. |
| EncodingReference.BranchWords | rocketasm/encoder.c:184-227 | The words of the four branches to a register or a label, whatever the second operand: 11 bits of the displacement, refusal without the label, an abort out of reach. |
| EncodingReference.ReturnWord | rocketasm/encoder.c:230-232 | RET is 0xF000 whatever its operands. |
| EncodingReference.OtherShapesRefused | rocketasm/encoder.c:239-240 | Every other instruction is refused. |
| Encoder.EncodeInstrRange | rocketasm/encoder.c:42-241 | The -1 sentinel is unambiguous: any other result is in 0..65535. |
| Encoder.EmitBinary | rocketasm/emitter.c:15-35 | Writes exactly the little-endian words of the instructions before the first that does not encode; done iff there is none. |
| Encoder.EmissionUnique | rocketasm/emitter.c:15-31 | The status and the words written are determined by the program. |
| Encoder.FetchLoaded | rocketvm/vm.c:41-47 | Emit, load and fetch compose to the identity: address 2i holds the word of instruction i. |
| Encoder.LoadedRest | rocketvm/vm.c:41-47 | Loading changes no byte past the image. |
| Encoder.ResolveLabels | rocketasm/encoder.c:6-29 | Returns 0 iff for every label operand, first or second, of every instruction some entry of the label table has that name, whatever its address. |
| Simulation.JumpLands | rocketasm/encoder.c:31-40 | A label branch that encodes at all leads to twice the label's index modulo 2^16, through cast, mask, sign extension and wrap. |
| Simulation.LabelJumpTaken | rocketasm/encoder.c:187-206 | A displacement that fits is encoded, and the taken jump sets RIP to exactly 2t, iff 2t is an address. |
| Simulation.StepSimulated | rocketasm/encoder.c:42-241 | From agreeing states a machine cycle agrees with a step of the program. |
| Simulation.RunSimulated | rocketvm/cpu/cpu.c:37-81 | The same for runs of any length. |
| Simulation.StartsAgree | rocketvm/vm.c:31-52 | The loaded image agrees with the program's initial state. |
| Simulation.DefinedExactly | rocketvm/cpu/cpu_mem.c:4-53 | The program's meaning is undefined on a cycle iff it executes past the program or accesses code or stack as data. |
| Simulation.AssemblerCorrect | rocketasm/encoder.c:42-241 | For any assembled program and any n, registers, flags, RIP, call stack, code and data after n cycles are those of n steps. |
| Simulation.HaltsTogether | rocketvm/vm.c:54-67 | If the program halts, the run loop stops, halted, in an agreeing state. |
| Agreement.EncoderRefuses | rocketasm/parser.c:89-192 | Of accepted instructions the encoder refuses exactly numeric branch targets and undefined labels, and asserts exactly on labels out of reach. |
| Agreement.AssemblesExactly | rocketasm/emitter.c:15-31 | Emission completes on a program of accepted instructions iff no instruction has one of these three faults. |
| Agreement.OffsetExactly | rocketasm/encoder.c:187-206 | A word is emitted with the mathematical displacement as its offset iff that displacement is in [-1024, 1023]. |
| Agreement.ReachInSmallPrograms | rocketvm/common/isa/encoder.h:136-140 | With at most 16383 instructions the assert after the int16_t cast tests the displacement itself. |
| Agreement.SlipsExactly | rocketasm/encoder.c:187-206 | A label branch is encoded with an offset other than its displacement iff the label is declared, the displacement is outside [-1024, 1023] and its int16_t conversion is inside. |
| Names.OpcodeRecognised | rocketasm/lexer.c:227-335 | The mnemonic recogniser accepts exactly the case variants of each printed mnemonic, for all strings. |
| Names.RegRecognised | rocketasm/lexer.c:337-346 | The register recogniser accepts exactly the case variants of the printed register names. |
| Lexing.IdentIsNoKeyword | rocketasm/lexer.c:95-105 | An identifier token is never a case variant of a mnemonic or register name. |
| Lexing.Lexer.Tokenize | rocketasm/lexer.c:41-133 | The nested loops return the next token of the remaining text and move the position to its end, inside the text. |
| Lexing.NothingLost | rocketasm/lexer.c:41-133 | A text is exactly the concatenation of gaps and lexemes, one per token; gaps are blanks and one comment to the line end, lexemes are nonempty and determine their tokens. |
| LexicalReference.BlankSkipped | rocketasm/lexer.c:46-48 | Characters 9, 11, 12, 13 and 32 in front of any text change no token. |
| LexicalReference.TokenStartsHere | rocketasm/lexer.c:46-64 | Any other first character but a semicolon starts a token. |
| LexicalReference.CommentSkipped | rocketasm/lexer.c:54-59 | A semicolon and the rest of its line change no token, and the newline after them remains one. |
| LexicalReference.Punctuation | rocketasm/lexer.c:64-84 | The five one-character tokens, by character code. |
| LexicalReference.OtherCharacter | rocketasm/lexer.c:130-132 | Every character of no other kind is one invalid token. |
| LexicalReference.Words | rocketasm/lexer.c:86-106 | A letter or underscore and all letters, digits and underscores after it are one token: mnemonic, else register, else identifier. |
| LexicalReference.Mnemonics | rocketasm/lexer.c:227-335 | The sixteen mnemonics letter by letter, each letter in either case, and no other word. |
| LexicalReference.Registers | rocketasm/lexer.c:337-346 | RV0 to RV7 with R and V in either case. |
| LexicalReference.LaidOutListingParses | rocketasm/lexer.c:45-62 | With any blanks before and after every line of a listing, and a comment at any line end, the text parses to the same program. |
| LexicalReference.PrintedOperands | rocketasm/program.c:130-185 | The printed form of each kind of operand, signs and brackets included. |
| GrammarReference.DataShapes | rocketasm/parser.c:125-170 | An instruction's tokens parse to just that instruction iff: RET has no operands, LOAD reg, [mem], STORE [mem], reg, and MOV, arithmetic and CMP reg, reg or imm. |
| GrammarReference.BranchShapes | rocketasm/parser.c:172-183 | For branches iff the first operand is a label, a register or a number and the second anything written, or none. |
| GrammarReference.OperandForms | rocketasm/parser.c:194-252 | The tokens of the operands in every position. |
| GrammarReference.InstrLine | rocketasm/parser.c:89-192 | Such an instruction at a line end is appended to whatever was parsed before, and parsing goes on after it. |
| GrammarReference.OtherLines | rocketasm/parser.c:30-82 | The steps for line ends and label declarations, up to 65535 instructions, and the tokens that stop the parser. |
| Grammar.ParserExact | rocketasm/parser.c:30-252 | A token sequence is accepted with a result iff it is spelled by well-formed declarations, instructions and line ends that build that result. |
| Grammar.LabelTableOrdered | rocketasm/parser.c:45-57 | Whatever is parsed, label addresses stay in order and none is past the program. |
| Grammar.TablesOfText | rocketasm/parser.c:30-82 | The instructions of a parsed text are those written, in order, and each label's address is the number of instructions written before it, not cut to 16 bits. |
| Parsing.Parser.ReadLabel | rocketasm/parser.c:40-61 | A name and a colon append a label whose address is the instruction count itself, the uint16_t cast losing nothing; otherwise, or past 65535 instructions, it fails with the program unchanged. |
| Parsing.Parser.ReadOperand | rocketasm/parser.c:194-252 | The operand at the current token, or invalid, with the operand's last token left current. |
| Parsing.Parser.ReadInstr | rocketasm/parser.c:89-192 | Pushes exactly the parsed instruction and stops at the line end, or fails with the program unchanged. |
| Parsing.Parser.Parse | rocketasm/parser.c:30-82 | Ends on every text, with the status and the program that the grammar gives its tokens. |
| Listing.DumpInstrs | rocketasm/program.c:97-118 | Prints the header and one indexed line per instruction body. |
| RoundTrip.StrtolOfDecimal | rocketasm/lexer.c:108-128 | Base-0 strtol reads a decimal numeral back, before any delimiter. |
| Numerals.HexNumeral | rocketasm/lexer.c:108-112 | After 0x or 0X the digits of either case up to the first other character are read in base 16. |
| Numerals.OctalNumeral | rocketasm/lexer.c:108-112 | After a leading 0 the digits 0 to 7, leading zeros included, are read in base 8. |
| Numerals.DecimalNumeral | rocketasm/lexer.c:108-112 | After any other digit the digits are read in base 10. |
| Numerals.BarePrefix | rocketasm/lexer.c:112 | 0x without a hexadecimal digit is the number 0, and the x is left to the next token. |
| Numerals.NumberByPlaces | rocketasm/lexer.c:112 | What digits mean: each counts its value times a power of the base. |
| Numerals.NumberToken | rocketasm/lexer.c:119-127 | A numeral is one token, invalid if its value is above 0x7FFFFFFF. |
| Numerals.StrtolOfHex | rocketasm/lexer.c:112 | 0x numerals of either case are read back, up to the first character that is no hexadecimal digit. |
| Numerals.StrtolOfOctal | rocketasm/lexer.c:112 | Numerals with a leading 0 are read back as octal. |
| Numerals.PaddedReads | rocketasm/program.c:104 | A printed index has at least four places, zeros in front, the decimal digits of the number at the end and its value. |
| RoundTrip.TokensInstr | rocketasm/program.c:101-117 | Scanning a printed instruction body gives the tokens of the instruction. |
| RoundTrip.ListingParses | rocketasm/program.c:97-185 | Printing a program line by line with its labels, then scanning and parsing, gives the same instructions and label table. |
| RoundTrip.ListingIsCanonical | rocketasm/parser.c:30-82 | For every text that parses, the listing of its program parses to the same program. |
| RoundTrip.SourcesExactly | rocketasm/parser.c:30-252 | The programs that have a source text are exactly those with accepted shapes, immediates not negative, proper names and an ordered label table. |
| Pipeline.Assemble | rocketasm/main.c:53-92 | The chain lexer, parser, label resolution and emission yields the image iff the text has one. |
| Pipeline.ImageExactly | rocketasm/main.c:71-92 | A text has an image iff it parses, every label operand, first or second, has an entry of that name in the label table, and no instruction has a numeric target, an undefined label or a label out of reach. |
| Pipeline.FarJumpIsCut | rocketasm/encoder.c:197-198 | There is a text that parses and has an image in which a jump to a label 32768 instructions further on is the word of a jump to the next instruction. |
| Pipeline.SourceCorrect | rocketasm/main.c:53-92 | Running the image of a source text is running the parsed program, for runs of any length. |
| Pipeline.ListingHasSameImage | rocketasm/program.c:97-118 | A text and the listing of its program have the same images. |

## Left out

- VirtualMachine.Vm.Run: specified for runs that come to an end; the original's loop simply does not return from the others, and such runs are covered cycle by cycle by the lemmas on `Machine.Run`.
- Simulation.AssemblerCorrect: says nothing past a cycle that leaves the program or uses code or stack as data; `Simulation.DefinedExactly` gives that condition exactly and `Invariants` covers those runs on the machine itself.
- Listing.ListingOf: the interleaved label lines are this project's arrangement; the repository prints instructions and labels as two tables, and the label table dump is not modelled.
- Files, command lines and exit codes: source text, image and printed output are sequences.
- A failed emission leaves a partial file; the model keeps its bytes as the result of `Encoder.EmitBinary`, but `Pipeline.Assemble` drops them.
- Logging, CPU dumps and token dumps, which do not change state.
- Failure of memory allocation, and the destroy functions.
- Locales and other platforms: character classes are ASCII, `long` has 64 bits, sizes and counts do not overflow `size_t` or `int`.
- Builds with `NDEBUG`: an assert that fails is modelled as a stop of the process.
- MMIO, PUSH, POP and the frame pointer, which the specification describes and no code implements.
