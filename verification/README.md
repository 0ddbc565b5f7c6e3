# qCore assembler core in Dafny

This project models the core of the qCore two-pass assembler. The assembler
turns a parsed statement list into 16-bit machine words for the qCore CPU.
The model has four parts, one Dafny module each, plus shared modules.

- **Instruction set tables** (`isa.dfy`, module `Isa`). The instruction
  table is written as the source's six commented groups: data movement, ALU,
  compare, memory, shifts and branches. Lookup is by mnemonic. The register
  table and the directive table are modelled the same way. So are the
  operand-syntax strings and the "Expected format" hint used in error
  messages.
- **Pass 1** (`first_pass.dfy`, module `FirstPass`). It models `parseNumber`,
  `getDirectiveSize` and the first loop of `main`, written as a fold over the
  statements. The loop binds labels and `.define`s, pads for `.org`, and
  reserves words for directives and for instructions that expand. It also
  builds the is-data list alongside.
- **Pass 2** (`encoder.dfy`, module `Encoder`). It models the table-driven
  encoder: register and immediate operand parsing, two's-complement
  immediates, one emitter per instruction format, the two-word `mvt`
  expansion of `=` operands, PC-relative branches and `.word` emission. The
  encoder's loop is a fold over the statements. It carries the output words
  and `currentAddress`.
- **Statements** (`ast.dfy`, module `Ast`). `Statement` is one sum type
  whose constructors are the three statement kinds. Each carries its line
  and column. A program is a sequence of statements in source order.

Shared modules:

- `Wrappers` holds `Option` and `Result`. They stand in for null pointers and
  exceptions.
- `Errors` lists the failure kinds. Each failure carries the line of its
  statement when the source reports one.
- `Numbers` models `std::stoll` and int32 truncation.
- `Symbols` is the symbol table: two finite maps.

`assembler.dfy` (module `Assembler`) puts the two passes together as `main`
runs them. It proves where they agree. `scenarios.dfy` states and proves what
the model gives for small programs: the `mv r0, =0x1234` expansion,
`add r0, #300`, a forward branch, `cmp` with `=`, and `.org`.

A word is an integer in 0..65535. The source joins the fields with `|`. The
table's opcodes keep the register and immediate fields clear, so the join is
an addition here. Each emitter's contract states that every field can be
read back from the word. This is how the model states that fields do not
overlap.

Behaviour of the code worth knowing:

- The instruction table has no no-operand format, so there is no `halt`. The
  format enum has eight members (InstructionDef.h:16-25).
- `.define` values are read by `parseNumber` (main.cpp:94-104). Text
  starting with `0b` or `0x` is read by `stoll` in base 2 or 16 after the
  prefix; any other text goes to `stoll` with base 0, so a leading `0` means
  octal, not decimal.
- A number that does not parse in pass 1 aborts the run without a line
  number. The `stoll` exception escapes the loop unwrapped. Only a backward
  `.org` names its line (main.cpp:272-274).
- The two passes do not always agree on sizes. Pass 1 reserves two words only
  for a mnemonic with `canExpand`. Pass 2 expands every `=` operand of a
  REG_IMM_OR_REG mnemonic, and `cmp` is such a mnemonic without `canExpand`.
  `Assembler.SizesAgree` states exactly when the sizes differ.
  `Scenarios.CmpShiftsLabels` shows a label bound to the wrong word.
- SymbolTable.h is not modelled. In this model a second binding of a label
  or define overwrites the first; the properties that read a label back
  assume the program binds it once.
- The parser is not part of this model, so whether operand text reaches
  the encoder with its `=` or `#` prefix is not known; the `isImmediate` and
  `isLabelImmediate` flags of ast.h:34-35 suggest it arrives bare. The model
  takes both spellings. For a name that is both a label and a define, bare
  text reads as the label in the `=` path and as the define in the `#`
  path; prefixed text reads as the define in both, because the encoder's
  whole-text checks miss and the general rules strip the prefix and try
  defines before labels (`Encoder.LabelShadowsDefine`).

## Model

| member | source | states |
|---|---|---|
| Isa.GetInstructionDef | InstructionDef.h:113-117 | the lookup gives nothing exactly when `isValidInstruction` is false; otherwise it gives a table entry with that mnemonic, and that entry has the table's well-formedness properties |
| Isa.LastWithKey | InstructionDef.h:96-107 | the map built by inserting entries in table order holds, for a key, an entry with that key; it holds nothing exactly when no entry has the key |
| Isa.MnemonicsDistinct | InstructionDef.h:57-92 | no two rows of the instruction table share a mnemonic |
| Isa.LookupEntry | InstructionDef.h:113-117 | looking up any table row's mnemonic finds that very row |
| Isa.TableWellFormed | InstructionDef.h:59-91 | in every row: formats that pack an immediate give it 1..9 bits; opcodes leave the rX, rY and immediate fields clear; branches use 0x2000 with 9 bits and condition codes 0..7; shifts use 0xE000 with kinds 0..3; push/pop use implicit register 5; canExpand holds exactly for mv, add, sub and and |
| Isa.LookupBranch | InstructionDef.h:84-91 | the k-th branch mnemonic (b, beq, bne, bcc, bcs, bpl, bmi, bl) finds the branch row with condition code k |
| Isa.BranchConditionsDistinct | InstructionDef.h:84-91 | two branch rows have the same condition code exactly when they are the same row |
| Isa.ShiftKindsDistinct | InstructionDef.h:77-81 | two shift rows have the same kind exactly when they are the same row |
| Isa.ExpandableMnemonics | InstructionDef.h:59-65 | a mnemonic is known and has canExpand exactly when it is mv, add, sub or and |
| Isa.CmpDoesNotExpand | InstructionDef.h:69 | cmp is REG_IMM_OR_REG and cannot expand |
| Isa.OnlyCmpFixed | InstructionDef.h:59-69 | cmp is the only REG_IMM_OR_REG mnemonic without canExpand |
| Isa.ImmOrRegEntries | InstructionDef.h:59-69 | the REG_IMM_OR_REG rows are exactly mv, add, sub, and and cmp |
| Isa.NoLabelLoadEntry | InstructionDef.h:56-94 | no lookup yields a LABEL_LOAD row, so nothing in the table reaches `encodeLabelLoad` |
| Isa.ValidInstructionNames | InstructionDef.h:109-111 | a mnemonic is valid exactly when it is one of the 23 listed in table order |
| Isa.LookupMvt | InstructionDef.h:60 | `mvt` finds the data-movement row the expansion borrows its opcode from |
| Isa.ValidRegisterNames | InstructionDef.h:159-161 | a name is a register exactly when it is one of r0..r7, sp, lr and pc |
| Isa.RegisterNamesDistinct | InstructionDef.h:129-144 | the eleven register names are distinct |
| Isa.RegisterNumber | InstructionDef.h:146-161 | a name has no number exactly when `isValidRegister` is false; every register number fits in 3 bits |
| Isa.GeneralRegisterNumber | InstructionDef.h:131-138 | `r0`..`r7` are registers 0..7 |
| Isa.RegisterAliasNumbers | InstructionDef.h:139-141 | `sp`, `lr` and `pc` are registers 5, 6 and 7 |
| Isa.OnlyRegisterNames | InstructionDef.h:130-142 | a name with a register number is one of r0..r7, sp, lr, pc |
| Isa.IsValidDirective | InstructionDef.h:173-195 | a directive name is valid exactly when it is `.word` or `.define` |
| Isa.FormatString | InstructionDef.h:198-210 | every format's syntax but BRANCH's starts with `rX`, the register encodeInstruction reads first |
| Isa.FormatHint | InstructionDef.h:212-215 | the hint is empty exactly without a definition; otherwise it starts with "Expected format: " and is longer than that prefix and the mnemonic together |
| Isa.FormatStringInjective | InstructionDef.h:198-210 | different formats have different operand-syntax strings |
| Isa.FormatHintContents | InstructionDef.h:212-215 | the hint is empty exactly when the definition is missing; otherwise it is "Expected format: ", then the mnemonic, then a space and the format's syntax, each readable back in place |
| Numbers.Stoll | main.cpp:101-102 | a value lies in the 64-bit range, and a negative value needs a `-` as the first character after leading white space |
| Numbers.ParseNumber | main.cpp:94-104 | a value lies in the 64-bit range, and a negative value needs a `-` in the text, also after a `0x` or `0b` prefix |
| Numbers.Int32Wrap | main.cpp:112 | `static_cast<int>` of a 64-bit value lies in the int range, agrees with the value modulo 2^32, and is the value itself when that fits |
| Numbers.ParseNumberHex | main.cpp:98-99 | `0x` followed by the hex digits of any n up to 2^63-1 parses back to n |
| Numbers.ParseNumberBinary | main.cpp:95-96 | `0b` followed by the binary digits of any n up to 2^63-1 parses back to n |
| Numbers.ParseNumberDecimal | main.cpp:101-102 | the decimal digits of any n up to 2^63-1 parse back to n |
| Numbers.ParseNumberNegative | main.cpp:101-102 | a minus sign followed by the decimal digits of n parses to -n, for 1 <= n <= 2^63 |
| Numbers.ParseNumberOctal | main.cpp:101-102 | a leading `0` makes base 0 read the rest as octal: `0` then the octal digits of n parses to n |
| Numbers.ParseNumberZero | main.cpp:101-102 | `0` parses to zero |
| Numbers.NoPrefix | main.cpp:94-104 | text whose second character is a decimal digit has no radix prefix and goes to stoll with base 0 |
| Numbers.ParseNumberNoDigits | main.cpp:94-104 | empty text, `0x`, a lone `-`, and `abc` fail to parse |
| Numbers.RenderLeadingDigit | main.cpp:101-102 | the digits of a positive number never start with `0`, so base 0 never mistakes them for octal |
| Encoder.EncodeImmediate | InstructionEncoder.cpp:19-32 | succeeds exactly for values in [-2^(b-1), 2^(b-1)-1]; the field is then the value modulo 2^b, lies below 2^b, and sign-extends back to the value; a failure names the value and both bounds |
| Encoder.EncodeImmediateOnto | InstructionEncoder.cpp:19-32 | every b-bit field is the encoding of exactly one value, its sign extension, so encoding and sign extension are inverse |
| Encoder.TwosComplement | InstructionEncoder.cpp:29-31 | adding 2^b to a negative in-range value gives a field below 2^b that the mask leaves unchanged and that sign-extends back |
| Encoder.RegWord | InstructionEncoder.cpp:71 | `op \| rX<<9 \| rY` keeps its fields apart: rX is bits 9-11, rY is bits 0-2, and the rest is op |
| Encoder.ImmWord | InstructionEncoder.cpp:76 | `op \| rX<<9 \| field` keeps its fields apart: the opcode nibble, rX in bits 9-11, and the field in bits 0-8 |
| Encoder.ParseRegister | InstructionEncoder.cpp:10-17 | succeeds exactly for register names and then gives the map's number (below 8); otherwise fails naming the text |
| Encoder.ParseImmediateOrSymbol | InstructionEncoder.cpp:34-64 | checks in order: a define named by the whole text; with one `#` or `=` stripped, a define, then a label, then a numeric literal; anything else fails naming the original text |
| Encoder.ImmediateLiteralIsParseNumber | InstructionEncoder.cpp:52-60 | the encoder reads a literal exactly as pass 1's `parseNumber` does, for every text |
| Encoder.ParseImmediateDecimal | InstructionEncoder.cpp:40-60 | `#` followed by decimal digits of n reads as n when no symbol has that name |
| Encoder.LabelShadowsDefine | InstructionEncoder.cpp:34-90 | for a name bound both as a label and as a define: as bare text it reads as the label in the `=` path and as the define in the `#` path; as `=name` or `#name` (no symbol spelled with the prefix) it reads as the define in both paths |
| Encoder.LabelImmediateValue | InstructionEncoder.cpp:82-90 | an `=` operand's value is always a label's address, a define's value or the literal after the prefix; a failure names the operand text and happens only when neither spelling is a symbol and the text after the prefix is no number |
| Encoder.LabelOperand | InstructionEncoder.cpp:40-90 | a label that is not a define reads as its address, written `name` or `=name` |
| Encoder.DefineOperand | InstructionEncoder.cpp:40-90 | a define that is not a label reads as its value, written `name` or `=name` |
| Encoder.LabelImmediateDecimal | InstructionEncoder.cpp:40-90 | `=` followed by the decimal digits of n reads as n when no symbol has that name |
| Encoder.HashImmediateValue | InstructionEncoder.cpp:112-118 | a `#` operand's value, despite the extra define check, is what the general operand rules give |
| Encoder.EncodeRegReg | InstructionEncoder.cpp:70-73 | one word whose rX, rY and opcodeReg read back as given |
| Encoder.EncodeRegImm | InstructionEncoder.cpp:75-78 | succeeds exactly when the immediate fits immBits; then one word whose opcode nibble, rX and sign-extended field read back as given; otherwise fails naming the bounds |
| Encoder.Expansion | InstructionEncoder.cpp:92-107 | two words, both with rX: first mvt's opcode with the high byte, then the second opcode with the low byte; the bytes put back together give the value modulo 2^16, and neither byte reaches bit 8 |
| Encoder.ByteSplit | InstructionEncoder.cpp:96-99 | `(v >> 8) & 0xFF` and `v & 0xFF` are the two bytes of v's low 16 bits, for negative v too |
| Encoder.EncodeRegImmOrReg | InstructionEncoder.cpp:80-134 | with `=`: succeeds exactly when the operand has a value, and then gives the two-word expansion (add's opcode for mv). With `#`: succeeds exactly when the value fits immBits, and a value that does not fit fails asking for `=`. With a register: succeeds exactly for a register name, using opcodeReg |
| Encoder.EncodeBranch | InstructionEncoder.cpp:136-147 | an unbound label fails naming it; the offset is the label minus (currentAddress + 1); it succeeds exactly when the offset lies in [-256, 255]; the word has opcode 0x2000, the condition code in the rX field, and the offset sign-extending back |
| Encoder.EncodeRegOnly | InstructionEncoder.cpp:149-153 | one word with rX, opcodeReg, and the implicit register (extraData) in the rY field |
| Encoder.ShiftWord | InstructionEncoder.cpp:163-170 | a shift word's opcode, rX, bit 8, immediate flag, kind and amount (or rY) all read back as given |
| Encoder.EncodeShift | InstructionEncoder.cpp:160-178 | an immediate amount succeeds exactly in 0..15, sets bit 7 and stores the amount; a register form succeeds exactly for a register name, stores rY and leaves bit 7 clear; bit 8 and the kind are always set |
| Encoder.EncodeLabelLoad | InstructionEncoder.cpp:180-196 | succeeds exactly when the operand has a value; then gives the mvt/add pair, whose bytes recombine to the value modulo 2^16 |
| Encoder.EncodeByFormat | InstructionEncoder.cpp:218-262 | each format goes to its emitter: REG_REG and REG_MEM succeed exactly when the second operand is a register and then give `encodeRegReg`'s word, else fail with the hinted register error; REG_IMM fails with the operand's error or gives `encodeRegImm` of its value; REG_IMM_OR_REG, BRANCH (with the first operand as label), REG_ONLY, SHIFT and LABEL_LOAD give their emitters' results; a success emits two words for an `=` operand of REG_IMM_OR_REG and for LABEL_LOAD, one otherwise |
| Encoder.EncodeInstruction | InstructionEncoder.cpp:202-266 | an unknown mnemonic fails naming it; on a known non-branch mnemonic, a first operand that is no register fails with the hinted register error, and a register goes to the format dispatch with its number; a branch goes to the dispatch without reading a register; a success has the dispatch's word count |
| Encoder.UnknownMnemonic | InstructionEncoder.cpp:204-207 | an unknown mnemonic fails naming it |
| Encoder.BadFirstRegister | InstructionEncoder.cpp:209-216 | a bad first register on a known non-branch mnemonic fails naming the text, with the mnemonic's format hint |
| Encoder.BranchWord | InstructionEncoder.cpp:235-237 | an encoded branch names a bound label; its word has opcode 0x2000, the mnemonic's condition code, and the offset from the next word to the label |
| Encoder.EncodeDirective | InstructionEncoder.cpp:268-282 | `.word` succeeds exactly for values in [-32768, 65535] and emits `value & 0xFFFF`; every other directive emits nothing |
| Encoder.LowSixteen | InstructionEncoder.cpp:275 | `value & 0xFFFF` is the value itself when non-negative and value + 65536 when negative |
| Encoder.EncodedSizeByName | InstructionEncoder.cpp:218-262 | the dispatch's word count is read off the mnemonic: two exactly for an `=` operand on mv, add, sub, and or cmp |
| Encoder.EncodeStatement | InstructionEncoder.cpp:288-301 | labels emit nothing; any statement emits its name-based size; a failure carries the statement's line |
| Encoder.StatementsWith | InstructionEncoder.cpp:284-304 | the per-statement encoder the loop uses emits each statement's size and fails only with that statement's line |
| Encoder.EncodeFrom | InstructionEncoder.cpp:284-304 | the loop moves currentAddress exactly as far as the code grows |
| Encoder.EncodeFromSize | InstructionEncoder.cpp:284-304 | the loop appends the statements' total size and advances currentAddress by the same amount |
| Encoder.EncodeFromKeeps | InstructionEncoder.cpp:284-304 | the loop only appends: words emitted before it stay in front |
| Encoder.EncodeFromFailureLine | InstructionEncoder.cpp:263-265 | a failing loop reports the line of one of its statements |
| Encoder.Encode | InstructionEncoder.cpp:284-304 | starting empty at address 0, currentAddress ends equal to the number of words emitted, which is the total emitted size; a failure names a statement's line |
| FirstPass.DirectiveSize | main.cpp:107-121 | `.word` takes 1 word; `.space` takes its number cut to an int and fails when it does not parse; `.ascii` takes its length and `.asciiz` its length + 1; any other name takes 0; only `.space` can be negative |
| FirstPass.SpaceSize | main.cpp:111-112 | `.space` with a decimal n that fits an int reserves exactly n words |
| FirstPass.InstructionWords | main.cpp:300-310 | an instruction reserves 2 words exactly when it has an `=` operand and a mnemonic with canExpand; otherwise 1, unknown mnemonics included |
| FirstPass.Pass1Step | main.cpp:248-323 | a label binds the current address and changes nothing else; `.define` binds its parsed value and keeps every other define and every label; `.org` fails when its target is below the counter, and otherwise pads with data markers up to the target; other directives add their size in data markers; instructions add their words as non-data markers; a number that does not parse fails without a line |
| FirstPass.FirstPassOf | main.cpp:240-324 | the first pass from address 0 and an empty table; a failure that names a line names a `.org` of the program |
| FirstPass.Pass1From | main.cpp:248-324 | the is-data list only grows, and a failure that names a line names a `.org` of the program |
| FirstPass.Pass1Split | main.cpp:248-324 | running the loop over a program is running it over a prefix, then over the rest from the prefix's state |
| FirstPass.DataTracksAddress | main.cpp:241-324 | while no directive size is negative, the is-data list is as long as the final address |
| FirstPass.NegativeSpace | main.cpp:288-296 | without that premise the two part: `.space -1` moves the counter back to -1 and adds no marker |
| FirstPass.SpaceStep | main.cpp:286-297 | a `.space` whose number fits an int moves the counter by that number and adds that many data markers |
| FirstPass.LabelKept | main.cpp:250-258 | a label that no later statement rebinds keeps its address |
| FirstPass.LabelBound | main.cpp:250-258 | a label the program binds once holds the address pass 1 had reached when it got to the label |
| Assembler.Assemble | main.cpp:240-335 | a pass-1 failure is the run's failure; otherwise a pass-2 failure is the run's failure, and a success gives exactly the encoder's code with pass 1's is-data list and symbol table; the code is as long as the total emitted size; for a consistent program the is-data list is as long as the code |
| Assembler.SizesAgree | main.cpp:300-310 | pass 1 and pass 2 size an instruction differently exactly when it is cmp with an `=` operand |
| Assembler.CmpSizes | main.cpp:305-310 | `cmp r0, =5` gets one word in pass 1 and two in pass 2 |
| Assembler.StepAgrees | main.cpp:248-323 | on a consistent statement, a pass-1 step advances the counter by the number of words pass 2 emits |
| Assembler.Pass1Total | main.cpp:248-324 | on a consistent program, pass 1 advances by the total emitted size |
| Assembler.PassesAgree | main.cpp:334-335 | on a consistent program, pass 1's final address equals the encoder's final currentAddress |
| Assembler.PassesAgreeAt | main.cpp:300-321 | on a consistent program, the pass-1 address where each statement starts equals the encoder's currentAddress when it reaches that statement |
| Assembler.EncodeSplit | InstructionEncoder.cpp:288-302 | running the encoder over a program is running it over a prefix, then over the rest from the prefix's state |
| Assembler.WordsAt | InstructionEncoder.cpp:288-302 | the words emitted for statement i are in the final code at the address the encoder had when it reached statement i |
| Assembler.BranchReachesLabel | main.cpp:248-335 | in a consistent program, a branch to a label bound once is at its pass-1 address with opcode 0x2000, its mnemonic's condition code, and the offset from the next word to the label's pass-1 address |
| Assembler.BranchDefs | InstructionDef.h:84-91 | every branch mnemonic has a BRANCH row |
| Scenarios.MvExpansion | InstructionEncoder.cpp:92-100 | `mv r0, =0x1234` encodes to 0x3012 then 0x5034 |
| Scenarios.ExpandsR0 | InstructionEncoder.cpp:82-108 | an `=` operand with a value, on r0, becomes the two-word expansion of that value |
| Scenarios.ExpansionWords | InstructionEncoder.cpp:103-105 | the two expansion words are 0x3000 + rX*512 + high byte and opcode + rX*512 + low byte |
| Scenarios.AddNeedsExpansion | InstructionEncoder.cpp:112-126 | `add r0, #300` fails: 300 does not fit 9 bits |
| Scenarios.TooWideR0 | InstructionEncoder.cpp:120-126 | a `#` value on r0 that does not fit immBits fails naming the value and the width |
| Scenarios.FitsR0 | InstructionEncoder.cpp:112-128 | a `#` value on r0 that fits is encoded by `encodeRegImm` |
| Scenarios.ImmOrRegDispatch | InstructionEncoder.cpp:231-233 | a REG_IMM_OR_REG mnemonic with a register first operand goes to `encodeRegImmOrReg` |
| Scenarios.ExpandedOperand | InstructionEncoder.cpp:82-108 | an `=` operand with a value gives exactly the expansion of that value |
| Scenarios.BranchDispatch | InstructionEncoder.cpp:235-237 | a BRANCH mnemonic goes to `encodeBranch` with its first operand as the label |
| Scenarios.SmallImmediate | InstructionEncoder.cpp:19-32 | a non-negative value below the sign bit is its own field |
| Scenarios.OneWordStep | main.cpp:300-321 | pass 1 gives an instruction that cannot expand one non-data word |
| Scenarios.ForwardFirstPass | main.cpp:248-324 | pass 1 over `b skip` / `add r0, #1` / `skip:` binds `skip` to 2 and marks two instruction words |
| Scenarios.ForwardBranchWord | InstructionEncoder.cpp:136-147 | with `skip` at 2, `b skip` at address 0 encodes to 0x2001 (offset 1) |
| Scenarios.ForwardAddWord | InstructionEncoder.cpp:112-128 | `add r0, #1` encodes to 0x5001 |
| Scenarios.ForwardEncode | InstructionEncoder.cpp:284-304 | with `skip` at 2, the encoder emits 0x2001, 0x5001 and ends at address 2 |
| Scenarios.ForwardBranch | main.cpp:248-335 | the whole program assembles to 0x2001, 0x5001 with two instruction markers: the branch skips exactly the add |
| Scenarios.TwoWordsThenLabel | InstructionEncoder.cpp:288-302 | two one-word instructions and a label encode to the two words, ending at address 2 |
| Scenarios.OneThenLabel | InstructionEncoder.cpp:288-302 | an instruction and a label encode to the instruction's words |
| Scenarios.CmpExpansion | InstructionEncoder.cpp:101-107 | `cmp r0, =v` encodes to mvt with v's high byte, then cmp's immediate opcode 0xF000 with the low byte |
| Scenarios.CmpEncodes | InstructionEncoder.cpp:101-107 | `cmp r0, =5` encodes to the expansion of 5 |
| Scenarios.CmpFirstPass | main.cpp:305-310 | pass 1 over `cmp r0, =5` / `end:` reserves one word and binds `end` to 1 |
| Scenarios.CmpShiftsLabels | main.cpp:305-310 | for that program pass 1 binds `end` to 1 and stops at 1, while pass 2 emits both expansion words and stops at 2, so `end` names the second word of the cmp |
| Scenarios.OrgFirstPass | main.cpp:270-297 | `.org 4` then `.word 7` leaves pass 1 at address 5 with five data markers |
| Scenarios.OrgEncode | InstructionEncoder.cpp:268-282 | the encoder emits only the `.word`: one word, 7 |
| Scenarios.WordSevenEncodes | InstructionEncoder.cpp:268-277 | `.word 7` encodes to the single word 7 |
| Scenarios.OrgNotEmitted | main.cpp:270-285 | that program assembles to one word of code with five is-data markers: pass 2 never emits `.org` padding |
| Symbols.AddLabel | main.cpp:256 | binding a label gives it the address, keeps every other label, and leaves the defines alone |
| Symbols.AddDefine | main.cpp:268 | binding a define gives it the value, keeps every other define, and leaves the labels alone |
| Symbols.GetLabelAddress | InstructionEncoder.cpp:137 | a bound label gives its address; an unbound one fails naming it |

## Left out

- `writeMIF` and the disassembler it calls: file output. The disassembler's definitions are not part of this model.
- Command-line handling, verbose printing, reading the input and calling `yyparse`: argument handling and I/O around the core.
- `generateInstructionSetDoc`: it only builds a documentation string.
- The lazily initialised lookup maps: the tables are constant sequences. Lookup returns the last row with the key, which is what inserting the rows in order into a map leaves.
- SymbolTable.h and common.h are not part of this model. `Symbols` is two finite maps. `Symbols.GetLabelAddress` assumes that a missing label fails.
- FirstPass.Pass1Step: a label or `.define` bound a second time overwrites the first binding (last binding wins), through Symbols.AddLabel and Symbols.AddDefine. SymbolTable.h is not part of this model, so whether the source overwrites, keeps the first binding or rejects the second is not known; the rebinding case of the contract is this model's choice.
- InstructionEncoder.h holds only declarations. Its state (symbol table, machine code, current address) is the encoder's fold state and parameters.
- Error-message text: each failure is a kind carrying the values the message names, plus the line where the source prefixes one.
- Numbers.Stoll: models `std::stoll` for what the assembler feeds it. It skips leading white space, takes a sign, reads digits up to the first non-digit, and fails when there are no digits or the value is out of the 64-bit range. Locale-dependent white space and `errno` are not modelled.
- FirstPass.Pass1Step: the address counter is an unbounded integer. The source's `int` counter, and `.org` targets that do not fit an `int`, would overflow there.
- FirstPass.DirectiveSize: `.ascii` and `.asciiz` lengths are not cut to an `int`. Strings of 2^31 characters or more are out of scope. The length counts characters, one per byte, so the text is taken to be ASCII: `std::string::length()` counts bytes, and a multi-byte UTF-8 character reserves more than one word in the source.
- Encoder.EncodeBranch: the label address and offset are unbounded integers, where the source stores them in `int`.
- The "Unknown statement type" and "Unhandled instruction format" errors: the sum types make both impossible.
- Columns are carried in every statement but no error reports one, as in the source.
- The scenario programs are stated for any source line of their first statement. Their other statements are on the following lines.
