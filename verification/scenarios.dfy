/** What the model gives for small programs, stated and proved: the `=`
    expansion, a `#` operand too wide for its field, a forward branch
    resolved by pass 1, and the two places where the passes part ways
    (`cmp` with `=`, and `.org` padding that pass 2 never emits). */
module Scenarios {
  import opened Wrappers
  import opened Ast
  import opened Numbers
  import opened Isa
  import opened Errors
  import opened Symbols
  import opened Encoder
  import opened FirstPass
  import opened Assembler

  // ---------------------------------------------------------------------
  // Operands
  // ---------------------------------------------------------------------

  lemma R0()
    ensures ParseRegister("r0") == Success(0)
  {
    GeneralRegisterNumber(0);
    assert "r0" == ['r', "01234567"[0]];
  }

  lemma ParseSmall(n: nat)
    requires n < 10
    ensures ParseNumber([DigitChar(n)]) == Some(n)
  {
    ParseNumberDecimal(n);
  }

  lemma ParseHex1234()
    ensures ParseNumber("0x1234") == Some(0x1234)
  {
    RenderSnoc(1, 2, 16);
    RenderSnoc(0x12, 3, 16);
    RenderSnoc(0x123, 4, 16);
    var s := "0x" + Render(0x1234, 16);
    assert s == "0x1234";
    ParseNumberHex(0x1234);
    assert ParseNumber(s) == Some(0x1234);
  }

  // ---------------------------------------------------------------------
  // Single instructions
  // ---------------------------------------------------------------------

  /** `mv r0, =0x1234` expands to `mvt r0, #0x12` and `add r0, #0x34`. */
  lemma MvExpansion(t: SymbolTable, address: int, instr: Statement)
    requires instr.Instruction? && instr.opcode == "mv" && instr.operand1 == "r0"
    requires instr.operand2 == "=0x1234" && instr.isLabelImmediate
    requires !HasLabel(t, "=0x1234") && !HasDefine(t, "=0x1234")
    requires !HasLabel(t, "0x1234") && !HasDefine(t, "0x1234")
    ensures EncodeInstruction(t, address, instr) == Success([0x3012, 0x5034])
  {
    assert LabelImmediateValue(t, instr.operand2) == Success(0x1234) by {
      ParseHex1234();
      assert StripPrefix(instr.operand2) == "0x1234";
    }
    var def := InstructionDef("mv", RegImmOrReg, 0x0000, 0x1000, 9, 0, 1, true);
    assert GetInstructionDef(instr.opcode) == Some(def) by {
      LookupMv(instr.opcode);
    }
    ExpandsR0(t, address, instr, def, 0x1234);
    Expansion1234();
  }

  /** An `=` operand of a REG_IMM_OR_REG instruction on r0 whose value is
      known becomes the two-word expansion of that value. */
  lemma ExpandsR0(t: SymbolTable, address: int, instr: Statement, def: InstructionDef, value: int)
    requires instr.Instruction? && instr.operand1 == "r0" && instr.isLabelImmediate
    requires GetInstructionDef(instr.opcode) == Some(def) && def.format == RegImmOrReg
    requires LabelImmediateValue(t, instr.operand2) == Success(value)
    ensures EncodeInstruction(t, address, instr)
      == Success(Expansion(if def.mnemonic == "mv" then AddDef.opcodeImm else def.opcodeImm, 0, value))
  {
    R0();
    ImmOrRegDispatch(t, address, instr, def);
    ExpandedOperand(t, def, instr, 0);
  }

  lemma Expansion1234()
    ensures Expansion(0x5000, 0, 0x1234) == [0x3012, 0x5034]
  {
    ExpansionWords(0x5000, 0, 0x1234);
    DivModUnique(0x12, 0x34, 0x100);
    DivModUnique(0, 0x12, 0x100);
  }

  lemma ExpansionWords(second: int, rX: nat, value: int)
    requires ImmOpcode(second) && rX < 8
    ensures Expansion(second, rX, value)
      == [0x3000 + rX * 0x200 + (value / 0x100) % 0x100, second + rX * 0x200 + value % 0x100]
  {
  }

  /** `add r0, #300` does not fit the 9-bit field, and the encoder asks for
      `=` instead. */
  lemma AddNeedsExpansion(t: SymbolTable, address: int, instr: Statement)
    requires instr.Instruction? && instr.opcode == "add" && instr.operand1 == "r0"
    requires instr.operand2 == "#300" && !instr.isLabelImmediate && instr.isImmediate
    requires !HasDefine(t, "#300") && !HasLabel(t, "300") && !HasDefine(t, "300")
    ensures EncodeInstruction(t, address, instr) == Failure(ImmediateNeedsExpansion(300, 9))
  {
    Parse300(t);
    var def := InstructionDef("add", RegImmOrReg, 0x4000, 0x5000, 9, 0, 1, true);
    assert GetInstructionDef(instr.opcode) == Some(def) by {
      LookupAdd(instr.opcode);
    }
    TooWideR0(t, address, instr, def, 300);
  }

  lemma Parse300(t: SymbolTable)
    requires !HasDefine(t, "#300") && !HasLabel(t, "300") && !HasDefine(t, "300")
    ensures ParseImmediateOrSymbol(t, "#300") == Success(300)
  {
    RenderSnoc(3, 0, 10);
    RenderSnoc(30, 0, 10);
    var s := Render(300, 10);
    assert s == "300";
    assert "#" + s == "#300";
    ParseImmediateDecimal(t, 300);
  }

  /** A `#` operand on r0 whose value does not fit the field is refused
      with the value and the width. */
  lemma TooWideR0(t: SymbolTable, address: int, instr: Statement, def: InstructionDef, value: int)
    requires instr.Instruction? && instr.operand1 == "r0" && !instr.isLabelImmediate && instr.isImmediate
    requires GetInstructionDef(instr.opcode) == Some(def) && def.format == RegImmOrReg
    requires ParseImmediateOrSymbol(t, instr.operand2) == Success(value) && !FitsSigned(value, def.immBits)
    ensures EncodeInstruction(t, address, instr) == Failure(ImmediateNeedsExpansion(value, def.immBits))
  {
    R0();
    ImmOrRegDispatch(t, address, instr, def);
  }

  // ---------------------------------------------------------------------
  // A forward branch
  // ---------------------------------------------------------------------

  // Each program is a function of the source line of its first statement,
  // one statement per line; what the passes compute does not depend on it.

  function BranchB(l: int): Statement { Instruction("b", "skip", "", false, false, false, l, 1) }
  function AddOne(l: int): Statement { Instruction("add", "r0", "#1", true, false, true, l + 1, 1) }
  function Skip(l: int): Statement { Label("skip", l + 2, 1) }
  function ForwardProgram(l: int): seq<Statement> { [BranchB(l), AddOne(l), Skip(l)] }
  const ForwardSymbols: SymbolTable := SymbolTable(map["skip" := 2], map[])

  /** A symbol table with `skip` bound to 2 and nothing else. */
  predicate SkipAtTwo(t: SymbolTable)
  {
    t.labels == map["skip" := 2] && t.defines == map[]
  }

  lemma ForwardFirstPass(l: int)
    ensures FirstPassOf(ForwardProgram(l)) == Success(Pass1State(ForwardSymbols, 2, [false, false]))
  {
    var p := ForwardProgram(l);
    var s1 := Pass1State(EmptySymbols, 1, [false]);
    var s2 := Pass1State(EmptySymbols, 2, [false, false]);
    var s3 := Pass1State(ForwardSymbols, 2, [false, false]);
    OneWordStep(Start, BranchB(l));
    assert Start.isData + [false] == [false];
    Pass1FromCons(p, Start, s1);
    OneWordStep(s1, AddOne(l));
    assert s1.isData + [false] == [false, false];
    Pass1FromCons(p[1..], s1, s2);
    assert AddLabel(EmptySymbols, "skip", 2) == ForwardSymbols;
    assert Pass1Step(s2, Skip(l)) == Success(s3);
    Pass1FromCons(p[1..][1..], s2, s3);
    assert p[1..][1..][1..] == [];
  }

  /** Pass 1 gives one word to an instruction that cannot expand. */
  lemma OneWordStep(st: Pass1State, s: Statement)
    requires s.Instruction? && !(s.isLabelImmediate && ExpandableName(s.opcode))
    ensures Pass1Step(st, s) == Success(Pass1State(st.symbols, st.address + 1, st.isData + [false]))
  {
    assert Marks(false, 1) == [false];
  }

  lemma ForwardBranchWord(t: SymbolTable, l: int)
    requires SkipAtTwo(t)
    ensures EncodeInstruction(t, 0, BranchB(l)) == Success([0x2001])
  {
    var instr := BranchB(l);
    var def := InstructionDef("b", Branch, 0x2000, 0x2000, 9, 0, 1, false);
    assert GetInstructionDef(instr.opcode) == Some(def) by {
      LookupB(instr.opcode);
    }
    BranchDispatch(t, 0, instr, def);
    assert EncodeBranch(t, 0, def, "skip") == Success([0x2001]) by {
      assert GetLabelAddress(t, "skip") == Success(2);
      SmallImmediate(1, 9);
      assert ImmWord(def.opcodeReg, def.extraData, 1) == 0x2001;
    }
  }

  /** A mnemonic of the BRANCH format is encoded by encodeBranch. */
  lemma BranchDispatch(t: SymbolTable, address: int, instr: Statement, def: InstructionDef)
    requires instr.Instruction? && GetInstructionDef(instr.opcode) == Some(def) && def.format == Branch
    ensures EncodeInstruction(t, address, instr) == EncodeBranch(t, address, def, instr.operand1)
  {
  }

  lemma ForwardAddWord(t: SymbolTable, l: int)
    requires SkipAtTwo(t)
    ensures EncodeInstruction(t, 1, AddOne(l)) == Success([0x5001])
  {
    var instr := AddOne(l);
    var def := InstructionDef("add", RegImmOrReg, 0x4000, 0x5000, 9, 0, 1, true);
    assert GetInstructionDef(instr.opcode) == Some(def) by {
      LookupAdd(instr.opcode);
    }
    ParseOne(t);
    FitsR0(t, 1, instr, def, 1);
    assert EncodeRegImm(def, 0, 1) == Success([0x5001]) by {
      SmallImmediate(1, 9);
      assert ImmWord(def.opcodeImm, 0, 1) == 0x5001;
    }
  }

  /** A non-negative value below the sign bit is its own field. */
  lemma SmallImmediate(v: int, bits: nat)
    requires 2 <= bits <= 16 && 0 <= v < Pow2(bits - 1)
    ensures EncodeImmediate(v, bits) == Success(v)
  {
    assert Pow2(bits) == 2 * Pow2(bits - 1);
    assert FitsSigned(v, bits);
  }

  lemma ParseOne(t: SymbolTable)
    requires !HasDefine(t, "#1") && !HasLabel(t, "1") && !HasDefine(t, "1")
    ensures ParseImmediateOrSymbol(t, "#1") == Success(1)
  {
    ParseSmall(1);
    assert StripPrefix("#1") == [DigitChar(1)];
  }

  /** A `#` operand on r0 whose value fits the field is encoded by
      encodeRegImm. */
  lemma FitsR0(t: SymbolTable, address: int, instr: Statement, def: InstructionDef, value: int)
    requires instr.Instruction? && instr.operand1 == "r0" && !instr.isLabelImmediate && instr.isImmediate
    requires GetInstructionDef(instr.opcode) == Some(def) && def.format == RegImmOrReg
    requires ParseImmediateOrSymbol(t, instr.operand2) == Success(value) && FitsSigned(value, def.immBits)
    ensures EncodeInstruction(t, address, instr) == EncodeRegImm(def, 0, value)
  {
    R0();
    ImmOrRegDispatch(t, address, instr, def);
  }

  /** `b skip` / `add r0, #1` / `skip:` assembles to two instruction words,
      the branch carrying offset 1: pass 1 has bound `skip` before pass 2
      encodes the branch. */
  lemma ForwardBranch(l: int)
    ensures Assemble(ForwardProgram(l)) == Success(Assembled([0x2001, 0x5001], [false, false], ForwardSymbols))
  {
    ForwardFirstPass(l);
    ForwardEncode(ForwardSymbols, l);
  }

  lemma ForwardEncode(t: SymbolTable, l: int)
    requires SkipAtTwo(t)
    ensures Encode(t, ForwardProgram(l)) == Success(EncoderState([0x2001, 0x5001], 2))
  {
    ForwardBranchWord(t, l);
    ForwardAddWord(t, l);
    TwoWordsThenLabel(t, ForwardProgram(l), 0x2001, 0x5001);
  }

  /** Two one-word instructions followed by a label encode to their two
      words. */
  lemma TwoWordsThenLabel(t: SymbolTable, p: seq<Statement>, first: Word, second: Word)
    requires |p| == 3 && p[2].Label?
    requires p[0].Instruction? && EncodeInstruction(t, 0, p[0]) == Success([first])
    requires p[1].Instruction? && EncodeInstruction(t, 1, p[1]) == Success([second])
    ensures Encode(t, p) == Success(EncoderState([first, second], 2))
  {
    var step := StatementsWith(t);
    InstructionStep(t, 0, p[0], [first]);
    InstructionStep(t, 1, p[1], [second]);
    TwoStepsThenLabel(step, p, first, second);
  }

  /** The loop's step on an instruction is encodeInstruction's result. */
  lemma InstructionStep(t: SymbolTable, a: int, s: Statement, words: seq<Word>)
    requires s.Instruction? && EncodeInstruction(t, a, s) == Success(words)
    ensures StatementsWith(t)(a, s) == Success(words)
  {
  }

  /** The same for any statement encoder. */
  lemma TwoStepsThenLabel(step: StatementEncoder, p: seq<Statement>, first: Word, second: Word)
    requires |p| == 3 && p[2].Label?
    requires step(0, p[0]) == Success([first]) && step(1, p[1]) == Success([second])
    requires step(2, p[2]) == Success([])
    ensures EncodeFrom(step, p, EncoderState([], 0)) == Success(EncoderState([first, second], 2))
  {
    var st0 := EncoderState([], 0);
    var st1 := EncoderState([first], 1);
    var st2 := EncoderState([first, second], 2);
    EncodeFromCons(step, p, st0, [first]);
    assert p[1..][0] == p[1];
    EncodeFromCons(step, p[1..], st1, [second]);
    assert p[1..][1..][0] == p[2];
    EncodeFromCons(step, p[1..][1..], st2, []);
    assert p[1..][1..][1..] == [];
    assert st0.code + [first] == st1.code && st1.code + [second] == st2.code && st2.code + [] == st2.code;
  }

  // ---------------------------------------------------------------------
  // Where the passes part ways
  // ---------------------------------------------------------------------

  function CmpFive(l: int): Statement { Instruction("cmp", "r0", "=5", true, true, false, l, 1) }
  function End(l: int): Statement { Label("end", l + 1, 1) }
  function CmpProgram(l: int): seq<Statement> { [CmpFive(l), End(l)] }
  const CmpSymbols: SymbolTable := SymbolTable(map["end" := 1], map[])

  /** `cmp r0, =v` is encoded as the two-word expansion of v: mvt with the
      high byte, then cmp's immediate form with the low byte. */
  lemma CmpExpansion(t: SymbolTable, address: int, instr: Statement, v: int)
    requires instr.Instruction? && instr.opcode == "cmp" && instr.operand1 == "r0" && instr.isLabelImmediate
    requires LabelImmediateValue(t, instr.operand2) == Success(v)
    ensures EncodeInstruction(t, address, instr).Success?
    ensures CmpWords(EncodeInstruction(t, address, instr).value, v)
  {
    var def := InstructionDef("cmp", RegImmOrReg, 0xE000, 0xF000, 9, 0, 1, false);
    assert GetInstructionDef(instr.opcode) == Some(def) by {
      LookupCmp(instr.opcode);
    }
    ExpandsR0(t, address, instr, def, v);
  }

  /** A REG_IMM_OR_REG instruction whose first operand is a register is
      encoded by encodeRegImmOrReg. */
  lemma ImmOrRegDispatch(t: SymbolTable, address: int, instr: Statement, def: InstructionDef)
    requires instr.Instruction? && GetInstructionDef(instr.opcode) == Some(def)
    requires def.format == RegImmOrReg && IsValidRegister(instr.operand1)
    ensures EncodeInstruction(t, address, instr) == EncodeRegImmOrReg(t, def, instr, ParseRegister(instr.operand1).value)
  {
  }

  /** An `=` operand with a value becomes the two-word expansion. */
  lemma ExpandedOperand(t: SymbolTable, def: InstructionDef, instr: Statement, rX: nat)
    requires instr.Instruction? && instr.isLabelImmediate && rX < 8
    requires RegOpcode(def.opcodeReg) && ImmOpcode(def.opcodeImm) && 1 <= def.immBits <= 9
    requires LabelImmediateValue(t, instr.operand2).Success?
    ensures EncodeRegImmOrReg(t, def, instr, rX)
      == Success(Expansion(if def.mnemonic == "mv" then AddDef.opcodeImm else def.opcodeImm, rX,
                           LabelImmediateValue(t, instr.operand2).value))
  {
  }

  /** The two words encoding `cmp r0, =v`: mvt with the high byte of v's
      low 16 bits, then cmp's immediate form with the low byte. */
  predicate CmpWords(words: seq<Word>, v: int)
  {
    && |words| == 2
    && OpcodeNibble(words[0]) == MvtDef.opcodeImm && OpcodeNibble(words[1]) == 0xF000
    && XField(words[0]) == 0 && XField(words[1]) == 0
    && LowByte(words[0]) * 0x100 + LowByte(words[1]) == v % 0x1_0000
  }

  lemma CmpEncodes(l: int)
    ensures EncodeInstruction(CmpSymbols, 0, CmpFive(l)).Success?
    ensures CmpWords(EncodeInstruction(CmpSymbols, 0, CmpFive(l)).value, 5)
  {
    var instr := CmpFive(l);
    assert LabelImmediateValue(CmpSymbols, instr.operand2) == Success(5) by {
      ParseSmall(5);
      assert StripPrefix(instr.operand2) == [DigitChar(5)];
    }
    CmpExpansion(CmpSymbols, 0, instr, 5);
  }

  /** `cmp r0, =5` then `end:`: pass 1 binds `end` to 1, but the encoder
      emits two words for the cmp, so the word at `end`'s address is the
      second half of the expansion. */
  lemma CmpShiftsLabels(l: int)
    ensures FirstPassOf(CmpProgram(l)) == Success(Pass1State(CmpSymbols, 1, [false]))
    ensures Encode(CmpSymbols, CmpProgram(l)).Success?
    ensures var e := Encode(CmpSymbols, CmpProgram(l)).value;
      e.address == 2 && CmpWords(e.code, 5)
  {
    CmpFirstPass(l);
    CmpEncodes(l);
    OneThenLabel(CmpSymbols, CmpProgram(l), EncodeInstruction(CmpSymbols, 0, CmpFive(l)).value);
  }

  lemma CmpFirstPass(l: int)
    ensures FirstPassOf(CmpProgram(l)) == Success(Pass1State(CmpSymbols, 1, [false]))
  {
    var p := CmpProgram(l);
    var s1 := Pass1State(EmptySymbols, 1, [false]);
    var s2 := Pass1State(CmpSymbols, 1, [false]);
    OneWordStep(Start, CmpFive(l));
    assert Start.isData + [false] == [false];
    Pass1FromCons(p, Start, s1);
    assert AddLabel(EmptySymbols, "end", 1) == CmpSymbols;
    assert Pass1Step(s1, End(l)) == Success(s2);
    Pass1FromCons(p[1..], s1, s2);
    assert p[1..][1..] == [];
  }

  /** An instruction followed by a label encodes to the instruction's
      words. */
  lemma OneThenLabel(t: SymbolTable, p: seq<Statement>, words: seq<Word>)
    requires |p| == 2 && p[1].Label?
    requires p[0].Instruction? && EncodeInstruction(t, 0, p[0]) == Success(words)
    ensures Encode(t, p) == Success(EncoderState(words, |words|))
  {
    var step := StatementsWith(t);
    var st0 := EncoderState([], 0);
    var st1 := EncoderState(words, |words|);
    EncodeFromCons(step, p, st0, words);
    assert st0.code + words == st1.code;
    assert p[1..][0] == p[1];
    EncodeFromCons(step, p[1..], st1, []);
    assert p[1..][1..] == [] && st1.code + [] == st1.code;
  }

  function Org(l: int): Statement { Directive(".org", "", "4", l, 1) }
  function WordSeven(l: int): Statement { Directive(".word", "", "7", l + 1, 1) }
  function OrgProgram(l: int): seq<Statement> { [Org(l), WordSeven(l)] }

  /** `.org 4` then `.word 7`: pass 1 reserves five data words, pass 2
      emits only the one `.word`. */
  lemma OrgNotEmitted(l: int)
    ensures FirstPassOf(OrgProgram(l)) == Success(Pass1State(EmptySymbols, 5, [true, true, true, true, true]))
    ensures Assemble(OrgProgram(l)) == Success(Assembled([7], [true, true, true, true, true], EmptySymbols))
  {
    OrgFirstPass(l);
    OrgEncode(l);
  }

  lemma OrgFirstPass(l: int)
    ensures FirstPassOf(OrgProgram(l)) == Success(Pass1State(EmptySymbols, 5, [true, true, true, true, true]))
  {
    var p := OrgProgram(l);
    var t := EmptySymbols;
    var s1 := Pass1State(t, 4, [true, true, true, true]);
    var s2 := Pass1State(t, 5, [true, true, true, true, true]);
    assert Pass1Step(Start, Org(l)) == Success(s1) by {
      ParseSmall(4);
      assert [DigitChar(4)] == "4";
      assert Marks(true, 4) == [true, true, true, true];
      assert Start.isData + Marks(true, 4 - Start.address) == s1.isData;
    }
    Pass1FromCons(p, Start, s1);
    assert Pass1Step(s1, WordSeven(l)) == Success(s2) by {
      assert Marks(true, 1) == [true];
      assert DirectiveSize(WordSeven(l)) == Success(1);
      assert s1.isData + Marks(true, 1) == s2.isData;
    }
    Pass1FromCons(p[1..], s1, s2);
    assert p[1..][1..] == [];
  }

  lemma OrgEncode(l: int)
    ensures Encode(EmptySymbols, OrgProgram(l)) == Success(EncoderState([7], 1))
  {
    var p := OrgProgram(l);
    var t := EmptySymbols;
    var step := StatementsWith(t);
    var st0 := EncoderState([], 0);
    var st1 := EncoderState([7], 1);
    assert EncodeStatement(t, 0, Org(l)) == Success([]);
    EncodeFromCons(step, p, st0, []);
    assert st0.code + [] == st0.code;
    WordSevenEncodes(l);
    EncodeFromCons(step, p[1..], st0, [7]);
    assert st0.code + [7] == st1.code;
    assert EncodeFrom(step, p[1..][1..], st1) == Success(st1);
  }

  lemma WordSevenEncodes(l: int)
    ensures EncodeStatement(EmptySymbols, 0, WordSeven(l)) == Success([7])
  {
    ParseSmall(7);
    assert [DigitChar(7)] == "7";
    assert ParseImmediateOrSymbol(EmptySymbols, "7") == Success(7);
  }
}
