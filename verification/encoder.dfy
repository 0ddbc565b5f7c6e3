/** Pass 2 (InstructionEncoder.cpp): turns each statement into 16-bit
    words, given the symbol table pass 1 built. Every emitter returns the
    words it emits; the driver appends them and advances the address
    counter by their number.

    A word is packed as the opcode, the rX register in bits 9-11, and a
    low field: a register in bits 0-2, a two's-complement immediate, a
    byte, a condition code (in the rX position) or the shift fields. The
    contracts state that each field can be read back from the word.

    Words are numbers in 0..65535, what `uint16_t` holds. The source joins
    the fields with `|`; the fields never overlap (the table's opcodes keep
    the field bits clear and register numbers are below 8), so here the
    join is a sum, and each emitter requires those field bounds. */
module Encoder {
  import opened Wrappers
  import opened Ast
  import opened Numbers
  import opened Isa
  import opened Errors
  import opened Symbols

  // ---------------------------------------------------------------------
  // Immediates
  // ---------------------------------------------------------------------

  function ImmMin(bits: nat): int
    requires bits >= 1
  {
    -(Pow2(bits - 1) as int)
  }

  function ImmMax(bits: nat): int
    requires bits >= 1
  {
    Pow2(bits - 1) - 1
  }

  /** The value is representable as a `bits`-wide two's-complement number. */
  predicate FitsSigned(value: int, bits: nat)
    requires bits >= 1
  {
    ImmMin(bits) <= value <= ImmMax(bits)
  }

  /** Reads a `bits`-wide field as two's complement. */
  function SignExtend(field: int, bits: nat): int
    requires bits >= 1
  {
    if field >= Pow2(bits - 1) then field - Pow2(bits) else field
  }

  const Pow2Values: seq<nat> :=
    [1, 2, 4, 8, 16, 32, 64, 128, 256, 512, 1024, 2048, 4096, 8192, 16384, 32768, 65536]

  lemma Pow2AtMost(bits: nat)
    requires bits <= 16
    ensures 1 <= Pow2(bits) <= 0x1_0000
  {
    Pow2Small(bits);
  }

  lemma {:induction false} Pow2Small(bits: nat)
    requires bits <= 16
    ensures Pow2(bits) == Pow2Values[bits]
  {
    if bits > 0 {
      Pow2Small(bits - 1);
    }
  }

  lemma ModSmall(x: int, p: int)
    requires 0 <= x < p
    ensures x % p == x
  {
  }

  lemma ModWrap(x: int, p: int)
    requires -p <= x < 0
    ensures x % p == x + p
  {
  }

  /** The two's-complement field of an in-range value: the value itself when
      it is non-negative, the value plus 2^bits otherwise. */
  lemma TwosComplement(value: int, bits: nat)
    requires 1 <= bits <= 16 && FitsSigned(value, bits)
    ensures var field := if value < 0 then value + Pow2(bits) else value;
      && 0 <= field < Pow2(bits) <= 0x1_0000
      && value % Pow2(bits) == field
      && field % Pow2(bits) == field
      && SignExtend(field, bits) == value
  {
    Pow2AtMost(bits);
    Pow2Double(bits);
    var field := if value < 0 then value + Pow2(bits) else value;
    HalfRange(value, Pow2(bits - 1), Pow2(bits), field);
  }

  lemma Pow2Double(bits: nat)
    requires bits >= 1
    ensures Pow2(bits) == 2 * Pow2(bits - 1)
  {
  }

  /** The same fact over the half range `h` and the full range `p = 2h`,
      free of the power function. */
  lemma HalfRange(value: int, h: int, p: int, field: int)
    requires 1 <= h && p == 2 * h && -h <= value < h
    requires field == if value < 0 then value + p else value
    ensures 0 <= field < p
    ensures value % p == field && field % p == field
    ensures (if field >= h then field - p else field) == value
  {
    ModSmall(field, p);
    if value < 0 {
      ModWrap(value, p);
    }
  }

  type Word = w: int | 0 <= w < 0x1_0000

  /** encodeImmediate: succeeds exactly for values in the signed range of
      the width, and then yields the value modulo 2^bits, whose sign
      extension is the value again. */
  function EncodeImmediate(value: int, bits: nat): (r: Result<nat, ErrorKind>)
    requires 1 <= bits <= 16
    ensures r.Success? <==> FitsSigned(value, bits)
    ensures r.Success? ==> r.value < Pow2(bits) && r.value == value % Pow2(bits)
    ensures r.Success? ==> SignExtend(r.value, bits) == value
    ensures r.Failure? ==> r.error == ImmediateOutOfRange(value, ImmMin(bits), ImmMax(bits))
  {
    if value > ImmMax(bits) || value < ImmMin(bits) then
      Failure(ImmediateOutOfRange(value, ImmMin(bits), ImmMax(bits)))
    else
      TwosComplement(value, bits);
      var adjusted := if value < 0 then value + Pow2(bits) else value;
      Success(adjusted % Pow2(bits))
  }

  /** Every `bits`-wide field is the encoding of exactly one value: its
      sign extension. */
  lemma EncodeImmediateOnto(field: nat, bits: nat)
    requires 1 <= bits <= 16 && field < Pow2(bits)
    ensures EncodeImmediate(SignExtend(field, bits), bits) == Success(field)
  {
    Pow2Small(bits);
    Pow2Small(bits - 1);
    var v := SignExtend(field, bits);
    assert FitsSigned(v, bits);
    TwosComplement(v, bits);
  }

  // ---------------------------------------------------------------------
  // Word fields
  // ---------------------------------------------------------------------

  /** Bits 9-11: the rX register, or a branch's condition code. */
  function XField(w: int): int { (w / 0x200) % 8 }

  /** Bits 0-2: the rY register, or push/pop's implicit register. */
  function YField(w: int): int { w % 8 }

  /** Bits 0-8: an immediate or branch offset. */
  function Low9(w: int): int { w % 0x200 }

  /** Bits 0-7: one byte of an expanded constant. */
  function LowByte(w: int): int { w % 0x100 }

  /** Bits 12-15 in place: the opcode of an immediate-format word. */
  function OpcodeNibble(w: int): int { (w / 0x1000) * 0x1000 }

  /** The word without its rX and rY fields: the opcode of a
      register-format word. */
  function RegOpcodeBits(w: int): int { w - XField(w) * 0x200 - YField(w) }

  /** An opcode that leaves the rX and rY fields clear. */
  predicate RegOpcode(op: int)
  {
    0 <= op < 0x1_0000 && op % 8 == 0 && (op / 0x200) % 8 == 0
  }

  /** An opcode that leaves bits 0-11 clear. */
  predicate ImmOpcode(op: int)
  {
    0 <= op < 0x1_0000 && op % 0x1000 == 0
  }

  /** `op | rX << 9 | rY` for a register-format opcode. */
  function RegWord(op: int, rX: nat, rY: nat): (w: Word)
    requires RegOpcode(op) && rX < 8 && rY < 8
    ensures XField(w) == rX && YField(w) == rY && RegOpcodeBits(w) == op
  {
    var hi, lo := op / 0x200, op % 0x200;
    DivModUnique(hi / 8, 0, 8);
    DivModUnique(hi, lo, 0x200);
    DivModUnique(hi * 0x40 + lo / 8, lo % 8, 8);
    var w := op + rX * 0x200 + rY;
    assert lo + rY < 0x200;
    DivModUnique(hi + rX, lo + rY, 0x200);
    DivModUnique(hi / 8, rX, 8);
    DivModUnique((hi + rX) * 0x40 + lo / 8, rY, 8);
    w
  }

  /** `op | rX << 9 | low` for an opcode with bits 0-11 clear and a low
      field of at most 9 bits. */
  function ImmWord(op: int, rX: nat, low: nat): (w: Word)
    requires ImmOpcode(op) && rX < 8 && low < 0x200
    ensures XField(w) == rX && Low9(w) == low && OpcodeNibble(w) == op
  {
    var c := op / 0x1000;
    var w := op + rX * 0x200 + low;
    DivModUnique(c * 8 + rX, low, 0x200);
    DivModUnique(c, rX, 8);
    DivModUnique(c, rX * 0x200 + low, 0x1000);
    w
  }

  // ---------------------------------------------------------------------
  // Operands
  // ---------------------------------------------------------------------

  /** parseRegister: the number of a register name, an error naming it
      otherwise. */
  function ParseRegister(name: string): (r: Result<nat, ErrorKind>)
    ensures r.Success? <==> IsValidRegister(name)
    ensures r.Success? ==> r.value < 8 && RegisterNumber(name) == Some(r.value)
    ensures r.Failure? ==> r.error == InvalidRegister(name)
  {
    RegisterNumber(name).ToResult(InvalidRegister(name))
  }

  /** The literal tail of parseImmediateOrSymbol: a `0x`/`0X` prefix reads
      hex, a `0b`/`0B` prefix binary, anything else goes to stoll with base
      0 (so a leading 0 means octal). */
  function ImmediateLiteral(s: string): Option<int>
  {
    if |s| >= 2 && (s[..2] == "0x" || s[..2] == "0X") then Stoll(s[2..], 16)
    else if |s| >= 2 && (s[..2] == "0b" || s[..2] == "0B") then Stoll(s[2..], 2)
    else Stoll(s, 0)
  }

  /** The encoder reads literals exactly as pass 1's parseNumber does. */
  lemma ImmediateLiteralIsParseNumber(s: string)
    ensures ImmediateLiteral(s) == ParseNumber(s)
  {
  }

  /** The operand text without one leading `#` or `=`. */
  function StripPrefix(value: string): (r: string)
    ensures |value| > 0 && (value[0] == '#' || value[0] == '=') ==> value == [value[0]] + r
    ensures !(|value| > 0 && (value[0] == '#' || value[0] == '=')) ==> r == value
  {
    if |value| > 0 && (value[0] == '#' || value[0] == '=') then value[1..] else value
  }

  /** parseImmediateOrSymbol: a define named by the whole text wins; then,
      with one `#` or `=` stripped, a define, then a label, then a numeric
      literal. Anything else fails naming the original text. */
  function ParseImmediateOrSymbol(t: SymbolTable, value: string): (r: Result<int, ErrorKind>)
    ensures HasDefine(t, value) ==> r == Success(t.defines[value])
    ensures var s := StripPrefix(value);
      !HasDefine(t, value) ==>
        if HasDefine(t, s) then r == Success(t.defines[s])
        else if HasLabel(t, s) then r == Success(t.labels[s])
        else r == ParseNumber(s).ToResult(BadImmediate(value))
  {
    if HasDefine(t, value) then Success(GetDefineValue(t, value))
    else
      var s := StripPrefix(value);
      if HasDefine(t, s) then Success(GetDefineValue(t, s))
      else if HasLabel(t, s) then GetLabelAddress(t, s)
      else
        ImmediateLiteralIsParseNumber(s);
        ImmediateLiteral(s).ToResult(BadImmediate(value))
  }

  /** A `#`-prefixed decimal literal is read as its value when no symbol
      has that text as its name. */
  lemma ParseImmediateDecimal(t: SymbolTable, n: nat)
    requires n <= Int64Max
    requires !HasDefine(t, "#" + Render(n, 10)) && !HasDefine(t, Render(n, 10)) && !HasLabel(t, Render(n, 10))
    ensures ParseImmediateOrSymbol(t, "#" + Render(n, 10)) == Success(n)
  {
    ParseNumberDecimal(n);
    assert StripPrefix("#" + Render(n, 10)) == Render(n, 10);
  }

  /** The value of an `=` operand (encodeRegImmOrReg and encodeLabelLoad):
      a label named by the whole text, then a define, then the general
      operand rules. Every value it gives is a label's address, a define's
      value or the literal after the prefix; every failure names the
      operand text. What the common spellings read as is stated by
      LabelOperand, DefineOperand and LabelImmediateDecimal. */
  function LabelImmediateValue(t: SymbolTable, operand: string): (r: Result<int, ErrorKind>)
    ensures r.Success? ==>
      r.value in t.labels.Values || r.value in t.defines.Values
      || ParseNumber(StripPrefix(operand)) == Some(r.value)
    ensures r.Failure? ==>
      && r.error == BadImmediate(operand)
      && !HasLabel(t, operand) && !HasDefine(t, operand)
      && !HasLabel(t, StripPrefix(operand)) && !HasDefine(t, StripPrefix(operand))
      && ParseNumber(StripPrefix(operand)).None?
  {
    if HasLabel(t, operand) then GetLabelAddress(t, operand)
    else if HasDefine(t, operand) then Success(GetDefineValue(t, operand))
    else ParseImmediateOrSymbol(t, operand)
  }

  /** A label that is not also a define reads as its address, spelled with
      or without the `=` (when no symbol is spelled with it). */
  lemma LabelOperand(t: SymbolTable, name: string)
    requires HasLabel(t, name) && !HasDefine(t, name)
    requires !HasLabel(t, "=" + name) && !HasDefine(t, "=" + name)
    ensures LabelImmediateValue(t, name) == Success(t.labels[name])
    ensures LabelImmediateValue(t, "=" + name) == Success(t.labels[name])
  {
  }

  /** A define that is not also a label reads as its value, spelled with or
      without the `=` (when no symbol is spelled with it). */
  lemma DefineOperand(t: SymbolTable, name: string)
    requires HasDefine(t, name) && !HasLabel(t, name)
    requires !HasLabel(t, "=" + name) && !HasDefine(t, "=" + name)
    ensures LabelImmediateValue(t, name) == Success(t.defines[name])
    ensures LabelImmediateValue(t, "=" + name) == Success(t.defines[name])
  {
  }

  /** An `=`-prefixed decimal literal is read as its value when no symbol
      has that text as its name. */
  lemma LabelImmediateDecimal(t: SymbolTable, n: nat)
    requires n <= Int64Max
    requires !HasLabel(t, "=" + Render(n, 10)) && !HasDefine(t, "=" + Render(n, 10))
    requires !HasDefine(t, Render(n, 10)) && !HasLabel(t, Render(n, 10))
    ensures LabelImmediateValue(t, "=" + Render(n, 10)) == Success(n)
  {
    ParseNumberDecimal(n);
    assert StripPrefix("=" + Render(n, 10)) == Render(n, 10);
  }

  /** The value of a `#` operand of a REG_IMM_OR_REG instruction: the
      source checks for a define before the general rules, which check for
      it again, so the result is the general one. */
  function HashImmediateValue(t: SymbolTable, operand: string): (r: Result<int, ErrorKind>)
    ensures r == ParseImmediateOrSymbol(t, operand)
  {
    if HasDefine(t, operand) then Success(GetDefineValue(t, operand))
    else ParseImmediateOrSymbol(t, operand)
  }

  /** A name bound both as a label and as a define. As bare operand text it
      reads as the label in the `=` path and as the define in the `#` path.
      Written with its `=` or `#` prefix (and no symbol spelled with the
      prefix), it reads as the define in both paths: the whole-text checks
      miss, and the general rules strip the prefix and try defines before
      labels. */
  lemma LabelShadowsDefine(t: SymbolTable, name: string)
    requires HasLabel(t, name) && HasDefine(t, name)
    ensures LabelImmediateValue(t, name) == Success(t.labels[name])
    ensures HashImmediateValue(t, name) == Success(t.defines[name])
    ensures !HasLabel(t, "=" + name) && !HasDefine(t, "=" + name) ==>
      LabelImmediateValue(t, "=" + name) == Success(t.defines[name])
    ensures !HasDefine(t, "#" + name) ==>
      HashImmediateValue(t, "#" + name) == Success(t.defines[name])
  {
    assert StripPrefix("=" + name) == name;
    assert StripPrefix("#" + name) == name;
  }

  // ---------------------------------------------------------------------
  // Per-format emitters
  // ---------------------------------------------------------------------

  /** The entries the expansion borrows: getInstructionDef("mvt") and
      getInstructionDef("add"); Isa.LookupMvt and Isa.LookupAdd find them by
      name. */
  const MvtDef: InstructionDef := DataMovement[1]
  const AddDef: InstructionDef := Alu[0]

  /** encodeRegReg, and encodeRegMem, which packs the same way: one word
      `opcodeReg | rX << 9 | rY`. */
  function EncodeRegReg(def: InstructionDef, rX: nat, rY: nat): (r: seq<Word>)
    requires RegOpcode(def.opcodeReg) && rX < 8 && rY < 8
    ensures |r| == 1
    ensures XField(r[0]) == rX && YField(r[0]) == rY && RegOpcodeBits(r[0]) == def.opcodeReg
  {
    [RegWord(def.opcodeReg, rX, rY)]
  }

  /** encodeRegImm: one word `opcodeImm | rX << 9 | imm`, the immediate
      range-checked against immBits. */
  function EncodeRegImm(def: InstructionDef, rX: nat, imm: int): (r: Result<seq<Word>, ErrorKind>)
    requires ImmOpcode(def.opcodeImm) && 1 <= def.immBits <= 9 && rX < 8
    ensures r.Success? <==> FitsSigned(imm, def.immBits)
    ensures r.Failure? ==> r.error == ImmediateOutOfRange(imm, ImmMin(def.immBits), ImmMax(def.immBits))
    ensures r.Success? ==> |r.value| == 1
    ensures r.Success? ==> XField(r.value[0]) == rX && OpcodeNibble(r.value[0]) == def.opcodeImm
    ensures r.Success? ==> Low9(r.value[0]) < Pow2(def.immBits)
    ensures r.Success? ==> SignExtend(Low9(r.value[0]), def.immBits) == imm
  {
    Pow2Small(def.immBits);
    var field :- EncodeImmediate(imm, def.immBits);
    Success([ImmWord(def.opcodeImm, rX, field)])
  }

  /** The two-word expansion of an `=` operand: `mvt rX, #high byte` then
      the operation with the low byte. The two bytes are the value's low 16
      bits; nothing is range-checked. */
  function Expansion(second: int, rX: nat, value: int): (r: seq<Word>)
    requires ImmOpcode(second) && rX < 8
    ensures |r| == 2
    ensures XField(r[0]) == rX && XField(r[1]) == rX
    ensures OpcodeNibble(r[0]) == MvtDef.opcodeImm && OpcodeNibble(r[1]) == second
    ensures Low9(r[0]) == LowByte(r[0]) && Low9(r[1]) == LowByte(r[1])
    ensures LowByte(r[0]) * 0x100 + LowByte(r[1]) == value % 0x1_0000
  {
    ByteSplit(value);
    var high := ByteWord(MvtDef.opcodeImm, rX, (value / 0x100) % 0x100);
    var low := ByteWord(second, rX, value % 0x100);
    [high, low]
  }

  /** An immediate-format word whose low field is a byte: the byte is both
      its low nine bits and its low eight. */
  function ByteWord(op: int, rX: nat, b: int): (w: Word)
    requires ImmOpcode(op) && rX < 8 && 0 <= b < 0x100
    ensures XField(w) == rX && OpcodeNibble(w) == op
    ensures Low9(w) == b && LowByte(w) == b
  {
    var w := ImmWord(op, rX, b);
    LowerFields(w);
    DivModUnique(0, b, 0x100);
    w
  }

  /** `(v >> 8) & 0xFF` and `v & 0xFF` are the high and low byte of the low
      16 bits of v (an arithmetic shift is a floor division). */
  lemma ByteSplit(v: int)
    ensures ((v / 0x100) % 0x100) * 0x100 + v % 0x100 == v % 0x1_0000
  {
    var q := v / 0x100;
    var q2 := q / 0x100;
    DivModUnique(q2, (q % 0x100) * 0x100 + v % 0x100, 0x1_0000);
  }

  /** The low byte and the low three bits of a word can be read off its
      low nine bits. */
  lemma LowerFields(w: int)
    requires w >= 0
    ensures LowByte(w) == Low9(w) % 0x100
    ensures YField(w) == Low9(w) % 8
  {
    var a, l := w / 0x200, Low9(w);
    DivModUnique(a * 2 + l / 0x100, l % 0x100, 0x100);
    DivModUnique(a * 0x40 + l / 8, l % 8, 8);
  }

  /** encodeRegImmOrReg: `=` always expands to two words (mv's second word
      is add's immediate form); `#` must fit immBits or fails asking for `=`;
      otherwise the operand is a register. */
  function EncodeRegImmOrReg(t: SymbolTable, def: InstructionDef, instr: Statement, rX: nat): (r: Result<seq<Word>, ErrorKind>)
    requires instr.Instruction? && rX < 8
    requires RegOpcode(def.opcodeReg) && ImmOpcode(def.opcodeImm) && 1 <= def.immBits <= 9
    ensures instr.isLabelImmediate ==>
      && (r.Success? <==> LabelImmediateValue(t, instr.operand2).Success?)
      && (r.Success? ==> (|r.value| == 2
           && XField(r.value[0]) == rX && XField(r.value[1]) == rX
           && OpcodeNibble(r.value[0]) == MvtDef.opcodeImm
           && OpcodeNibble(r.value[1]) == (if def.mnemonic == "mv" then AddDef.opcodeImm else def.opcodeImm)
           && LowByte(r.value[0]) * 0x100 + LowByte(r.value[1])
              == LabelImmediateValue(t, instr.operand2).value % 0x1_0000))
    ensures !instr.isLabelImmediate && instr.isImmediate ==>
      var v := ParseImmediateOrSymbol(t, instr.operand2);
      && (r.Success? <==> v.Success? && FitsSigned(v.value, def.immBits))
      && (v.Success? && !FitsSigned(v.value, def.immBits) ==>
           r == Failure(ImmediateNeedsExpansion(v.value, def.immBits)))
      && (r.Success? ==> (|r.value| == 1
           && XField(r.value[0]) == rX && OpcodeNibble(r.value[0]) == def.opcodeImm
           && SignExtend(Low9(r.value[0]), def.immBits) == v.value))
    ensures !instr.isLabelImmediate && !instr.isImmediate ==>
      && (r.Success? <==> IsValidRegister(instr.operand2))
      && (r.Success? ==> (|r.value| == 1
           && XField(r.value[0]) == rX && Some(YField(r.value[0])) == RegisterNumber(instr.operand2)
           && RegOpcodeBits(r.value[0]) == def.opcodeReg))
  {
    if instr.isLabelImmediate then
      var value :- LabelImmediateValue(t, instr.operand2);
      Success(Expansion(if def.mnemonic == "mv" then AddDef.opcodeImm else def.opcodeImm, rX, value))
    else if instr.isImmediate then
      var value :- HashImmediateValue(t, instr.operand2);
      if !FitsSigned(value, def.immBits) then Failure(ImmediateNeedsExpansion(value, def.immBits))
      else EncodeRegImm(def, rX, value)
    else
      var rY :- ParseRegister(instr.operand2);
      Success(EncodeRegReg(def, rX, rY))
  }

  /** encodeBranch: the offset from the word after the branch to the label,
      rejected outside [-256, 255], packed with the condition code in the
      rX position. */
  function EncodeBranch(t: SymbolTable, address: int, def: InstructionDef, target: string): (r: Result<seq<Word>, ErrorKind>)
    requires ImmOpcode(def.opcodeReg) && 0 <= def.extraData < 8 && 1 <= def.immBits <= 9
    ensures !HasLabel(t, target) ==> r == Failure(UndefinedLabel(target))
    ensures HasLabel(t, target) ==>
      var offset := t.labels[target] - (address + 1);
      && (r.Success? <==> -256 <= offset <= 255 && FitsSigned(offset, def.immBits))
      && (!(-256 <= offset <= 255) ==> r == Failure(BranchTooFar(offset)))
      && (r.Success? ==> (|r.value| == 1
           && OpcodeNibble(r.value[0]) == def.opcodeReg && XField(r.value[0]) == def.extraData
           && SignExtend(Low9(r.value[0]), def.immBits) == offset))
  {
    Pow2Small(def.immBits);
    var targetAddress :- GetLabelAddress(t, target);
    var offset := targetAddress - (address + 1);
    if offset > 255 || offset < -256 then Failure(BranchTooFar(offset))
    else
      var field :- EncodeImmediate(offset, def.immBits);
      Success([ImmWord(def.opcodeReg, def.extraData, field)])
  }

  /** encodeRegOnly: `opcodeReg | rX << 9 | extraData`, the implicit second
      register in the rY position. */
  function EncodeRegOnly(def: InstructionDef, rX: nat): (r: seq<Word>)
    requires RegOpcode(def.opcodeReg) && 0 <= def.extraData < 8 && rX < 8
    ensures |r| == 1
    ensures XField(r[0]) == rX && YField(r[0]) == def.extraData && RegOpcodeBits(r[0]) == def.opcodeReg
  {
    [RegWord(def.opcodeReg, rX, def.extraData)]
  }

  /** Bit 8 of a shift word (always set), bit 7 (immediate form), bits 5-6
      (the shift kind) and bits 0-3 (the amount). */
  function ShiftMarker(w: int): int { (Low9(w) / 0x100) % 2 }
  function ShiftImmediateFlag(w: int): int { (Low9(w) / 0x80) % 2 }
  function ShiftKind(w: int): int { (Low9(w) / 0x20) % 4 }
  function ShiftAmount(w: int): int { Low9(w) % 0x10 }

  /** `op | rX << 9 | 0b10 << 7 | kind << 5`, or-ed with `1 << 7 | amount`
      (flag 1) or with rY (flag 0). */
  function ShiftWord(op: int, rX: nat, kind: nat, flag: nat, field: nat): (w: Word)
    requires ImmOpcode(op) && rX < 8 && kind < 4 && flag < 2 && field < 0x10
    requires flag == 0 ==> field < 8
    ensures OpcodeNibble(w) == op && XField(w) == rX
    ensures ShiftMarker(w) == 1 && ShiftImmediateFlag(w) == flag && ShiftKind(w) == kind
    ensures ShiftAmount(w) == field && YField(w) == field % 8
  {
    var l := 0x100 + flag * 0x80 + kind * 0x20 + field;
    var w := ImmWord(op, rX, l);
    LowerFields(w);
    DivModUnique(1, flag * 0x80 + kind * 0x20 + field, 0x100);
    DivModUnique(2 + flag, kind * 0x20 + field, 0x80);
    DivModUnique(1, flag, 2);
    DivModUnique(8 + flag * 4 + kind, field, 0x20);
    DivModUnique(2 + flag, kind, 4);
    DivModUnique(0x10 + flag * 8 + kind * 2, field, 0x10);
    DivModUnique(field / 8, field % 8, 8);
    w
  }

  /** encodeShift: `opcodeReg | rX << 9 | 0b10 << 7 | kind << 5`, then
      either bit 7 and an amount in 0..15, or rY. */
  function EncodeShift(t: SymbolTable, def: InstructionDef, instr: Statement, rX: nat): (r: Result<seq<Word>, ErrorKind>)
    requires instr.Instruction? && ImmOpcode(def.opcodeReg) && 0 <= def.extraData < 4 && rX < 8
    ensures r.Success? ==> (|r.value| == 1)
    ensures r.Success? ==> OpcodeNibble(r.value[0]) == def.opcodeReg && XField(r.value[0]) == rX
    ensures r.Success? ==> ShiftMarker(r.value[0]) == 1 && ShiftKind(r.value[0]) == def.extraData
    ensures instr.isImmediate ==>
      var v := ParseImmediateOrSymbol(t, instr.operand2);
      && (r.Success? <==> v.Success? && 0 <= v.value <= 15)
      && (v.Success? && !(0 <= v.value <= 15) ==> r == Failure(ShiftAmountOutOfRange(v.value)))
      && (r.Success? ==> ShiftImmediateFlag(r.value[0]) == 1 && ShiftAmount(r.value[0]) == v.value)
    ensures !instr.isImmediate ==>
      && (r.Success? <==> IsValidRegister(instr.operand2))
      && (r.Success? ==> ShiftImmediateFlag(r.value[0]) == 0)
      && (r.Success? ==> Some(YField(r.value[0])) == RegisterNumber(instr.operand2))
  {
    if instr.isImmediate then
      var imm :- ParseImmediateOrSymbol(t, instr.operand2);
      if imm > 15 || imm < 0 then Failure(ShiftAmountOutOfRange(imm))
      else
        DivModUnique(0, imm, 0x10);
        Success([ShiftWord(def.opcodeReg, rX, def.extraData, 1, imm % 0x10)])
    else
      var rY :- ParseRegister(instr.operand2);
      DivModUnique(0, rY, 8);
      Success([ShiftWord(def.opcodeReg, rX, def.extraData, 0, rY)])
  }

  /** encodeLabelLoad: always the mvt/add pair. No table entry has this
      format, so the dispatcher never reaches it. */
  function EncodeLabelLoad(t: SymbolTable, instr: Statement, rX: nat): (r: Result<seq<Word>, ErrorKind>)
    requires instr.Instruction? && rX < 8
    ensures r.Success? <==> LabelImmediateValue(t, instr.operand2).Success?
    ensures r.Success? ==> |r.value| == 2
    ensures r.Success? ==> XField(r.value[0]) == rX && XField(r.value[1]) == rX
    ensures r.Success? ==>
      OpcodeNibble(r.value[0]) == MvtDef.opcodeImm && OpcodeNibble(r.value[1]) == AddDef.opcodeImm
    ensures r.Success? ==>
      LowByte(r.value[0]) * 0x100 + LowByte(r.value[1]) == LabelImmediateValue(t, instr.operand2).value % 0x1_0000
  {
    var value :- LabelImmediateValue(t, instr.operand2);
    Success(Expansion(AddDef.opcodeImm, rX, value))
  }

  // ---------------------------------------------------------------------
  // Dispatch
  // ---------------------------------------------------------------------

  /** The words pass 2 emits for an instruction it encodes: two for an `=`
      operand of a REG_IMM_OR_REG mnemonic and for LABEL_LOAD, one
      otherwise. */
  function EncodedSize(instr: Statement): nat
    requires instr.Instruction?
  {
    match GetInstructionDef(instr.opcode)
    case None => 1
    case Some(def) => FormatWords(def, instr)
  }

  function FormatWords(def: InstructionDef, instr: Statement): nat
    requires instr.Instruction?
  {
    if (def.format == RegImmOrReg && instr.isLabelImmediate) || def.format == LabelLoad then 2 else 1
  }

  /** Adds the mnemonic's operand-syntax hint to a register error. */
  function WithHint(def: InstructionDef): ErrorKind -> ErrorKind
  {
    e => Hinted(e, FormatHint(Some(def)))
  }

  /** encodeInstruction: look the mnemonic up, read rX (except for
      branches), then pack by format. An unknown mnemonic and a first
      operand that names no register fail before any packing. */
  function EncodeInstruction(t: SymbolTable, address: int, instr: Statement): (r: Result<seq<Word>, ErrorKind>)
    requires instr.Instruction?
    ensures r.Success? ==> |r.value| == EncodedSize(instr)
    ensures !IsValidInstruction(instr.opcode) ==> r == Failure(UnknownInstruction(instr.opcode))
    ensures IsValidInstruction(instr.opcode) ==>
      var def := GetInstructionDef(instr.opcode).value;
      && (def.format == Branch ==> r == EncodeByFormat(t, address, instr, def, 0))
      && (def.format != Branch && !IsValidRegister(instr.operand1) ==>
           r == Failure(Hinted(InvalidRegister(instr.operand1), FormatHint(Some(def)))))
      && (def.format != Branch && IsValidRegister(instr.operand1) ==>
           r == EncodeByFormat(t, address, instr, def, RegisterNumber(instr.operand1).value))
  {
    var def :- GetInstructionDef(instr.opcode).ToResult(UnknownInstruction(instr.opcode));
    var rX :- if def.format != Branch then ParseRegister(instr.operand1).MapFailure(WithHint(def))
              else Success(0);
    EncodeByFormat(t, address, instr, def, rX)
  }

  /** encodeInstruction's switch on the format, once the definition and
      the first register are known. */
  function EncodeByFormat(t: SymbolTable, address: int, instr: Statement, def: InstructionDef, rX: nat)
    : (r: Result<seq<Word>, ErrorKind>)
    requires instr.Instruction? && WellFormed(def) && rX < 8
    ensures r.Success? ==> |r.value| == FormatWords(def, instr)
    ensures def.format == RegReg || def.format == RegMem ==>
      && (r.Success? <==> IsValidRegister(instr.operand2))
      && (r.Success? ==> r.value == EncodeRegReg(def, rX, RegisterNumber(instr.operand2).value))
      && (r.Failure? ==> r.error == Hinted(InvalidRegister(instr.operand2), FormatHint(Some(def))))
    ensures def.format == RegImm ==>
      var v := ParseImmediateOrSymbol(t, instr.operand2);
      && (v.Failure? ==> r == Failure(v.error))
      && (v.Success? ==> r == EncodeRegImm(def, rX, v.value))
    ensures def.format == RegImmOrReg ==> r == EncodeRegImmOrReg(t, def, instr, rX)
    ensures def.format == Branch ==> r == EncodeBranch(t, address, def, instr.operand1)
    ensures def.format == RegOnly ==> r == Success(EncodeRegOnly(def, rX))
    ensures def.format == Shift ==> r == EncodeShift(t, def, instr, rX)
    ensures def.format == LabelLoad ==> r == EncodeLabelLoad(t, instr, rX)
  {
    match def.format
    case RegReg =>
      var rY :- ParseRegister(instr.operand2).MapFailure(WithHint(def));
      Success(EncodeRegReg(def, rX, rY))
    case RegImm =>
      var imm :- ParseImmediateOrSymbol(t, instr.operand2);
      EncodeRegImm(def, rX, imm)
    case RegImmOrReg =>
      EncodeRegImmOrReg(t, def, instr, rX)
    case Branch =>
      EncodeBranch(t, address, def, instr.operand1)
    case RegOnly =>
      Success(EncodeRegOnly(def, rX))
    case RegMem =>
      var rY :- ParseRegister(instr.operand2).MapFailure(WithHint(def));
      Success(EncodeRegReg(def, rX, rY))
    case Shift =>
      EncodeShift(t, def, instr, rX)
    case LabelLoad =>
      EncodeLabelLoad(t, instr, rX)
  }

  /** An unknown mnemonic aborts the statement. */
  lemma UnknownMnemonic(t: SymbolTable, address: int, instr: Statement)
    requires instr.Instruction? && !IsValidInstruction(instr.opcode)
    ensures EncodeInstruction(t, address, instr) == Failure(UnknownInstruction(instr.opcode))
  {
  }

  /** A known non-branch mnemonic whose first operand names no register
      fails with that name and the mnemonic's format hint. */
  lemma BadFirstRegister(t: SymbolTable, address: int, instr: Statement)
    requires instr.Instruction? && !IsValidRegister(instr.operand1)
    requires GetInstructionDef(instr.opcode).Some? && GetInstructionDef(instr.opcode).value.format != Branch
    ensures EncodeInstruction(t, address, instr)
            == Failure(Hinted(InvalidRegister(instr.operand1), FormatHint(GetInstructionDef(instr.opcode))))
  {
  }

  /** A branch is encoded with the branch opcode, its condition code and
      the offset from the following word to its label. */
  lemma BranchWord(t: SymbolTable, address: int, instr: Statement)
    requires instr.Instruction?
    requires GetInstructionDef(instr.opcode).Some? && GetInstructionDef(instr.opcode).value.format == Branch
    requires EncodeInstruction(t, address, instr).Success?
    ensures var w := EncodeInstruction(t, address, instr).value[0];
      && HasLabel(t, instr.operand1)
      && OpcodeNibble(w) == 0x2000 && XField(w) == GetInstructionDef(instr.opcode).value.extraData
      && SignExtend(Low9(w), 9) == t.labels[instr.operand1] - (address + 1)
  {
  }

  /** encodeDirective: `.word` emits its value's low 16 bits after checking
      it lies in [-32768, 65535]; every other directive emits nothing. */
  function EncodeDirective(t: SymbolTable, dir: Statement): (r: Result<seq<Word>, ErrorKind>)
    requires dir.Directive?
    ensures dir.name != ".word" ==> r == Success([])
    ensures dir.name == ".word" ==>
      var v := ParseImmediateOrSymbol(t, dir.value);
      && (r.Success? <==> v.Success? && -0x8000 <= v.value <= 0xFFFF)
      && (v.Success? && !(-0x8000 <= v.value <= 0xFFFF) ==> r == Failure(WordOutOfRange(v.value)))
      && (r.Success? ==> |r.value| == 1)
      && (r.Success? && v.value >= 0 ==> r.value[0] == v.value)
      && (r.Success? && v.value < 0 ==> r.value[0] == v.value + 0x1_0000)
  {
    if dir.name == ".word" then
      var value :- ParseImmediateOrSymbol(t, dir.value);
      if value > 0xFFFF || value < -0x8000 then Failure(WordOutOfRange(value))
      else
        LowSixteen(value);
        Success([value % 0x1_0000])
    else
      Success([])
  }

  /** `value & 0xFFFF` of a value in the `.word` range. */
  lemma LowSixteen(value: int)
    requires -0x8000 <= value <= 0xFFFF
    ensures value >= 0 ==> value % 0x1_0000 == value
    ensures value < 0 ==> value % 0x1_0000 == value + 0x1_0000
  {
    if value >= 0 {
      DivModUnique(0, value, 0x1_0000);
    } else {
      DivModUnique(-1, value + 0x1_0000, 0x1_0000);
    }
  }

  /** The words pass 2 emits for a statement it encodes: two for an `=`
      operand of a REG_IMM_OR_REG mnemonic, one for any other instruction,
      one for `.word`, none otherwise. */
  function EmittedSize(s: Statement): nat
  {
    match s
    case Label(_, _, _) => 0
    case Directive(name, _, _, _, _) => if name == ".word" then 1 else 0
    case Instruction(_, _, _, _, _, _, _, _) =>
      if s.isLabelImmediate && ImmOrRegName(s.opcode) then 2 else 1
  }

  /** The size encodeInstruction's dispatch gives, read off the mnemonic:
      LABEL_LOAD has no entry, and REG_IMM_OR_REG is the five names. */
  lemma EncodedSizeByName(instr: Statement)
    requires instr.Instruction?
    ensures EncodedSize(instr) == EmittedSize(instr)
  {
    NoLabelLoadEntry(instr.opcode);
    ImmOrRegEntries(instr.opcode);
  }

  /** One statement of encode's loop: labels emit nothing, and a failure
      carries the statement's line. */
  function EncodeStatement(t: SymbolTable, address: int, s: Statement): (r: Result<seq<Word>, AsmError>)
    ensures r.Success? ==> |r.value| == EmittedSize(s)
    ensures r.Failure? ==> r.error.line == Some(s.line)
    ensures s.Label? ==> r == Success([])
  {
    match s
    case Label(_, _, _) => Success([])
    case Directive(_, _, _, line, _) => EncodeDirective(t, s).MapFailure(e => AsmError(e, Some(line)))
    case Instruction(_, _, _, _, _, _, line, _) =>
      EncodedSizeByName(s);
      EncodeInstruction(t, address, s).MapFailure(e => AsmError(e, Some(line)))
  }

  lemma PrefixOfPrefix(c: seq<Word>, a: seq<Word>, b: seq<Word>)
    requires |a| + |b| <= |c| && c[..|a| + |b|] == a + b
    ensures c[..|a|] == a
  {
    assert c[..|a|] == c[..|a| + |b|][..|a|];
  }

  /** The encoder's state: the words emitted so far and currentAddress. */
  datatype EncoderState = EncoderState(code: seq<Word>, address: int)

  /** The sum of the statements' emitted sizes. */
  function TotalEmitted(prog: seq<Statement>): nat
  {
    if |prog| == 0 then 0 else EmittedSize(prog[0]) + TotalEmitted(prog[1..])
  }

  /** What encode does with one statement at an address: the words it
      emits, or the error that stops the loop. */
  type StatementEncoder = (int, Statement) -> Result<seq<Word>, AsmError>

  /** The statement encoder encode runs with a given symbol table. */
  function StatementsWith(t: SymbolTable): (step: StatementEncoder)
    ensures WellBehaved(step)
    ensures forall a: int, s: Statement :: step(a, s) == EncodeStatement(t, a, s)
  {
    (address: int, s: Statement) => EncodeStatement(t, address, s)
  }

  /** A statement encoder that emits EmittedSize(s) words for s and, when it
      fails, names the line of s. */
  ghost predicate WellBehaved(step: StatementEncoder)
  {
    forall a: int, s: Statement ::
      && (step(a, s).Success? ==> |step(a, s).value| == EmittedSize(s))
      && (step(a, s).Failure? ==> step(a, s).error.line == Some(s.line))
  }

  /** encode's loop from a given state: each statement appends its words
      and advances the address by as many; the first failure stops it. So
      the address moves exactly as far as the code grows. */
  function EncodeFrom(step: StatementEncoder, prog: seq<Statement>, st: EncoderState): (r: Result<EncoderState, AsmError>)
    ensures r.Success? ==> r.value.address - |r.value.code| == st.address - |st.code|
    decreases |prog|
  {
    if |prog| == 0 then Success(st)
    else
      var words :- step(st.address, prog[0]);
      EncodeFrom(step, prog[1..], EncoderState(st.code + words, st.address + |words|))
  }

  /** The loop emits, and advances the address by, the statements' total
      size. */
  lemma {:induction false} EncodeFromSize(step: StatementEncoder, prog: seq<Statement>, st: EncoderState)
    requires WellBehaved(step)
    requires EncodeFrom(step, prog, st).Success?
    ensures |EncodeFrom(step, prog, st).value.code| == |st.code| + TotalEmitted(prog)
    ensures EncodeFrom(step, prog, st).value.address == st.address + TotalEmitted(prog)
    decreases |prog|
  {
    if |prog| > 0 {
      var words := step(st.address, prog[0]).value;
      EncodeFromSize(step, prog[1..], EncoderState(st.code + words, st.address + |words|));
    }
  }

  /** The loop only appends: the words emitted before it starts stay in
      front. */
  lemma {:induction false} EncodeFromKeeps(step: StatementEncoder, prog: seq<Statement>, st: EncoderState)
    requires EncodeFrom(step, prog, st).Success?
    ensures |EncodeFrom(step, prog, st).value.code| >= |st.code|
    ensures EncodeFrom(step, prog, st).value.code[..|st.code|] == st.code
    decreases |prog|
  {
    if |prog| > 0 {
      var words := step(st.address, prog[0]).value;
      var next := EncoderState(st.code + words, st.address + |words|);
      EncodeFromKeeps(step, prog[1..], next);
      PrefixOfPrefix(EncodeFrom(step, prog, st).value.code, st.code, words);
    }
  }

  /** A failure of the loop names the line of one of its statements. */
  lemma {:induction false} EncodeFromFailureLine(step: StatementEncoder, prog: seq<Statement>, st: EncoderState)
    requires WellBehaved(step)
    ensures EncodeFrom(step, prog, st).Failure? ==>
      exists i :: 0 <= i < |prog| && EncodeFrom(step, prog, st).error.line == Some(prog[i].line)
    decreases |prog|
  {
    if |prog| > 0 {
      var first := step(st.address, prog[0]);
      if first.Success? {
        var next := EncoderState(st.code + first.value, st.address + |first.value|);
        var r := EncodeFrom(step, prog[1..], next);
        EncodeFromFailureLine(step, prog[1..], next);
        if r.Failure? {
          var i :| 0 <= i < |prog[1..]| && r.error.line == Some(prog[1..][i].line);
          assert prog[1..][i] == prog[i + 1];
        }
      }
    }
  }

  /** encode: from an empty output at address 0. The address counter ends
      equal to the number of words emitted, and a failure names the line
      of one of the statements. */
  function Encode(t: SymbolTable, prog: seq<Statement>): (r: Result<EncoderState, AsmError>)
    ensures r.Success? ==> r.value.address == |r.value.code| == TotalEmitted(prog)
    ensures r.Failure? ==> exists i :: 0 <= i < |prog| && r.error.line == Some(prog[i].line)
  {
    var step := StatementsWith(t);
    var r := EncodeFrom(step, prog, EncoderState([], 0));
    EncodeFromFailureLine(step, prog, EncoderState([], 0));
    if r.Success? then
      EncodeFromSize(step, prog, EncoderState([], 0));
      r
    else r
  }
}
