/** The qCore instruction-set tables (InstructionDef.h): instruction formats
    and definitions, registers and directives, looked up by name, and the
    operand-syntax hints used in error messages.

    The instruction table is written as the concatenation of the source's
    commented groups; facts about the table are proved group by group. */
module Isa {
  import opened Wrappers

  /** How an instruction's operands are parsed and packed. */
  datatype InstrFormat =
    | RegReg        // op rX, rY
    | RegImm        // op rX, #imm
    | RegImmOrReg   // op rX, rY | #imm | =label
    | Branch        // b<cond> label
    | RegOnly       // push/pop rX
    | RegMem        // ld/st rX, [rY]
    | Shift         // lsl/lsr/asr/ror rX, rY | #imm
    | LabelLoad     // mv rX, =label

  /** One row of the instruction table. extraData is the branch condition,
      the shift kind, or the implicit register of push/pop. */
  datatype InstructionDef = InstructionDef(
    mnemonic: string,
    format: InstrFormat,
    opcodeReg: int,
    opcodeImm: int,
    immBits: int,
    extraData: int,
    baseSize: int,
    canExpand: bool)

  // ---------------------------------------------------------------------
  // The instruction table
  // ---------------------------------------------------------------------

  const DataMovement: seq<InstructionDef> := [
    InstructionDef("mv",   RegImmOrReg, 0x0000, 0x1000, 9, 0, 1, true),
    InstructionDef("mvt",  RegImm,      0x3000, 0x3000, 8, 0, 1, false)
  ]

  const Alu: seq<InstructionDef> := [
    InstructionDef("add",  RegImmOrReg, 0x4000, 0x5000, 9, 0, 1, true),
    InstructionDef("sub",  RegImmOrReg, 0x6000, 0x7000, 9, 0, 1, true),
    InstructionDef("and",  RegImmOrReg, 0xC000, 0xD000, 9, 0, 1, true),
    InstructionDef("xor",  RegReg,      0xE110, 0xE110, 0, 0, 1, false)
  ]

  const Compare: seq<InstructionDef> := [
    InstructionDef("cmp",  RegImmOrReg, 0xE000, 0xF000, 9, 0, 1, false)
  ]

  const Memory: seq<InstructionDef> := [
    InstructionDef("ld",   RegMem,      0x8000, 0x8000, 0, 0, 1, false),
    InstructionDef("st",   RegMem,      0xA000, 0xA000, 0, 0, 1, false),
    InstructionDef("push", RegOnly,     0xB000, 0xB000, 0, 5, 1, false),
    InstructionDef("pop",  RegOnly,     0x9000, 0x9000, 0, 5, 1, false)
  ]

  /** extraData is the shift kind: 0 LSL, 1 LSR, 2 ASR, 3 ROR. */
  const Shifts: seq<InstructionDef> := [
    InstructionDef("lsl",  Shift,       0xE000, 0xE000, 4, 0, 1, false),
    InstructionDef("lsr",  Shift,       0xE000, 0xE000, 4, 1, 1, false),
    InstructionDef("asr",  Shift,       0xE000, 0xE000, 4, 2, 1, false),
    InstructionDef("ror",  Shift,       0xE000, 0xE000, 4, 3, 1, false)
  ]

  /** extraData is the condition code. */
  const Branches: seq<InstructionDef> := [
    InstructionDef("b",    Branch,      0x2000, 0x2000, 9, 0, 1, false),
    InstructionDef("beq",  Branch,      0x2000, 0x2000, 9, 1, 1, false),
    InstructionDef("bne",  Branch,      0x2000, 0x2000, 9, 2, 1, false),
    InstructionDef("bcc",  Branch,      0x2000, 0x2000, 9, 3, 1, false),
    InstructionDef("bcs",  Branch,      0x2000, 0x2000, 9, 4, 1, false),
    InstructionDef("bpl",  Branch,      0x2000, 0x2000, 9, 5, 1, false),
    InstructionDef("bmi",  Branch,      0x2000, 0x2000, 9, 6, 1, false),
    InstructionDef("bl",   Branch,      0x2000, 0x2000, 9, 7, 1, false)
  ]

  const InstructionTable: seq<InstructionDef> :=
    DataMovement + Alu + Compare + Memory + Shifts + Branches

  // ---------------------------------------------------------------------
  // Keyed lookup
  // ---------------------------------------------------------------------

  /** The entry a name-keyed map built from t in order holds for k: the
      last entry whose key is k, since later insertions overwrite. */
  function LastWithKey<T>(t: seq<T>, key: T -> string, k: string): (r: Option<T>)
    ensures r.Some? ==> r.value in t && key(r.value) == k
    ensures r.None? <==> forall x :: x in t ==> key(x) != k
  {
    if |t| == 0 then None
    else if key(t[|t| - 1]) == k then Some(t[|t| - 1])
    else
      assert forall x :: x in t ==> x in t[..|t| - 1] || x == t[|t| - 1];
      LastWithKey(t[..|t| - 1], key, k)
  }

  /** No two entries share a key. */
  predicate KeysDistinct<T>(t: seq<T>, key: T -> string)
  {
    forall i, j :: 0 <= i < j < |t| ==> key(t[i]) != key(t[j])
  }

  /** No key of a is a key of b. */
  predicate KeysDisjoint<T(==)>(a: seq<T>, b: seq<T>, key: T -> string)
  {
    forall x, y :: x in a && y in b ==> key(x) != key(y)
  }

  lemma DistinctConcat<T>(a: seq<T>, b: seq<T>, key: T -> string)
    requires KeysDistinct(a, key) && KeysDistinct(b, key) && KeysDisjoint(a, b, key)
    ensures KeysDistinct(a + b, key)
  {
    var c := a + b;
    forall i, j | 0 <= i < j < |c| ensures key(c[i]) != key(c[j]) {
      if j < |a| {
        assert c[i] == a[i] && c[j] == a[j];
      } else if i >= |a| {
        assert c[i] == b[i - |a|] && c[j] == b[j - |a|];
      } else {
        assert c[i] in a && c[j] in b;
      }
    }
  }

  lemma DisjointConcat<T>(a: seq<T>, b: seq<T>, c: seq<T>, key: T -> string)
    requires KeysDisjoint(a, c, key) && KeysDisjoint(b, c, key)
    ensures KeysDisjoint(a + b, c, key)
  {
  }

  /** With distinct keys, the lookup finds exactly the entry with that key. */
  lemma {:induction false} LookupDistinct<T>(t: seq<T>, key: T -> string, i: int)
    requires KeysDistinct(t, key) && 0 <= i < |t|
    ensures LastWithKey(t, key, key(t[i])) == Some(t[i])
  {
    var r := LastWithKey(t, key, key(t[i]));
    assert t[i] in t;
    var j :| 0 <= j < |t| && t[j] == r.value;
    if i < j {
      assert false;
    } else if j < i {
      assert false;
    }
  }

  // ---------------------------------------------------------------------
  // Instruction lookup
  // ---------------------------------------------------------------------

  function Mnemonic(d: InstructionDef): string { d.mnemonic }

  lemma DataMovementDistinct() ensures KeysDistinct(DataMovement, Mnemonic) {}
  lemma AluDistinct() ensures KeysDistinct(Alu, Mnemonic) {}
  lemma MemoryDistinct() ensures KeysDistinct(Memory, Mnemonic) {}
  lemma ShiftsDistinct() ensures KeysDistinct(Shifts, Mnemonic) {}
  lemma BranchesDistinct() ensures KeysDistinct(Branches, Mnemonic) {}
  lemma DataMovementAluDisjoint() ensures KeysDisjoint(DataMovement, Alu, Mnemonic) {}
  lemma DataMovementCompareDisjoint() ensures KeysDisjoint(DataMovement, Compare, Mnemonic) {}
  lemma AluCompareDisjoint() ensures KeysDisjoint(Alu, Compare, Mnemonic) {}
  lemma DataMovementMemoryDisjoint() ensures KeysDisjoint(DataMovement, Memory, Mnemonic) {}
  lemma AluMemoryDisjoint() ensures KeysDisjoint(Alu, Memory, Mnemonic) {}
  lemma CompareMemoryDisjoint() ensures KeysDisjoint(Compare, Memory, Mnemonic) {}
  lemma DataMovementShiftsDisjoint() ensures KeysDisjoint(DataMovement, Shifts, Mnemonic) {}
  lemma AluShiftsDisjoint() ensures KeysDisjoint(Alu, Shifts, Mnemonic) {}
  lemma CompareShiftsDisjoint() ensures KeysDisjoint(Compare, Shifts, Mnemonic) {}
  lemma MemoryShiftsDisjoint() ensures KeysDisjoint(Memory, Shifts, Mnemonic) {}

  /** Branch mnemonics are the only ones starting with `b`. */
  predicate StartsWithB(d: InstructionDef)
  {
    |d.mnemonic| > 0 && d.mnemonic[0] == 'b'
  }

  lemma DisjointFromBranches(a: seq<InstructionDef>)
    requires forall x :: x in a ==> !StartsWithB(x)
    ensures KeysDisjoint(a, Branches, Mnemonic)
  {
    assert forall y :: y in Branches ==> StartsWithB(y);
  }

  lemma BranchesDisjoint()
    ensures KeysDisjoint(DataMovement + Alu + Compare + Memory + Shifts, Branches, Mnemonic)
  {
    assert forall x :: x in DataMovement ==> !StartsWithB(x);
    assert forall x :: x in Alu ==> !StartsWithB(x);
    assert forall x :: x in Compare ==> !StartsWithB(x);
    assert forall x :: x in Memory ==> !StartsWithB(x);
    assert forall x :: x in Shifts ==> !StartsWithB(x);
    DisjointFromBranches(DataMovement + Alu + Compare + Memory + Shifts);
  }

  /** All mnemonics in the instruction table are distinct. */
  lemma MnemonicsDistinct()
    ensures KeysDistinct(InstructionTable, Mnemonic)
  {
    DataMovementDistinct(); AluDistinct(); MemoryDistinct(); ShiftsDistinct(); BranchesDistinct();
    assert KeysDistinct(Compare, Mnemonic);
    DataMovementAluDisjoint();
    DistinctConcat(DataMovement, Alu, Mnemonic);
    DataMovementCompareDisjoint(); AluCompareDisjoint();
    DisjointConcat(DataMovement, Alu, Compare, Mnemonic);
    DistinctConcat(DataMovement + Alu, Compare, Mnemonic);
    DataMovementMemoryDisjoint(); AluMemoryDisjoint(); CompareMemoryDisjoint();
    DisjointConcat(DataMovement, Alu, Memory, Mnemonic);
    DisjointConcat(DataMovement + Alu, Compare, Memory, Mnemonic);
    DistinctConcat(DataMovement + Alu + Compare, Memory, Mnemonic);
    DataMovementShiftsDisjoint(); AluShiftsDisjoint(); CompareShiftsDisjoint(); MemoryShiftsDisjoint();
    DisjointConcat(DataMovement, Alu, Shifts, Mnemonic);
    DisjointConcat(DataMovement + Alu, Compare, Shifts, Mnemonic);
    DisjointConcat(DataMovement + Alu + Compare, Memory, Shifts, Mnemonic);
    DistinctConcat(DataMovement + Alu + Compare + Memory, Shifts, Mnemonic);
    BranchesDisjoint();
    DistinctConcat(DataMovement + Alu + Compare + Memory + Shifts, Branches, Mnemonic);
  }

  /** The 23 mnemonics of the table, in table order. */
  const AllMnemonics: seq<string> := [
    "mv", "mvt", "add", "sub", "and", "xor", "cmp", "ld", "st", "push", "pop",
    "lsl", "lsr", "asr", "ror", "b", "beq", "bne", "bcc", "bcs", "bpl", "bmi", "bl"]

  /** isValidInstruction: the mnemonic is a key of the instruction map. */
  predicate IsValidInstruction(m: string)
  {
    exists d :: d in InstructionTable && d.mnemonic == m
  }

  /** The valid mnemonics are exactly the 23 of the table. */
  lemma ValidInstructionNames(m: string)
    ensures IsValidInstruction(m) <==> m in AllMnemonics
  {
    MnemonicsInOrder();
  }

  /** The table's mnemonics, row by row, are AllMnemonics. */
  lemma MnemonicsInOrder()
    ensures |InstructionTable| == |AllMnemonics|
    ensures forall i :: 0 <= i < |InstructionTable| ==> InstructionTable[i].mnemonic == AllMnemonics[i]
    ensures forall m :: (exists d :: d in InstructionTable && d.mnemonic == m) <==> m in AllMnemonics
  {
    assert forall i :: 0 <= i < |InstructionTable| ==> InstructionTable[i].mnemonic == AllMnemonics[i];
    forall m | m in AllMnemonics ensures exists d :: d in InstructionTable && d.mnemonic == m {
      var i :| 0 <= i < |AllMnemonics| && AllMnemonics[i] == m;
      assert InstructionTable[i] in InstructionTable;
    }
  }

  /** Branch mnemonics by condition code, shift mnemonics by kind. */
  const BranchMnemonics: seq<string> := ["b", "beq", "bne", "bcc", "bcs", "bpl", "bmi", "bl"]
  const ShiftMnemonics: seq<string> := ["lsl", "lsr", "asr", "ror"]

  /** Properties every table entry has: the immediate of every format that
      packs one fits below the rX field (at most 9 bits); only REG_IMM_OR_REG
      mnemonics expand, and they are exactly mv, add, sub and and; the
      opcodes leave the register and immediate fields clear; no entry has
      the LABEL_LOAD format; branches share opcode 0x2000 and a 9-bit
      offset, and the 3-bit condition code selects the mnemonic; shifts share
      opcode 0xE000, and the 2-bit kind selects the mnemonic; push and pop name register 5 (sp) implicitly. */
  predicate WellFormed(d: InstructionDef)
  {
    && (d.format == RegImm || d.format == RegImmOrReg || d.format == Branch ==> 1 <= d.immBits <= 9)
    && (d.canExpand ==> d.format == RegImmOrReg)
    && 0 <= d.opcodeReg < 0x1_0000 && d.opcodeReg % 8 == 0 && (d.opcodeReg / 0x200) % 8 == 0
    && (d.format == RegImm || d.format == RegImmOrReg ==> 0 <= d.opcodeImm < 0x1_0000 && d.opcodeImm % 0x1000 == 0)
    && 0 <= d.extraData
    && (d.format == Branch ==> d.opcodeReg == 0x2000 && d.immBits == 9 && d.extraData < 8
                               && d.mnemonic == BranchMnemonics[d.extraData])
    && (d.format == Shift ==> d.opcodeReg == 0xE000 && d.extraData < 4
                              && d.mnemonic == ShiftMnemonics[d.extraData])
    && (d.format == RegOnly ==> d.extraData == 5)
    && (d.canExpand <==> d.mnemonic == "mv" || d.mnemonic == "add" || d.mnemonic == "sub" || d.mnemonic == "and")
  }

  lemma DataMovementWellFormed() ensures forall d :: d in DataMovement ==> WellFormed(d) {}
  lemma AluWellFormed() ensures forall d :: d in Alu ==> WellFormed(d) {}
  lemma CompareWellFormed() ensures forall d :: d in Compare ==> WellFormed(d) {}
  lemma MemoryWellFormed() ensures forall d :: d in Memory ==> WellFormed(d) {}
  lemma ShiftsWellFormed() ensures forall d :: d in Shifts ==> WellFormed(d) {}
  lemma BranchesWellFormed() ensures forall d :: d in Branches ==> WellFormed(d) {}

  lemma TableWellFormed()
    ensures forall d :: d in InstructionTable ==> WellFormed(d)
  {
    DataMovementWellFormed(); AluWellFormed(); CompareWellFormed();
    MemoryWellFormed(); ShiftsWellFormed(); BranchesWellFormed();
  }

  /** getInstructionDef: the table entry for the mnemonic, None (the null
      pointer) for an unknown one. */
  function GetInstructionDef(m: string): (r: Option<InstructionDef>)
    ensures r.None? <==> !IsValidInstruction(m)
    ensures r.Some? ==> r.value in InstructionTable && r.value.mnemonic == m && WellFormed(r.value)
  {
    TableWellFormed();
    LastWithKey(InstructionTable, Mnemonic, m)
  }

  /** Every table entry is found under its own mnemonic. */
  lemma LookupEntry(i: int)
    requires 0 <= i < |InstructionTable|
    ensures GetInstructionDef(InstructionTable[i].mnemonic) == Some(InstructionTable[i])
  {
    MnemonicsDistinct();
    LookupDistinct(InstructionTable, Mnemonic, i);
  }

  /** The entry at index i is found under the name m that spells its
      mnemonic. */
  lemma LookupNamed(m: string, i: int)
    requires 0 <= i < |InstructionTable| && InstructionTable[i].mnemonic == m
    ensures GetInstructionDef(m) == Some(InstructionTable[i])
  {
    LookupEntry(i);
  }

  /** Entries the encoder and the examples rely on, found by name. */
  lemma LookupMv(m: string) requires m == "mv" ensures GetInstructionDef(m) == Some(DataMovement[0]) { LookupNamed(m, 0); }
  lemma LookupAdd(m: string) requires m == "add" ensures GetInstructionDef(m) == Some(Alu[0]) { LookupNamed(m, 2); }
  lemma LookupSub(m: string) requires m == "sub" ensures GetInstructionDef(m) == Some(Alu[1]) { LookupNamed(m, 3); }
  lemma LookupAnd(m: string) requires m == "and" ensures GetInstructionDef(m) == Some(Alu[2]) { LookupNamed(m, 4); }
  lemma LookupCmp(m: string) requires m == "cmp" ensures GetInstructionDef(m) == Some(Compare[0]) { LookupNamed(m, 6); }
  lemma LookupMvt(m: string) requires m == "mvt" ensures GetInstructionDef(m) == Some(DataMovement[1]) { LookupNamed(m, 1); }
  lemma LookupB(m: string) requires m == "b" ensures GetInstructionDef(m) == Some(Branches[0]) { LookupNamed(m, 15); }

  /** Each branch mnemonic finds its own entry of the branch group. */
  lemma LookupBranch(k: int)
    requires 0 <= k < 8
    ensures GetInstructionDef(BranchMnemonics[k]) == Some(Branches[k])
  {
    assert InstructionTable[15 + k] == Branches[k];
    assert Branches[k].mnemonic == BranchMnemonics[k];
    LookupEntry(15 + k);
  }

  /** No table entry has the LABEL_LOAD format. */
  lemma NoLabelLoadEntry(m: string)
    ensures GetInstructionDef(m).Some? ==> GetInstructionDef(m).value.format != LabelLoad
  {
    DataMovementNoLabelLoad(); AluNoLabelLoad(); CompareNoLabelLoad();
    MemoryNoLabelLoad(); ShiftsNoLabelLoad(); BranchesNoLabelLoad();
  }

  lemma DataMovementNoLabelLoad() ensures forall d :: d in DataMovement ==> d.format != LabelLoad {}
  lemma AluNoLabelLoad() ensures forall d :: d in Alu ==> d.format != LabelLoad {}
  lemma CompareNoLabelLoad() ensures forall d :: d in Compare ==> d.format != LabelLoad {}
  lemma MemoryNoLabelLoad() ensures forall d :: d in Memory ==> d.format != LabelLoad {}
  lemma ShiftsNoLabelLoad() ensures forall d :: d in Shifts ==> d.format != LabelLoad {}
  lemma BranchesNoLabelLoad() ensures forall d :: d in Branches ==> d.format != LabelLoad {}

  /** Exactly mv, add, sub and and may expand into two words; cmp accepts
      the same operand forms but never expands. */
  lemma ExpandableMnemonics(m: string)
    ensures (GetInstructionDef(m).Some? && GetInstructionDef(m).value.canExpand)
            <==> ExpandableName(m)
  {
    if m == "mv" { LookupMv(m); }
    else if m == "add" { LookupAdd(m); }
    else if m == "sub" { LookupSub(m); }
    else if m == "and" { LookupAnd(m); }
  }

  lemma CmpDoesNotExpand(m: string)
    requires m == "cmp"
    ensures GetInstructionDef(m).Some?
    ensures GetInstructionDef(m).value.format == RegImmOrReg
    ensures !GetInstructionDef(m).value.canExpand
  {
    LookupCmp(m);
  }

  /** The mnemonics that may expand an `=` operand into two words. */
  predicate ExpandableName(m: string)
  {
    m == "mv" || m == "add" || m == "sub" || m == "and"
  }

  /** The mnemonics whose second operand may be a register, a `#`
      immediate or an `=` value. */
  predicate ImmOrRegName(m: string)
  {
    ExpandableName(m) || m == "cmp"
  }

  /** The REG_IMM_OR_REG entries are exactly mv, add, sub, and and cmp. */
  lemma ImmOrRegEntries(m: string)
    ensures (GetInstructionDef(m).Some? && GetInstructionDef(m).value.format == RegImmOrReg)
            <==> ImmOrRegName(m)
  {
    if ImmOrRegName(m) {
      ImmOrRegKnown(m);
    } else {
      ImmOrRegOnly(m);
    }
  }

  lemma ImmOrRegKnown(m: string)
    requires ImmOrRegName(m)
    ensures GetInstructionDef(m).Some? && GetInstructionDef(m).value.format == RegImmOrReg
  {
    if m == "cmp" { CmpDoesNotExpand(m); } else { ExpandableIsImmOrReg(m); }
  }
  /** Every expandable mnemonic is REG_IMM_OR_REG. */
  lemma ExpandableIsImmOrReg(m: string)
    requires ExpandableName(m)
    ensures GetInstructionDef(m).Some? && GetInstructionDef(m).value.format == RegImmOrReg
  {
    ExpandableMnemonics(m);
  }

  lemma ImmOrRegOnly(m: string)
    requires !ImmOrRegName(m)
    ensures !(GetInstructionDef(m).Some? && GetInstructionDef(m).value.format == RegImmOrReg)
  {
    DataMovementImmOrReg(); AluImmOrReg(); CompareImmOrReg(); MemoryImmOrReg(); ShiftsImmOrReg(); BranchesImmOrReg();
  }

  lemma DataMovementImmOrReg() ensures forall d :: d in DataMovement && d.format == RegImmOrReg ==> ImmOrRegName(d.mnemonic) {}
  lemma AluImmOrReg() ensures forall d :: d in Alu && d.format == RegImmOrReg ==> ImmOrRegName(d.mnemonic) {}
  lemma CompareImmOrReg() ensures forall d :: d in Compare && d.format == RegImmOrReg ==> ImmOrRegName(d.mnemonic) {}
  lemma MemoryImmOrReg() ensures forall d :: d in Memory && d.format == RegImmOrReg ==> ImmOrRegName(d.mnemonic) {}
  lemma ShiftsImmOrReg() ensures forall d :: d in Shifts && d.format == RegImmOrReg ==> ImmOrRegName(d.mnemonic) {}
  lemma BranchesImmOrReg() ensures forall d :: d in Branches && d.format == RegImmOrReg ==> ImmOrRegName(d.mnemonic) {}

  /** cmp is the one REG_IMM_OR_REG mnemonic that does not expand. */
  lemma OnlyCmpFixed(m: string)
    ensures (&& GetInstructionDef(m).Some? && GetInstructionDef(m).value.format == RegImmOrReg
             && !GetInstructionDef(m).value.canExpand)
            <==> m == "cmp"
  {
    if m == "cmp" {
      LookupCmp(m);
    } else {
      DataMovementFixed(); AluFixed(); CompareFixed(); MemoryFixed(); ShiftsFixed(); BranchesFixed();
    }
  }

  predicate FixedWidth(d: InstructionDef) { d.format == RegImmOrReg && !d.canExpand }

  lemma DataMovementFixed() ensures forall d :: d in DataMovement && FixedWidth(d) ==> d.mnemonic == "cmp" {}
  lemma AluFixed() ensures forall d :: d in Alu && FixedWidth(d) ==> d.mnemonic == "cmp" {}
  lemma CompareFixed() ensures forall d :: d in Compare && FixedWidth(d) ==> d.mnemonic == "cmp" {}
  lemma MemoryFixed() ensures forall d :: d in Memory && FixedWidth(d) ==> d.mnemonic == "cmp" {}
  lemma ShiftsFixed() ensures forall d :: d in Shifts && FixedWidth(d) ==> d.mnemonic == "cmp" {}
  lemma BranchesFixed() ensures forall d :: d in Branches && FixedWidth(d) ==> d.mnemonic == "cmp" {}

  /** A branch's condition code identifies it: two branch mnemonics with
      the same code are the same entry. */
  lemma {:induction false} BranchConditionsDistinct(d: InstructionDef, e: InstructionDef)
    requires d in InstructionTable && e in InstructionTable
    requires d.format == Branch && e.format == Branch
    ensures d.extraData == e.extraData <==> d == e
  {
    TableWellFormed();
    MnemonicsDistinct();
    var i :| 0 <= i < |InstructionTable| && InstructionTable[i] == d;
    var j :| 0 <= j < |InstructionTable| && InstructionTable[j] == e;
    if d.extraData == e.extraData && i != j {
      assert false;
    }
  }

  /** A shift's kind identifies it. */
  lemma {:induction false} ShiftKindsDistinct(d: InstructionDef, e: InstructionDef)
    requires d in InstructionTable && e in InstructionTable
    requires d.format == Shift && e.format == Shift
    ensures d.extraData == e.extraData <==> d == e
  {
    TableWellFormed();
    MnemonicsDistinct();
    var i :| 0 <= i < |InstructionTable| && InstructionTable[i] == d;
    var j :| 0 <= j < |InstructionTable| && InstructionTable[j] == e;
    if d.extraData == e.extraData && i != j {
      assert false;
    }
  }

  // ---------------------------------------------------------------------
  // Registers
  // ---------------------------------------------------------------------

  datatype RegisterDef = RegisterDef(name: string, number: nat)

  const GeneralRegisters: seq<RegisterDef> := [
    RegisterDef("r0", 0), RegisterDef("r1", 1), RegisterDef("r2", 2), RegisterDef("r3", 3),
    RegisterDef("r4", 4), RegisterDef("r5", 5), RegisterDef("r6", 6), RegisterDef("r7", 7)
  ]

  /** Stack pointer, link register and program counter. */
  const RegisterAliases: seq<RegisterDef> := [
    RegisterDef("sp", 5), RegisterDef("lr", 6), RegisterDef("pc", 7)
  ]

  const RegisterTable: seq<RegisterDef> := GeneralRegisters + RegisterAliases

  function RegName(r: RegisterDef): string { r.name }

  /** isValidRegister: the name is a key of the register map. */
  predicate IsValidRegister(name: string)
  {
    exists r :: r in RegisterTable && r.name == name
  }

  /** The valid register names are exactly r0..r7, sp, lr and pc. */
  lemma ValidRegisterNames(name: string)
    ensures IsValidRegister(name) <==> name in ["r0", "r1", "r2", "r3", "r4", "r5", "r6", "r7", "sp", "lr", "pc"]
  {
    RegisterNamesInOrder();
  }

  lemma RegisterNamesInOrder()
    ensures forall name ::
      (exists r :: r in RegisterTable && r.name == name)
      <==> name in ["r0", "r1", "r2", "r3", "r4", "r5", "r6", "r7", "sp", "lr", "pc"]
  {
    var names := ["r0", "r1", "r2", "r3", "r4", "r5", "r6", "r7", "sp", "lr", "pc"];
    assert forall i :: 0 <= i < |RegisterTable| ==> RegisterTable[i].name == names[i];
    forall name | name in names ensures exists r :: r in RegisterTable && r.name == name {
      var i :| 0 <= i < |names| && names[i] == name;
      assert RegisterTable[i] in RegisterTable;
    }
  }

  lemma GeneralRegistersDistinct() ensures KeysDistinct(GeneralRegisters, RegName) {}
  lemma RegisterAliasesDistinct() ensures KeysDistinct(RegisterAliases, RegName) {}

  lemma GeneralAliasesDisjoint()
    ensures KeysDisjoint(GeneralRegisters, RegisterAliases, RegName)
  {
    forall x, y | x in GeneralRegisters && y in RegisterAliases
      ensures RegName(x) != RegName(y)
    {
      assert x.name[0] == 'r';
      assert y.name[0] != 'r';
    }
  }

  lemma RegisterNamesDistinct()
    ensures KeysDistinct(RegisterTable, RegName)
  {
    GeneralRegistersDistinct(); RegisterAliasesDistinct(); GeneralAliasesDisjoint();
    DistinctConcat(GeneralRegisters, RegisterAliases, RegName);
  }

  /** The register map: the number of a register name, None for any name
      that is not a register. Every number fits the 3-bit register field. */
  function RegisterNumber(name: string): (r: Option<nat>)
    ensures r.None? <==> !IsValidRegister(name)
    ensures r.Some? ==> r.value < 8
  {
    assert forall x :: x in RegisterTable ==> x.number < 8;
    match LastWithKey(RegisterTable, RegName, name)
    case Some(d) => Some(d.number)
    case None => None
  }

  /** `r0`..`r7` name registers 0..7. */
  lemma GeneralRegisterNumber(k: int)
    requires 0 <= k < 8
    ensures GeneralRegisters[k].name == ['r', "01234567"[k]]
    ensures RegisterNumber(['r', "01234567"[k]]) == Some(k)
  {
    GeneralRegisterEntry(k);
    RegisterNamesDistinct();
    LookupDistinct(RegisterTable, RegName, k);
  }

  lemma GeneralRegisterEntry(k: int)
    requires 0 <= k < 8
    ensures RegisterTable[k] == GeneralRegisters[k] == RegisterDef(['r', "01234567"[k]], k)
  {
  }

  /** `sp`, `lr` and `pc` alias registers 5, 6 and 7. */
  lemma RegisterAliasNumbers()
    ensures RegisterNumber("sp") == Some(5)
    ensures RegisterNumber("lr") == Some(6)
    ensures RegisterNumber("pc") == Some(7)
  {
    RegisterNamesDistinct();
    LookupDistinct(RegisterTable, RegName, 8);
    LookupDistinct(RegisterTable, RegName, 9);
    LookupDistinct(RegisterTable, RegName, 10);
  }

  /** No other name is a register. */
  lemma OnlyRegisterNames(name: string)
    ensures RegisterNumber(name).Some? ==>
      name in ["r0", "r1", "r2", "r3", "r4", "r5", "r6", "r7", "sp", "lr", "pc"]
  {
  }

  // ---------------------------------------------------------------------
  // Directives
  // ---------------------------------------------------------------------

  datatype DirectiveDef = DirectiveDef(name: string)

  const DirectiveTable: seq<DirectiveDef> := [DirectiveDef(".word"), DirectiveDef(".define")]

  function DirectiveName(d: DirectiveDef): string { d.name }

  /** isValidDirective: only `.word` and `.define` are in the directive
      table, although the first pass also acts on `.org`, `.space`,
      `.ascii` and `.asciiz`. */
  predicate IsValidDirective(name: string): (b: bool)
    ensures b <==> name == ".word" || name == ".define"
  {
    LastWithKey(DirectiveTable, DirectiveName, name).Some?
  }

  // ---------------------------------------------------------------------
  // Operand-syntax hints
  // ---------------------------------------------------------------------

  /** getFormatString: the operand syntax a format expects. Every format
      but BRANCH starts with the rX register, which encodeInstruction reads
      first. */
  function FormatString(f: InstrFormat): (r: string)
    ensures |r| >= 2
    ensures (r[0] == 'r' && r[1] == 'X') <==> f != Branch
  {
    match f
    case RegReg => "rX, rY"
    case RegImm => "rX, #imm"
    case RegImmOrReg => "rX, rY | rX, #imm | rX, =label"
    case Branch => "label"
    case RegOnly => "rX"
    case RegMem => "rX, [rY]"
    case Shift => "rX, rY | rX, #imm"
    case LabelLoad => "rX, =label"
  }

  const HintPrefix: string := "Expected format: "

  /** getFormatHint: empty without a definition, otherwise the prefix, the
      mnemonic, a space and the format's operand syntax. */
  function FormatHint(def: Option<InstructionDef>): (r: string)
    ensures r == "" <==> def.None?
    ensures def.Some? ==> |r| > |HintPrefix| + |def.value.mnemonic| && r[..|HintPrefix|] == HintPrefix
  {
    match def
    case None => ""
    case Some(d) => HintPrefix + d.mnemonic + " " + FormatString(d.format)
  }

  /** Distinct formats have distinct operand syntax. */
  lemma FormatStringInjective(f: InstrFormat, g: InstrFormat)
    ensures FormatString(f) == FormatString(g) ==> f == g
  {
    if f != g {
      var a, b := FormatString(f), FormatString(g);
      assert |a| != |b| || a[4] != b[4] || a[0] != b[0] || a[5] != b[5];
    }
  }

  lemma ConcatSlices(a: string, b: string, c: string)
    ensures (a + b + c)[..|a|] == a
    ensures (a + b + c)[|a|..|a| + |b|] == b
    ensures (a + b + c)[|a| + |b|..] == c
  {
    assert a + b + c == a + (b + c);
  }

  /** A hint is empty exactly when the definition is missing; otherwise the
      mnemonic can be read back from it and the rest names the format. */
  lemma FormatHintContents(def: Option<InstructionDef>)
    ensures FormatHint(def) == "" <==> def.None?
    ensures def.Some? ==>
      var h, m := FormatHint(def), def.value.mnemonic;
      && h[..|HintPrefix|] == HintPrefix
      && h[|HintPrefix|..|HintPrefix| + |m|] == m
      && h[|HintPrefix| + |m|..] == " " + FormatString(def.value.format)
  {
    if def.Some? {
      ConcatSlices(HintPrefix, def.value.mnemonic, " " + FormatString(def.value.format));
    }
  }
}
