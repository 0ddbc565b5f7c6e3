/** The two passes together, as main runs them: pass 1 builds the symbol
    table and the is-data list, then the encoder runs over the same
    statements with that table. The two passes size statements
    independently. Their address counters agree when the program uses only
    `.word` and `.define` directives and uses `=` only with a mnemonic that
    may expand. */
module Assembler {
  import opened Wrappers
  import opened Ast
  import opened Isa
  import opened Errors
  import opened Symbols
  import opened Encoder
  import opened FirstPass

  /** What main hands to the output writer: the machine code, the is-data
      list and the symbol table. */
  datatype Assembled = Assembled(code: seq<Word>, isData: seq<bool>, symbols: SymbolTable)

  /** A statement both passes size alike: no directive other than `.word`
      and `.define`, and an `=` operand only on mv, add, sub or and. */
  predicate Consistent(s: Statement)
  {
    && (s.Directive? ==> s.name == ".word" || s.name == ".define")
    && (s.Instruction? && s.isLabelImmediate ==> ExpandableName(s.opcode))
  }

  predicate AllConsistent(prog: seq<Statement>)
  {
    forall i :: 0 <= i < |prog| ==> Consistent(prog[i])
  }

  lemma ConsistentTail(prog: seq<Statement>)
    requires |prog| > 0 && AllConsistent(prog)
    ensures Consistent(prog[0]) && AllConsistent(prog[1..])
  {
    assert Consistent(prog[0]);
    forall i | 0 <= i < |prog[1..]| ensures Consistent(prog[1..][i]) {
      assert prog[1..][i] == prog[i + 1];
    }
  }

  lemma ConsistentPrefix(prog: seq<Statement>, i: nat)
    requires i <= |prog| && AllConsistent(prog)
    ensures AllConsistent(prog[..i])
  {
    forall k | 0 <= k < i ensures Consistent(prog[..i][k]) {
      assert prog[..i][k] == prog[k];
    }
  }

  /** main: pass 1, then the encoder with pass 1's symbol table. */
  function Assemble(prog: seq<Statement>): (r: Result<Assembled, AsmError>)
    ensures FirstPassOf(prog).Failure? ==> r == Failure(FirstPassOf(prog).error)
    ensures FirstPassOf(prog).Success? ==>
      var e := Encode(FirstPassOf(prog).value.symbols, prog);
      && (e.Failure? ==> r == Failure(e.error))
      && (e.Success? ==>
            && r.Success? && r.value.code == e.value.code
            && r.value.isData == FirstPassOf(prog).value.isData
            && r.value.symbols == FirstPassOf(prog).value.symbols)
    ensures r.Success? ==> |r.value.code| == TotalEmitted(prog)
    ensures r.Success? && AllConsistent(prog) ==> |r.value.isData| == |r.value.code|
  {
    var p1 :- FirstPassOf(prog);
    var e :- Encode(p1.symbols, prog);
    if AllConsistent(prog) then
      PassesAgree(p1.symbols, prog);
      DataTracksAddress(prog);
      Success(Assembled(e.code, p1.isData, p1.symbols))
    else
      Success(Assembled(e.code, p1.isData, p1.symbols))
  }

  // ---------------------------------------------------------------------
  // Sizing agreement
  // ---------------------------------------------------------------------

  /** Pass 1 reserves as many words for an instruction as pass 2 emits for
      it, unless it is cmp with an `=` operand. */
  lemma SizesAgree(s: Statement)
    requires s.Instruction?
    ensures InstructionWords(s) != EmittedSize(s) <==> s.isLabelImmediate && s.opcode == "cmp"
  {
  }

  /** The example: `cmp r0, =5` gets one word in pass 1 and two in pass 2. */
  lemma CmpSizes()
    ensures var s := Instruction("cmp", "r0", "=5", true, true, false, 1, 1);
      InstructionWords(s) == 1 && EncodedSize(s) == 2
  {
    EncodedSizeByName(Instruction("cmp", "r0", "=5", true, true, false, 1, 1));
  }

  /** On a consistent statement, a pass-1 step advances the counter by the
      number of words pass 2 emits. */
  lemma StepAgrees(st: Pass1State, s: Statement)
    requires Consistent(s)
    requires Pass1Step(st, s).Success?
    ensures Pass1Step(st, s).value.address == st.address + EmittedSize(s)
  {
    if s.Instruction? {
      SizesAgree(s);
    }
  }

  lemma {:induction false} Pass1Total(prog: seq<Statement>, st: Pass1State)
    requires AllConsistent(prog)
    requires Pass1From(prog, st).Success?
    ensures Pass1From(prog, st).value.address == st.address + TotalEmitted(prog)
    decreases |prog|
  {
    if |prog| > 0 {
      ConsistentTail(prog);
      StepAgrees(st, prog[0]);
      Pass1Total(prog[1..], Pass1Step(st, prog[0]).value);
    }
  }

  /** Pass 1's final address is the number of words pass 2 emits, so the
      two counters end equal. */
  lemma PassesAgree(t: SymbolTable, prog: seq<Statement>)
    requires AllConsistent(prog)
    requires FirstPassOf(prog).Success?
    ensures FirstPassOf(prog).value.address == TotalEmitted(prog)
    ensures Encode(t, prog).Success? ==> Encode(t, prog).value.address == FirstPassOf(prog).value.address
  {
    Pass1Total(prog, Start);
  }

  /** Running the encoder over a program is running it over a prefix and
      then over the rest from the state the prefix leaves. */
  lemma {:induction false} EncodeSplit(step: StatementEncoder, prog: seq<Statement>, st: EncoderState, i: nat)
    requires i <= |prog|
    requires EncodeFrom(step, prog, st).Success?
    ensures EncodeFrom(step, prog[..i], st).Success?
    ensures EncodeFrom(step, prog[i..], EncodeFrom(step, prog[..i], st).value) == EncodeFrom(step, prog, st)
    decreases i
  {
    if i == 0 {
      assert prog[..0] == [] && prog[0..] == prog;
    } else {
      EncodeHeadSucceeds(step, prog, st);
      var words := step(st.address, prog[0]).value;
      var next := EncoderState(st.code + words, st.address + |words|);
      EncodeFromCons(step, prog, st, words);
      EncodeSplit(step, prog[1..], next, i - 1);
      EncodeFromCons(step, prog[..i], st, words);
      assert prog[..i][0] == prog[0];
      assert prog[..i][1..] == prog[1..][..i - 1];
      assert prog[1..][i - 1..] == prog[i..];
    }
  }

  /** The loop runs on only past a statement it could encode. */
  lemma {:induction false} EncodeHeadSucceeds(step: StatementEncoder, prog: seq<Statement>, st: EncoderState)
    requires |prog| > 0
    requires EncodeFrom(step, prog, st).Success?
    ensures step(st.address, prog[0]).Success?
  {
  }

  /** One step of the encoder's loop. */
  lemma {:induction false} EncodeFromCons(step: StatementEncoder, prog: seq<Statement>, st: EncoderState, words: seq<Word>)
    requires |prog| > 0
    requires step(st.address, prog[0]) == Success(words)
    ensures EncodeFrom(step, prog, st) == EncodeFrom(step, prog[1..], EncoderState(st.code + words, st.address + |words|))
  {
  }

  /** Statement by statement: the pass-1 address at which a statement
      starts is the encoder's currentAddress when it encodes that
      statement. */
  lemma PassesAgreeAt(t: SymbolTable, prog: seq<Statement>, i: nat)
    requires i <= |prog|
    requires AllConsistent(prog)
    requires FirstPassOf(prog).Success?
    requires Encode(t, prog).Success?
    ensures FirstPassOf(prog[..i]).Success? && Encode(t, prog[..i]).Success?
    ensures FirstPassOf(prog[..i]).value.address == Encode(t, prog[..i]).value.address
  {
    Pass1Split(prog, Start, i);
    EncodeSplit(StatementsWith(t), prog, EncoderState([], 0), i);
    ConsistentPrefix(prog, i);
    PassesAgree(t, prog[..i]);
  }

  // ---------------------------------------------------------------------
  // Labels seen from pass 2
  // ---------------------------------------------------------------------

  /** The words the encoder emits for statement i start at the address it
      had when it reached the statement. */
  lemma WordsAt(t: SymbolTable, prog: seq<Statement>, i: nat)
    requires i < |prog|
    requires Encode(t, prog).Success?
    ensures Encode(t, prog[..i]).Success?
    ensures var a := Encode(t, prog[..i]).value.address;
      && EncodeStatement(t, a, prog[i]).Success?
      && a + |EncodeStatement(t, a, prog[i]).value| <= |Encode(t, prog).value.code|
      && Encode(t, prog).value.code[a..a + |EncodeStatement(t, a, prog[i]).value|]
         == EncodeStatement(t, a, prog[i]).value
  {
    var step := StatementsWith(t);
    var st0 := EncoderState([], 0);
    EncodeIsLoop(t, prog);
    EncodeSplit(step, prog, st0, i);
    EncodeIsLoop(t, prog[..i]);
    WordsAtWith(step, prog, i);
    var a := EncodeFrom(step, prog[..i], st0).value.address;
    assert step(a, prog[i]) == EncodeStatement(t, a, prog[i]);
  }

  /** encode is its loop run with the table's statement encoder. */
  lemma EncodeIsLoop(t: SymbolTable, prog: seq<Statement>)
    ensures Encode(t, prog) == EncodeFrom(StatementsWith(t), prog, EncoderState([], 0))
  {
  }

  lemma WordsAtWith(step: StatementEncoder, prog: seq<Statement>, i: nat)
    requires i < |prog|
    requires WellBehaved(step)
    requires EncodeFrom(step, prog, EncoderState([], 0)).Success?
    ensures EncodeFrom(step, prog[..i], EncoderState([], 0)).Success?
    ensures var before := EncodeFrom(step, prog[..i], EncoderState([], 0)).value;
      var a := before.address;
      && a == |before.code|
      && step(a, prog[i]).Success?
      && a + |step(a, prog[i]).value| <= |EncodeFrom(step, prog, EncoderState([], 0)).value.code|
      && EncodeFrom(step, prog, EncoderState([], 0)).value.code[a..a + |step(a, prog[i]).value|]
         == step(a, prog[i]).value
  {
    EncodeSplit(step, prog, EncoderState([], 0), i);
    var before := EncodeFrom(step, prog[..i], EncoderState([], 0)).value;
    EncodeFromSize(step, prog[..i], EncoderState([], 0));
    var rest := prog[i..];
    assert rest[0] == prog[i];
    EncodeHeadSucceeds(step, rest, before);
    var words := step(before.address, prog[i]).value;
    var after := EncoderState(before.code + words, before.address + |words|);
    EncodeFromCons(step, rest, before, words);
    var r := EncodeFrom(step, rest[1..], after);
    EncodeFromKeeps(step, rest[1..], after);
    var code := r.value.code;
    assert code[..|after.code|] == before.code + words;
    assert code[before.address..before.address + |words|] == code[..|after.code|][before.address..];
  }

  /** End to end: a branch to a label the program binds once is encoded,
      at the branch's own pass-1 address, with the branch opcode, the
      mnemonic's condition code and the offset from the next word to the
      label's pass-1 address. */
  lemma BranchReachesLabel(prog: seq<Statement>, i: nat, j: nat)
    requires i < |prog| && j < |prog|
    requires AllConsistent(prog)
    requires prog[i].Instruction? && prog[i].opcode in BranchMnemonics
    requires prog[j] == Label(prog[i].operand1, prog[j].line, prog[j].column)
    requires forall k :: 0 <= k < |prog| && k != j ==> !(prog[k].Label? && prog[k].name == prog[j].name)
    requires Assemble(prog).Success?
    ensures FirstPassOf(prog[..i]).Success? && FirstPassOf(prog[..j]).Success?
    ensures var a := FirstPassOf(prog[..i]).value.address;
      var code := Assemble(prog).value.code;
      && 0 <= a < |code|
      && OpcodeNibble(code[a]) == 0x2000
      && BranchMnemonics[XField(code[a])] == prog[i].opcode
      && SignExtend(Low9(code[a]), 9) == FirstPassOf(prog[..j]).value.address - (a + 1)
  {
    var p1 := FirstPassOf(prog).value;
    var t := p1.symbols;
    PassesAgreeAt(t, prog, i);
    WordsAt(t, prog, i);
    LabelBound(prog, j);
    var a := Encode(t, prog[..i]).value.address;
    var def := GetInstructionDef(prog[i].opcode);
    assert def.Some? && def.value.format == Branch by {
      BranchDefs(prog[i].opcode);
    }
    var words := EncodeStatement(t, a, prog[i]).value;
    assert words == EncodeInstruction(t, a, prog[i]).value;
    BranchWord(t, a, prog[i]);
    assert Assemble(prog).value.code == Encode(t, prog).value.code;
    assert Assemble(prog).value.code[a] == words[0];
  }

  /** Every branch mnemonic has a BRANCH table entry, which names it in
      BranchMnemonics by its condition code. */
  lemma BranchDefs(m: string)
    requires m in BranchMnemonics
    ensures GetInstructionDef(m).Some? && GetInstructionDef(m).value.format == Branch
  {
    var k :| 0 <= k < |BranchMnemonics| && BranchMnemonics[k] == m;
    LookupBranch(k);
  }
}
