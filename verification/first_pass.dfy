/** Pass 1 of the assembler (the first loop of main in main.cpp), written
    as a fold over the statements in source order. A word-address counter
    starts at 0. Labels and `.define` names are bound in the symbol table,
    `.org` pads up to its target, and every directive and instruction
    reserves the words it will occupy. Each reserved word is recorded in the
    is-data list: true for data, false for an instruction word. */
module FirstPass {
  import opened Wrappers
  import opened Ast
  import opened Numbers
  import opened Isa
  import opened Errors
  import opened Symbols

  /** The loop's state: the symbol table, currentAddress and isData. */
  datatype Pass1State = Pass1State(symbols: SymbolTable, address: int, isData: seq<bool>)

  const Start: Pass1State := Pass1State(EmptySymbols, 0, [])

  /** n copies of one marker; none when n is not positive (a `for` loop
      up to a negative bound runs no iteration). */
  function Marks(b: bool, n: int): seq<bool>
  {
    seq(if n < 0 then 0 else n, _ => b)
  }

  // ---------------------------------------------------------------------
  // Sizes
  // ---------------------------------------------------------------------

  /** getDirectiveSize: `.word` takes one word, `.space` the number it
      names (cut to a 32-bit int), `.ascii` one word per character,
      `.asciiz` one more for the terminator, any other name none. */
  function DirectiveSize(dir: Statement): (r: Result<int, ErrorKind>)
    requires dir.Directive?
    ensures r.Failure? <==> dir.name == ".space" && ParseNumber(dir.value).None?
    ensures r.Failure? ==> r.error == BadNumber(dir.value)
    ensures dir.name == ".word" ==> r == Success(1)
    ensures dir.name == ".space" && r.Success? ==>
      && Int32Min <= r.value <= Int32Max
      && (r.value - ParseNumber(dir.value).value) % 0x1_0000_0000 == 0
    ensures dir.name == ".ascii" ==> r == Success(|dir.value|)
    ensures dir.name == ".asciiz" ==> r == Success(|dir.value| + 1)
    ensures dir.name !in {".word", ".space", ".ascii", ".asciiz"} ==> r == Success(0)
    ensures r.Success? && r.value < 0 ==> dir.name == ".space"
  {
    if dir.name == ".word" then Success(1)
    else if dir.name == ".space" then
      var n :- ParseNumber(dir.value).ToResult(BadNumber(dir.value));
      Success(Int32Wrap(n))
    else if dir.name == ".ascii" then Success(|dir.value|)
    else if dir.name == ".asciiz" then Success(|dir.value| + 1)
    else Success(0)
  }

  /** `.space` written as a decimal that fits an int reserves exactly that
      many words. */
  lemma SpaceSize(n: nat, bound: string, line: int, column: int)
    requires n <= Int32Max
    ensures DirectiveSize(Directive(".space", bound, Render(n, 10), line, column)) == Success(n)
  {
    ParseNumberDecimal(n);
  }

  /** The words pass 1 reserves for an instruction: two when it has an `=`
      operand and its mnemonic is a known one with canExpand, else one
      (unknown mnemonics included). */
  function InstructionWords(instr: Statement): (n: nat)
    requires instr.Instruction?
    ensures n == 1 || n == 2
    ensures n == 2 <==> instr.isLabelImmediate && ExpandableName(instr.opcode)
  {
    ExpandableMnemonics(instr.opcode);
    if instr.isLabelImmediate then
      match GetInstructionDef(instr.opcode)
      case Some(def) => if def.canExpand then 2 else 1
      case None => 1
    else 1
  }

  // ---------------------------------------------------------------------
  // The loop
  // ---------------------------------------------------------------------

  /** One iteration of the first pass. Numbers that do not parse abort the
      pass without a line (the exception escapes unwrapped); a backward
      `.org` aborts with its line. */
  function Pass1Step(st: Pass1State, s: Statement): (r: Result<Pass1State, AsmError>)
    ensures s.Label? ==>
      && r.Success? && r.value.address == st.address && r.value.isData == st.isData
      && HasLabel(r.value.symbols, s.name) && r.value.symbols.labels[s.name] == st.address
      && r.value.symbols.defines == st.symbols.defines
      && (forall n :: n != s.name ==> (HasLabel(r.value.symbols, n) <==> HasLabel(st.symbols, n)))
      && (forall n :: n != s.name && HasLabel(st.symbols, n) ==> r.value.symbols.labels[n] == st.symbols.labels[n])
    ensures !s.Label? && r.Success? ==> r.value.symbols.labels == st.symbols.labels
    ensures s.Directive? && s.name == ".define" ==>
      && (r.Success? <==> ParseNumber(s.value).Some?)
      && (r.Failure? ==> r.error == AsmError(BadNumber(s.value), None))
      && (r.Success? ==> (r.value.address == st.address && r.value.isData == st.isData
           && HasDefine(r.value.symbols, s.labelName)
           && r.value.symbols.defines[s.labelName] == ParseNumber(s.value).value
           && (forall n :: n != s.labelName ==> (HasDefine(r.value.symbols, n) <==> HasDefine(st.symbols, n)))
           && (forall n :: n != s.labelName && HasDefine(st.symbols, n) ==>
                 r.value.symbols.defines[n] == st.symbols.defines[n])))
    ensures s.Directive? && s.name == ".org" ==>
      var target := ParseNumber(s.value);
      && (r.Success? <==> target.Some? && target.value >= st.address)
      && (target.None? ==> r.error == AsmError(BadNumber(s.value), None))
      && (target.Some? && target.value < st.address ==>
           r.error == AsmError(OriginBackward(target.value, st.address), Some(s.line)))
      && (r.Success? ==> (r.value.address == target.value && r.value.symbols == st.symbols
           && r.value.isData == st.isData + Marks(true, target.value - st.address)))
    ensures s.Directive? && s.name != ".define" && s.name != ".org" ==>
      var size := DirectiveSize(s);
      && (r.Success? <==> size.Success?)
      && (r.Failure? ==> r.error == AsmError(size.error, None))
      && (r.Success? ==> (r.value.address == st.address + size.value && r.value.symbols == st.symbols
           && r.value.isData == st.isData + Marks(true, size.value)))
    ensures s.Instruction? ==>
      && r.Success? && r.value.symbols == st.symbols
      && r.value.address == st.address + InstructionWords(s)
      && r.value.isData == st.isData + Marks(false, InstructionWords(s))
  {
    match s
    case Label(name, _, _) =>
      Success(st.(symbols := AddLabel(st.symbols, name, st.address)))
    case Directive(name, labelName, value, line, _) =>
      if name == ".define" then
        var v :- ParseNumber(value).ToResult(AsmError(BadNumber(value), None));
        Success(st.(symbols := AddDefine(st.symbols, labelName, v)))
      else if name == ".org" then
        var target :- ParseNumber(value).ToResult(AsmError(BadNumber(value), None));
        if target < st.address then Failure(AsmError(OriginBackward(target, st.address), Some(line)))
        else Success(st.(address := target, isData := st.isData + Marks(true, target - st.address)))
      else
        var size :- DirectiveSize(s).MapFailure(e => AsmError(e, None));
        Success(st.(address := st.address + size, isData := st.isData + Marks(true, size)))
    case Instruction(_, _, _, _, _, _, _, _) =>
      var n := InstructionWords(s);
      Success(st.(address := st.address + n, isData := st.isData + Marks(false, n)))
  }

  /** The loop from a given state, statement by statement. The is-data list
      only grows, and a failure that names a line names a `.org` of the
      program. */
  function Pass1From(prog: seq<Statement>, st: Pass1State): (r: Result<Pass1State, AsmError>)
    ensures r.Success? ==> |r.value.isData| >= |st.isData| && r.value.isData[..|st.isData|] == st.isData
    ensures r.Failure? && r.error.line.Some? ==>
      exists i :: 0 <= i < |prog| && prog[i].Directive? && prog[i].name == ".org" && r.error.line == Some(prog[i].line)
    decreases |prog|
  {
    if |prog| == 0 then Success(st)
    else
      var next :- Pass1Step(st, prog[0]);
      var r := Pass1From(prog[1..], next);
      if r.Success? then
        assert r.value.isData[..|st.isData|] == r.value.isData[..|next.isData|][..|st.isData|];
        r
      else if r.error.line.Some? then
        var i :| 0 <= i < |prog[1..]| && prog[1..][i].Directive? && prog[1..][i].name == ".org"
                 && r.error.line == Some(prog[1..][i].line);
        assert prog[1..][i] == prog[i + 1];
        r
      else r
  }

  /** One iteration of the loop. */
  lemma {:induction false} Pass1FromCons(prog: seq<Statement>, st: Pass1State, next: Pass1State)
    requires |prog| > 0
    requires Pass1Step(st, prog[0]) == Success(next)
    ensures Pass1From(prog, st) == Pass1From(prog[1..], next)
  {
  }

  /** The first pass over a whole program, from address 0 and an empty
      symbol table. */
  function FirstPassOf(prog: seq<Statement>): (r: Result<Pass1State, AsmError>)
    ensures r.Failure? && r.error.line.Some? ==>
      exists i :: 0 <= i < |prog| && prog[i].Directive? && prog[i].name == ".org" && r.error.line == Some(prog[i].line)
  {
    Pass1From(prog, Start)
  }

  // ---------------------------------------------------------------------
  // Properties of the loop
  // ---------------------------------------------------------------------

  /** No directive of the statement asks for a negative number of words. */
  predicate SizeNonNegative(s: Statement)
  {
    s.Directive? && s.name != ".define" && s.name != ".org" && DirectiveSize(s).Success? ==> DirectiveSize(s).value >= 0
  }

  /** While every directive size is non-negative, the is-data list keeps
      one entry per address. */
  lemma {:induction false} DataTracksAddressFrom(prog: seq<Statement>, st: Pass1State)
    requires forall i :: 0 <= i < |prog| ==> SizeNonNegative(prog[i])
    requires |st.isData| == st.address
    requires Pass1From(prog, st).Success?
    ensures |Pass1From(prog, st).value.isData| == Pass1From(prog, st).value.address
    decreases |prog|
  {
    if |prog| > 0 {
      var next := Pass1Step(st, prog[0]).value;
      assert SizeNonNegative(prog[0]);
      assert forall i :: 0 <= i < |prog[1..]| ==> SizeNonNegative(prog[1..][i]) by {
        forall i | 0 <= i < |prog[1..]| ensures SizeNonNegative(prog[1..][i]) {
          assert prog[1..][i] == prog[i + 1];
        }
      }
      DataTracksAddressFrom(prog[1..], next);
    }
  }

  lemma DataTracksAddress(prog: seq<Statement>)
    requires forall i :: 0 <= i < |prog| ==> SizeNonNegative(prog[i])
    requires FirstPassOf(prog).Success?
    ensures |FirstPassOf(prog).value.isData| == FirstPassOf(prog).value.address
  {
    DataTracksAddressFrom(prog, Start);
  }

  /** Without the premise the two part: `.space -1` moves the counter back
      while adding no marker. */
  lemma NegativeSpace(line: int, column: int)
    ensures FirstPassOf([Directive(".space", "", "-1", line, column)]) == Success(Pass1State(EmptySymbols, -1, []))
  {
    var s := Directive(".space", "", "-1", line, column);
    MinusOne();
    var next := SpaceStep(Start, s, -1);
    assert Marks(true, -1) == [];
    Pass1FromCons([s], Start, next);
    assert [s][1..] == [];
  }

  /** A `.space` whose operand parses to an int-sized number moves the
      counter by that number and marks that many words as data. */
  lemma SpaceStep(st: Pass1State, s: Statement, n: int) returns (next: Pass1State)
    requires s.Directive? && s.name == ".space" && ParseNumber(s.value) == Some(n)
    requires Int32Min <= n <= Int32Max
    ensures next == Pass1State(st.symbols, st.address + n, st.isData + Marks(true, n))
    ensures Pass1Step(st, s) == Success(next)
  {
    next := Pass1State(st.symbols, st.address + n, st.isData + Marks(true, n));
  }

  lemma MinusOne()
    ensures ParseNumber("-1") == Some(-1)
  {
    ParseNumberNegative(1);
    assert "-" + Render(1, 10) == "-1";
  }

  /** Running the loop over a program is running it over a prefix and then
      over the rest from the state the prefix leaves. */
  lemma {:induction false} Pass1Split(prog: seq<Statement>, st: Pass1State, i: nat)
    requires i <= |prog|
    requires Pass1From(prog, st).Success?
    ensures Pass1From(prog[..i], st).Success?
    ensures Pass1From(prog[i..], Pass1From(prog[..i], st).value) == Pass1From(prog, st)
    decreases i
  {
    if i == 0 {
      assert prog[..0] == [] && prog[0..] == prog;
    } else {
      var next := Pass1Step(st, prog[0]).value;
      Pass1Split(prog[1..], next, i - 1);
      assert prog[..i][0] == prog[0];
      assert prog[..i][1..] == prog[1..][..i - 1];
      assert prog[1..][i - 1..] == prog[i..];
    }
  }

  /** A label that no later statement names keeps its binding. */
  lemma {:induction false} LabelKept(prog: seq<Statement>, st: Pass1State, name: string)
    requires HasLabel(st.symbols, name)
    requires forall i :: 0 <= i < |prog| ==> !(prog[i].Label? && prog[i].name == name)
    requires Pass1From(prog, st).Success?
    ensures HasLabel(Pass1From(prog, st).value.symbols, name)
    ensures Pass1From(prog, st).value.symbols.labels[name] == st.symbols.labels[name]
    decreases |prog|
  {
    if |prog| > 0 {
      var next := Pass1Step(st, prog[0]).value;
      assert !(prog[0].Label? && prog[0].name == name);
      assert forall i :: 0 <= i < |prog[1..]| ==> !(prog[1..][i].Label? && prog[1..][i].name == name) by {
        forall i | 0 <= i < |prog[1..]| ensures !(prog[1..][i].Label? && prog[1..][i].name == name) {
          assert prog[1..][i] == prog[i + 1];
        }
      }
      LabelKept(prog[1..], next, name);
    }
  }

  /** A label the program binds once holds the address the counter had
      when the label was reached. */
  lemma LabelBound(prog: seq<Statement>, j: nat)
    requires j < |prog| && prog[j].Label?
    requires forall i :: 0 <= i < |prog| && i != j ==> !(prog[i].Label? && prog[i].name == prog[j].name)
    requires FirstPassOf(prog).Success?
    ensures FirstPassOf(prog[..j]).Success?
    ensures HasLabel(FirstPassOf(prog).value.symbols, prog[j].name)
    ensures FirstPassOf(prog).value.symbols.labels[prog[j].name] == FirstPassOf(prog[..j]).value.address
  {
    var name := prog[j].name;
    Pass1Split(prog, Start, j);
    var before := Pass1From(prog[..j], Start).value;
    var rest := prog[j..];
    assert rest[0] == prog[j];
    var at := Pass1Step(before, prog[j]).value;
    assert Pass1From(rest, before) == Pass1From(rest[1..], at);
    assert forall i :: 0 <= i < |rest[1..]| ==> !(rest[1..][i].Label? && rest[1..][i].name == name) by {
      forall i | 0 <= i < |rest[1..]| ensures !(rest[1..][i].Label? && rest[1..][i].name == name) {
        assert rest[1..][i] == prog[j + 1 + i];
      }
    }
    LabelKept(rest[1..], at, name);
  }
}
