/** The symbol table filled by pass 1 and read by pass 2: label addresses
    and `.define` values, each a finite map from name to number.
    SymbolTable.h is not part of this model. Here a second binding of a
    name overwrites the first (last binding wins); every property that
    reads a label back assumes the program binds it once. */
module Symbols {
  import opened Wrappers
  import opened Errors

  datatype SymbolTable = SymbolTable(labels: map<string, int>, defines: map<string, int>)

  const EmptySymbols: SymbolTable := SymbolTable(map[], map[])

  function AddLabel(t: SymbolTable, name: string, address: int): (r: SymbolTable)
    ensures HasLabel(r, name) && r.labels[name] == address
    ensures forall n :: n != name ==> (HasLabel(r, n) <==> HasLabel(t, n))
    ensures forall n :: n != name && HasLabel(t, n) ==> HasLabel(r, n) && r.labels[n] == t.labels[n]
    ensures r.defines == t.defines
  {
    t.(labels := t.labels[name := address])
  }

  function AddDefine(t: SymbolTable, name: string, value: int): (r: SymbolTable)
    ensures HasDefine(r, name) && r.defines[name] == value
    ensures forall n :: n != name ==> (HasDefine(r, n) <==> HasDefine(t, n))
    ensures forall n :: n != name && HasDefine(t, n) ==> HasDefine(r, n) && r.defines[n] == t.defines[n]
    ensures r.labels == t.labels
  {
    t.(defines := t.defines[name := value])
  }

  predicate HasLabel(t: SymbolTable, name: string) { name in t.labels }

  predicate HasDefine(t: SymbolTable, name: string) { name in t.defines }

  /** getLabelAddress: fails naming the label when it is not bound. */
  function GetLabelAddress(t: SymbolTable, name: string): (r: Result<int, ErrorKind>)
    ensures r.Success? <==> HasLabel(t, name)
    ensures r.Success? ==> r.value == t.labels[name]
    ensures r.Failure? ==> r.error == UndefinedLabel(name)
  {
    if name in t.labels then Success(t.labels[name]) else Failure(UndefinedLabel(name))
  }

  /** getDefineValue; every caller first checks hasDefine. */
  function GetDefineValue(t: SymbolTable, name: string): int
    requires HasDefine(t, name)
  {
    t.defines[name]
  }
}
