/** What can make an assembly run fail. The source throws exceptions whose
    message text carries the details; here each failure is a kind with the
    values the message names, plus the statement's line where the source
    prefixes one. */
module Errors {
  import opened Wrappers

  datatype ErrorKind =
    | InvalidRegister(name: string)                          // parseRegister
    | Hinted(cause: ErrorKind, hint: string)                 // failure plus the format hint
    | ImmediateOutOfRange(value: int, min: int, max: int)   // encodeImmediate
    | BadImmediate(text: string)                             // parseImmediateOrSymbol
    | ImmediateNeedsExpansion(value: int, bits: int)         // `#` operand wider than immBits
    | BranchTooFar(offset: int)
    | ShiftAmountOutOfRange(amount: int)
    | WordOutOfRange(value: int)                             // `.word`
    | UndefinedLabel(name: string)                           // symbol table lookup
    | UnknownInstruction(mnemonic: string)
    | BadNumber(text: string)                                // parseNumber in pass 1
    | OriginBackward(target: int, current: int)              // `.org`

  /** A failure, with the line of the statement that caused it when the
      source reports one. */
  datatype AsmError = AsmError(kind: ErrorKind, line: Option<int>)
}
