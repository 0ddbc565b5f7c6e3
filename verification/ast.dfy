/** The statement sequence the parser hands to the assembler core: one sum
    type whose constructor is the statement's type tag, each variant carrying
    its source line and column. */
module Ast {

  datatype Statement =
    | Instruction(opcode: string, operand1: string, operand2: string,
                  hasComma: bool, isLabelImmediate: bool, isImmediate: bool,
                  line: int, column: int)
    | Directive(name: string, labelName: string, value: string, line: int, column: int)
    | Label(name: string, line: int, column: int)

  /** A program is the statements in source order. */
  type ProgramAst = seq<Statement>
}
