/** SQL expressions, as the parser builds them and the planner and the executor read them. */
module Ast {
  import opened Bytes

  type Text = seq<Byte>

  datatype LiteralKind = IntLiteral | FloatLiteral | StringLiteral | NullLiteral

  datatype UnaryOp = Not | Minus

  datatype BinaryOp = Or | And | Eq | Neq | Lt | Lte | Gt | Gte | Is | Plus | Sub | Mul | Div | Mod | Concat

  datatype Expr =
    | Literal(kind: LiteralKind, text: Text)
    | Column(table: Text, name: Text)
    | Star(table: Text)
    | Unary(op: UnaryOp, operand: Expr)
    | Binary(left: Expr, bop: BinaryOp, right: Expr)
}
