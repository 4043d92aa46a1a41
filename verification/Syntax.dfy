// Model of db/internal/dbsp/expr/ast.go and of the token kinds of lexer.go.
module Syntax {
  import opened Values

  datatype TokenKind =
    | EndOfInput
    | IntToken
    | StringToken
    | IdentToken
    | ColRefToken
    | VarRefToken
    | Plus
    | Minus
    | Star
    | Slash
    | Percent
    | LParen
    | RParen
    | Comma
    | Assign
    | DeclAssign

  // Positions serve error messages only and are not modelled.
  datatype Token = Token(kind: TokenKind, text: string)

  datatype Expr =
    | IntLit(value: int64)
    | StrLit(text: string)
    | ColRef(column: string)
    | VarRef(variable: string)
    | BinaryOp(op: TokenKind, left: Expr, right: Expr)
    | FuncCall(name: string, args: seq<Expr>)

  predicate Additive(k: TokenKind) { k.Plus? || k.Minus? }

  predicate Multiplicative(k: TokenKind) { k.Star? || k.Slash? || k.Percent? }
}
