// The two shapes in which the modelled code reports a missing or failed value.
module Outcomes {
  datatype Option<+T> = None | Some(value: T)

  // Error values carry a coarse kind only; message wording is not modelled.
  datatype Error =
    | MissingColumn(column: string)
    | UndefinedVariable(variable: string)
    | NotAnInteger
    | DivisionByZero
    | UnknownFunction
    | UnknownOperator
    | WrongArity
    | UnsupportedType
    | SyntaxError
    | DuplicateDeclaration
    | CircularDependency
    | NoDeclarations
    | IndexOutOfRange
    | KeyRequired
    | MissingRequiredColumns
    | CrossShard
    | NoTarget
    | NotFound

  datatype Result<+T> = Ok(value: T) | Err(error: Error)
}
