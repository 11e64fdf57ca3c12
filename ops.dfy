// The operator vocabulary: the unary and binary operations that label the
// nodes of an expression tree, and the text each one prints as.
module Ops {

  /** The unary operations (the `Unary*` structs, plus the matrix operations
    * that are declared as unary operations with a do-nothing default). */
  datatype UnaryOp =
    | PreIncrement | PreDecrement | Complement | Not | UPlus | UMinus
    | AddressOf | Dereference
    | TransposeOfMatrix | LumpedMatrix | RowSumOfMatrix
    | TransposeOfTinyMatrix | LumpedTinyMatrix

  /** The binary operations (the `Binary*` structs). */
  datatype BinaryOp =
    | Multiply | Divide | ModuloAliasRemainder | Plus | Minus
    | ShiftLeft | ShiftRight
    | LessThan | LessThanOrEqual | GreaterThan | GreaterThanOrEqual
    | Equal | NotEqual | ModuloAndAssign
    | BitwiseAnd | BitwiseExclusiveOr | BitwiseInclusiveOr
    | LogicalAnd | LogicalInclusiveOr

  /** The matrix operations whose element-wise default is the identity. */
  predicate IsDoNothing(op: UnaryOp)
  {
    op in {TransposeOfMatrix, LumpedMatrix, RowSumOfMatrix,
           TransposeOfTinyMatrix, LumpedTinyMatrix}
  }

  /** `Symbol()` of a unary operation: the text of its C++ operator, or the
    * name of the default function for the matrix operations. */
  function UnarySymbol(op: UnaryOp): string
  {
    match op
    case PreIncrement => "++"
    case PreDecrement => "--"
    case Complement => "~"
    case Not => "!"
    case UPlus => "+"
    case UMinus => "-"
    case AddressOf => "&"
    case Dereference => "*"
    case _ => "DoNothing"
  }

  /** `Symbol()` of a binary operation: the text of its C++ operator. */
  function BinarySymbol(op: BinaryOp): string
  {
    match op
    case Multiply => "*"
    case Divide => "/"
    case ModuloAliasRemainder => "%"
    case Plus => "+"
    case Minus => "-"
    case ShiftLeft => "<<"
    case ShiftRight => ">>"
    case LessThan => "<"
    case LessThanOrEqual => "<="
    case GreaterThan => ">"
    case GreaterThanOrEqual => ">="
    case Equal => "=="
    case NotEqual => "!="
    case ModuloAndAssign => "%="
    case BitwiseAnd => "&"
    case BitwiseExclusiveOr => "^"
    case BitwiseInclusiveOr => "|"
    case LogicalAnd => "&&"
    case LogicalInclusiveOr => "||"
  }

  /** Two binary operations print differently unless they are the same
    * operation, so a printed symbol names its operation. */
  lemma BinarySymbolInjective(a: BinaryOp, b: BinaryOp)
    requires BinarySymbol(a) == BinarySymbol(b)
    ensures a == b
  {
  }

  /** The same holds for the unary operations that are not do-nothing
    * matrix operations; those five all print as "DoNothing". */
  lemma UnarySymbolInjective(a: UnaryOp, b: UnaryOp)
    requires !IsDoNothing(a) && UnarySymbol(a) == UnarySymbol(b)
    ensures a == b
  {
  }
}
