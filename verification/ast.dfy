/** The syntax-tree node types the combinators and the grammar produce:
    one constructor per `AST` record or class. */
module Ast {
  import opened Wrappers

  /** `BinaryExprAST.BinaryOp`. */
  datatype BinaryOp = Add | Sub | Mult | Div | Mod

  datatype Ast =
    | EmptyAst
    | ItemAst(item: char)
    | LiteralAst(literal: string)
    | RegexAst(matched: string, groups: seq<string>)
    | SequenceAst(values: seq<Ast>)
    | OptionalAst(inner: Option<Ast>)
    | IdentifierAst(identifier: string)
    | IntLiteralAst(number: int)
    | BinaryExprAst(left: Ast, op: BinaryOp, right: Ast)
    | AssignStmtAst(target: Ast, expr: Ast)

  /** The node is an `ExprAST`: an identifier, an integer literal or a
      binary expression. */
  predicate IsExpr(a: Ast)
  {
    a.IdentifierAst? || a.IntLiteralAst? || a.BinaryExprAst?
  }

  /** The operator's source symbol. */
  function Symbol(op: BinaryOp): string
  {
    match op
    case Add => "+"
    case Sub => "-"
    case Mult => "*"
    case Div => "/"
    case Mod => "%"
  }

  /** `BinaryOp.from(opStr)`: the operator written `opStr`; any other
      string raises `RuntimeException("unreachable")`. */
  function From(opStr: string): (r: Result<BinaryOp>)
    ensures r.Success? <==> opStr in {"+", "-", "*", "/", "%"}
    ensures r.Success? ==> Symbol(r.value) == opStr
    ensures r.Failure? ==> r.message == "unreachable"
  {
    match opStr
    case "+" => Success(Add)
    case "-" => Success(Sub)
    case "*" => Success(Mult)
    case "/" => Success(Div)
    case "%" => Success(Mod)
    case _ => Failure("unreachable")
  }

  /** `from` reads back every operator's symbol. */
  lemma FromSymbol(op: BinaryOp)
    ensures From(Symbol(op)) == Success(op)
  {
  }

  /** `OptionalAST.of(ast)`. */
  function OptionalOf(a: Ast): (r: Ast)
    ensures r.OptionalAst? && r.inner.Some? && r.inner.value == a
  {
    OptionalAst(Some(a))
  }

  /** `OptionalAST.empty()`. */
  function OptionalEmpty(): (r: Ast)
    ensures r.OptionalAst? && r.inner.None?
  {
    OptionalAst(None)
  }
}
