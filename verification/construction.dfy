/** Building the expression parsers the way the Java methods are written.
    `BinaryExprAST.parser()` passes `ExprAST.parser()` to `sequence` as an
    argument, so it is evaluated while the binary parser is built, and
    `ExprAST.parser()` in turn evaluates `BinaryExprAST.parser()`. Only the
    parenthesised alternative defers its inner call behind a lambda. */
module Construction {
  import opened Wrappers
  import opened Ast
  import opened Combinators
  import opened Grammar

  /** `ExprAST.parser()` with room for `depth` nested calls on the stack,
      where `exprOf` is what the method makes of the binary parser once it
      has one; None is the `StackOverflowError` when the room runs out. */
  function BuildExprWith(exprOf: Parser -> Parser, binaryOf: Parser -> Parser, depth: nat): Option<Parser>
    decreases depth, 1
  {
    if depth == 0 then None
    else
      match BuildBinaryWith(exprOf, binaryOf, depth - 1)
      case None => None
      case Some(binary) => Some(exprOf(binary))
  }

  /** `BinaryExprAST.parser()` with room for `depth` nested calls, where
      `binaryOf` is what the method makes of the expression parser. */
  function BuildBinaryWith(exprOf: Parser -> Parser, binaryOf: Parser -> Parser, depth: nat): Option<Parser>
    decreases depth, 0
  {
    if depth == 0 then None
    else
      match BuildExprWith(exprOf, binaryOf, depth - 1)
      case None => None
      case Some(expr) => Some(binaryOf(expr))
  }

  /** However deep the stack, and whatever the methods would make of each
      other's parser, neither parser is ever built: each one needs the
      other to be built first. */
  lemma {:induction false} NeverBuiltWith(exprOf: Parser -> Parser, binaryOf: Parser -> Parser, depth: nat)
    ensures BuildExprWith(exprOf, binaryOf, depth).None? && BuildBinaryWith(exprOf, binaryOf, depth).None?
  {
    if depth > 0 {
      NeverBuiltWith(exprOf, binaryOf, depth - 1);
    }
  }

  /** The alternatives of `ExprAST.parser()` around an already built
      binary parser. */
  function ExprFrom(ip: IntParser, binary: Parser): Parser
  {
    OneOf([binary, Factor(ip), ParenParser(ip)]).value
  }

  /** The mapped sequence of `BinaryExprAST.parser()` around an already
      built expression parser. */
  function BinaryFrom(ip: IntParser, expr: Parser): Parser
  {
    Map(Sequence([Factor(ip), Operator(), expr]).value, MakeBinary)
  }

  /** `ExprAST.parser()` as written. */
  function BuildExpr(ip: IntParser, depth: nat): Option<Parser>
  {
    BuildExprWith(b => ExprFrom(ip, b), e => BinaryFrom(ip, e), depth)
  }

  /** `BinaryExprAST.parser()` as written. */
  function BuildBinary(ip: IntParser, depth: nat): Option<Parser>
  {
    BuildBinaryWith(b => ExprFrom(ip, b), e => BinaryFrom(ip, e), depth)
  }

  /** Neither parser as written is ever built. */
  lemma NeverBuilt(ip: IntParser, depth: nat)
    ensures BuildExpr(ip, depth).None? && BuildBinary(ip, depth).None?
  {
    NeverBuiltWith(b => ExprFrom(ip, b), e => BinaryFrom(ip, e), depth);
  }
}
