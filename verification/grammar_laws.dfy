/** What the expression grammar promises about its shape: the left operand
    is a factor, an operator right after a factor is always absorbed into
    a binary node, and without one the factor stands alone. */
module GrammarLaws {
  import opened Wrappers
  import opened Chars
  import opened Ast
  import opened Combinators
  import opened Grammar

  /** A factor followed directly by an operator and an expression is a
      binary expression of the three, ending where the right operand
      does; the expression parser takes it before the bare factor. */
  lemma OperatorIsAbsorbed(ip: IntParser, s: seq<char>)
    requires FactorAt(ip, s).Parsed?
    requires FactorAt(ip, s).rest != [] && IsOperatorChar(FactorAt(ip, s).rest[0])
    requires ExprAt(ip, FactorAt(ip, s).rest[1..]).Parsed?
    ensures ExprAt(ip, s) == Parsed(BinaryExprAst(FactorAt(ip, s).ast,
                                                  From([FactorAt(ip, s).rest[0]]).value,
                                                  ExprAt(ip, FactorAt(ip, s).rest[1..]).ast),
                                    ExprAt(ip, FactorAt(ip, s).rest[1..]).rest)
  {
    var f := FactorAt(ip, s);
    var o := OperatorAt(f.rest);
    assert o == Parsed(LiteralAst([f.rest[0]]), f.rest[1..]);
    var e := ExprAt(ip, o.rest);
    var seq3 := SequenceAst([f.ast, o.ast, e.ast]);
    assert MakeBinary(seq3) == Success(BinaryExprAst(f.ast, From(o.ast.literal).value, e.ast));
    assert BinaryAt(ip, s) == Parsed(BinaryExprAst(f.ast, From(o.ast.literal).value, e.ast), e.rest);
  }

  /** When no operator directly follows the factor, the binary
      alternative throws a `ParseException` and the expression is the
      bare factor. */
  lemma NoOperatorMeansFactor(ip: IntParser, s: seq<char>)
    requires FactorAt(ip, s).Parsed?
    requires FactorAt(ip, s).rest == [] || !IsOperatorChar(FactorAt(ip, s).rest[0])
    ensures BinaryAt(ip, s).Failed?
    ensures ExprAt(ip, s) == FactorAt(ip, s)
  {
  }
}
