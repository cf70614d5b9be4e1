/** `AssignStmtAST`: an assignment statement, an identifier, "=" and an
    expression of the grammar. */
module Statements {
  import opened Wrappers
  import opened Chars
  import opened Ast
  import opened Combinators
  import opened Grammar

  /** The mapping of `AssignStmtAST.parser()`: the first tree as the
      target, the third as the value; the "=" is dropped. */
  function MakeAssign(a: Ast): (r: Result<Ast>)
    ensures r.Success? <==> a.SequenceAst? && |a.values| >= 3 && a.values[0].IdentifierAst? && IsExpr(a.values[2])
    ensures r.Success? ==> r.value == AssignStmtAst(a.values[0], a.values[2])
  {
    if !a.SequenceAst? || |a.values| < 1 || !a.values[0].IdentifierAst? then
      (if a.SequenceAst? && |a.values| < 1 then Failure("IndexOutOfBoundsException") else Failure("ClassCastException"))
    else if |a.values| < 3 then Failure("IndexOutOfBoundsException")
    else if !IsExpr(a.values[2]) then Failure("ClassCastException")
    else Success(AssignStmtAst(a.values[0], a.values[2]))
  }

  /** The cast and the two `get`s of the assignment mapping succeed on an
      identifier, anything, and an expression. */
  lemma AssembleAssign(a: Ast, b: Ast, c: Ast)
    requires a.IdentifierAst? && IsExpr(c)
    ensures MakeAssign(SequenceAst([a, b, c])) == Success(AssignStmtAst(a, c))
  {
  }

  /** What `AssignStmtAST.parser()` does on `s`: an identifier straight
      away, "=" with optional white space on both sides, an expression;
      the first exception escapes. */
  function AssignAt(ip: IntParser, s: seq<char>): (r: Outcome)
    ensures !IdentifierAt(s).Parsed? ==> r == Failed("Invalid identifier")
    ensures r.Parsed? ==> r.ast.AssignStmtAst? && r.ast.target.IdentifierAst? && IsExpr(r.ast.expr)
  {
    var id := IdentifierAt(s);
    if !id.Parsed? then id
    else
      var eq := SkipWhitespaceAt(Literal("="), id.rest);
      if !eq.Parsed? then eq
      else
        var e := ExprAt(ip, eq.rest);
        if !e.Parsed? then e
        else
          match MakeAssign(SequenceAst([id.ast, eq.ast, e.ast]))
          case Success(a) => Parsed(a, e.rest)
          case Failure(msg) => Crashed(msg)
  }

  /** `skipWhitespace(literal("="))` on `s`: an "=" after optional white
      space, and the white space after it. */
  lemma EqualsSign(s: seq<char>)
    ensures SkipWhitespaceAt(Literal("="), s).Parsed? <==> StartsWith(TrimStart(s), "=")
    ensures StartsWith(TrimStart(s), "=") ==>
              SkipWhitespaceAt(Literal("="), s) == Parsed(LiteralAst("="), TrimStart(TrimStart(s)[1..]))
  {
    var t := TrimStart(s);
    assert Literal("=")(t) == LiteralAt("=", t);
  }

  /** An assignment is an identifier, an "=" with white space around it
      and an expression; the target is the identifier and the value the
      expression, and the statement ends where the expression does. */
  lemma AssignShape(ip: IntParser, s: seq<char>)
    ensures AssignAt(ip, s).Parsed? <==>
      && IdentifierAt(s).Parsed?
      && StartsWith(TrimStart(IdentifierAt(s).rest), "=")
      && ExprAt(ip, TrimStart(TrimStart(IdentifierAt(s).rest)[1..])).Parsed?
    ensures AssignAt(ip, s).Parsed? ==>
      AssignAt(ip, s) == Parsed(AssignStmtAst(IdentifierAt(s).ast, ExprAt(ip, TrimStart(TrimStart(IdentifierAt(s).rest)[1..])).ast),
                                ExprAt(ip, TrimStart(TrimStart(IdentifierAt(s).rest)[1..])).rest)
  {
    var id := IdentifierAt(s);
    if id.Parsed? {
      var t := TrimStart(id.rest);
      EqualsSign(id.rest);
      if StartsWith(t, "=") {
        var eq := SkipWhitespaceAt(Literal("="), id.rest);
        assert eq == Parsed(LiteralAst("="), TrimStart(t[1..]));
        var e := ExprAt(ip, eq.rest);
        if e.Parsed? {
          AssembleAssign(id.ast, eq.ast, e.ast);
          assert AssignAt(ip, s) == Parsed(AssignStmtAst(id.ast, e.ast), e.rest);
        } else {
          assert AssignAt(ip, s) == e;
        }
      } else {
        assert !SkipWhitespaceAt(Literal("="), id.rest).Parsed?;
        assert !AssignAt(ip, s).Parsed?;
      }
    } else {
      assert AssignAt(ip, s) == id;
    }
  }

  /** No white space is skipped before the target: leading white space
      fails the statement as an invalid identifier. */
  lemma LeadingSpaceFails(ip: IntParser, s: seq<char>)
    requires s != [] && IsRegexSpace(s[0])
    ensures AssignAt(ip, s) == Failed("Invalid identifier")
  {
    assert !IsIdentStart(s[0]);
    assert IdentifierAt(s) == Failed("Invalid identifier");
  }

  /** `sequence(IdentifierAST.parser(), skipWhitespace(literal("=")),
      ExprAST.parser())`, with the expression parser standing for
      `ExprOf(ip)`, which computes the same outcome on every input. */
  function AssignSequence(ip: IntParser): (p: Parser)
    ensures forall s :: p(s) == Triple(IdentifierParser(), SkipWhitespace(Literal("=")), ExprParser(ip), s)
  {
    var p := Sequence([IdentifierParser(), SkipWhitespace(Literal("=")), ExprParser(ip)]).value;
    forall s
      ensures p(s) == Triple(IdentifierParser(), SkipWhitespace(Literal("=")), ExprParser(ip), s)
    {
      ThreadThree(IdentifierParser(), SkipWhitespace(Literal("=")), ExprParser(ip), s);
    }
    p
  }

  lemma AssignBridgeNoTarget(ip: IntParser, s: seq<char>)
    requires !IdentifierAt(s).Parsed?
    ensures MapAt(AssignSequence(ip), MakeAssign, s) == AssignAt(ip, s)
  {
    var sq := AssignSequence(ip);
    var id := IdentifierAt(s);
    assert sq(s) == id;
    assert AssignAt(ip, s) == id;
  }

  lemma AssignBridgeNoEquals(ip: IntParser, s: seq<char>)
    requires IdentifierAt(s).Parsed? && !SkipWhitespaceAt(Literal("="), IdentifierAt(s).rest).Parsed?
    ensures MapAt(AssignSequence(ip), MakeAssign, s) == AssignAt(ip, s)
  {
    var sq := AssignSequence(ip);
    var id := IdentifierAt(s);
    var eq := SkipWhitespaceAt(Literal("="), id.rest);
    assert sq(s) == eq;
    assert AssignAt(ip, s) == eq;
  }
  lemma AssignBridgeNoValue(ip: IntParser, s: seq<char>)
    requires IdentifierAt(s).Parsed? && SkipWhitespaceAt(Literal("="), IdentifierAt(s).rest).Parsed?
    requires !ExprAt(ip, SkipWhitespaceAt(Literal("="), IdentifierAt(s).rest).rest).Parsed?
    ensures MapAt(AssignSequence(ip), MakeAssign, s) == AssignAt(ip, s)
  {
    var sq := AssignSequence(ip);
    var id := IdentifierAt(s);
    var eq := SkipWhitespaceAt(Literal("="), id.rest);
    var e := ExprAt(ip, eq.rest);
    assert sq(s) == e;
    assert AssignAt(ip, s) == e;
  }
  lemma AssignBridgeParsed(ip: IntParser, s: seq<char>)
    requires IdentifierAt(s).Parsed? && SkipWhitespaceAt(Literal("="), IdentifierAt(s).rest).Parsed?
    requires ExprAt(ip, SkipWhitespaceAt(Literal("="), IdentifierAt(s).rest).rest).Parsed?
    ensures MapAt(AssignSequence(ip), MakeAssign, s) == AssignAt(ip, s)
  {
    var sq := AssignSequence(ip);
    var id := IdentifierAt(s);
    var eq := SkipWhitespaceAt(Literal("="), id.rest);
    var e := ExprAt(ip, eq.rest);
    assert sq(s) == Parsed(SequenceAst([id.ast, eq.ast, e.ast]), e.rest);
    AssembleAssign(id.ast, eq.ast, e.ast);
    MapOfTriple(sq, MakeAssign, s, id.ast, eq.ast, e.ast, e.rest);
    assert AssignAt(ip, s) == Parsed(AssignStmtAst(id.ast, e.ast), e.rest);
  }

  lemma AssignBridge(ip: IntParser, s: seq<char>)
    ensures MapAt(AssignSequence(ip), MakeAssign, s) == AssignAt(ip, s)
  {
    var id := IdentifierAt(s);
    if !id.Parsed? {
      AssignBridgeNoTarget(ip, s);
    } else if !SkipWhitespaceAt(Literal("="), id.rest).Parsed? {
      AssignBridgeNoEquals(ip, s);
    } else if !ExprAt(ip, SkipWhitespaceAt(Literal("="), id.rest).rest).Parsed? {
      AssignBridgeNoValue(ip, s);
    } else {
      AssignBridgeParsed(ip, s);
    }
  }

  /** `AssignStmtAST.parser()`, `map(sequence(IdentifierAST.parser(),
      skipWhitespace(literal("=")), ExprAST.parser()), ...)`, computes the
      assignment rule on every input. */
  lemma AssignParserBridge(ip: IntParser, s: seq<char>)
    ensures Map(AssignSequence(ip), MakeAssign)(s) == AssignAt(ip, s)
  {
    AssignBridge(ip, s);
  }
}
