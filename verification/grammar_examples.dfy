/** The grammar on the inputs of the repository's expression and statement
    tests, with the stand-in integer parser `-?[0-9]+`. */
module GrammarExamples {
  import opened Wrappers
  import opened Chars
  import opened Ast
  import opened Combinators
  import opened Grammar
  import opened GrammarLaws
  import opened Statements

  /** One digit, not followed by another, reads as its value. */
  lemma SingleDigit(s: seq<char>)
    requires |s| >= 1 && IsDigit(s[0]) && (|s| == 1 || !IsDigit(s[1]))
    ensures IntAt(s) == Parsed(IntLiteralAst(s[0] as int - '0' as int), s[1..])
  {
    assert Unsigned(s) == s;
    assert DigitRun(s[1..]) == 0;
    assert DigitRun(s) == 1;
    assert s[..1][..0] == [];
    assert DecimalValue(s[..1]) == s[0] as int - '0' as int;
  }

  /** Input that starts with neither a digit nor a minus sign is not an
      integer. */
  lemma NotAnInteger(s: seq<char>)
    requires s == [] || (!IsDigit(s[0]) && s[0] != '-')
    ensures IntAt(s).Failed?
  {
    assert Unsigned(s) == s;
  }

  /** An identifier of one letter. */
  lemma OneLetter(s: seq<char>)
    requires |s| >= 1 && IsAsciiLetter(s[0]) && (|s| == 1 || !IsIdentPart(s[1]))
    ensures IdentifierAt(s) == Parsed(IdentifierAst(s[..1]), s[1..])
  {
    assert IdentRun(s[1..]) == 0;
  }

  /** "a": an identifier, and the whole expression. */
  lemma ExprOnA()
    ensures ExprAt(IntStandIn(), "a") == Parsed(IdentifierAst("a"), "")
  {
    var ip := IntStandIn();
    assert FactorAt(ip, "a") == Parsed(IdentifierAst("a"), "") by {
      NotAnInteger("a");
      OneLetter("a");
    }
    NoOperatorMeansFactor(ip, "a");
  }

  /** "1*a": one times a. */
  lemma ExprOnOneTimesA()
    ensures ExprAt(IntStandIn(), "1*a") == Parsed(BinaryExprAst(IntLiteralAst(1), Mult, IdentifierAst("a")), "")
  {
    var ip := IntStandIn();
    var s := "1*a";
    SingleDigit(s);
    assert ip(s) == IntAt(s);
    assert FactorAt(ip, s) == Parsed(IntLiteralAst(1), "*a");
    assert "*a"[0] == '*' && "*a"[1..] == "a";
    assert From(['*']) == Success(Mult);
    ExprOnA();
    OperatorIsAbsorbed(ip, s);
  }

  /** `BinaryExprAST.parser()` on "0+1*a": the right-recursive
      `ADD(0, MULT(1, a))`, with nothing left. */
  lemma BinaryOnTest()
    ensures BinaryParser(IntStandIn())("0+1*a")
         == Parsed(BinaryExprAst(IntLiteralAst(0), Add, BinaryExprAst(IntLiteralAst(1), Mult, IdentifierAst("a"))), "")
  {
    var ip := IntStandIn();
    var s := "0+1*a";
    SingleDigit(s);
    assert ip(s) == IntAt(s);
    assert FactorAt(ip, s) == Parsed(IntLiteralAst(0), "+1*a");
    assert "+1*a"[0] == '+' && "+1*a"[1..] == "1*a";
    assert From(['+']) == Success(Add);
    ExprOnOneTimesA();
    OperatorIsAbsorbed(ip, s);
  }

  /** "1)+2": the factor 1, since ")" is no operator. */
  lemma ExprOnOneParen()
    ensures ExprAt(IntStandIn(), "1)+2") == Parsed(IntLiteralAst(1), ")+2")
  {
    var ip := IntStandIn();
    SingleDigit("1)+2");
    NoOperatorMeansFactor(ip, "1)+2");
  }

  /** On "(1)+2" neither a factor nor a binary expression starts. */
  lemma NoFactorOnParen()
    ensures FactorAt(IntStandIn(), "(1)+2").Failed? && BinaryAt(IntStandIn(), "(1)+2").Failed?
  {
    var s := "(1)+2";
    NotAnInteger(s);
    assert IntStandIn()(s).Failed?;
    assert !IsIdentStart(s[0]);
    assert IdentifierAt(s).Failed?;
    assert FactorAt(IntStandIn(), s).Failed?;
  }

  /** The parenthesised alternative on "(1)+2" reads "(1)". */
  lemma ParenOnTest()
    ensures ParenAt(IntStandIn(), "(1)+2") == Parsed(IntLiteralAst(1), "+2")
  {
    var s := "(1)+2";
    assert SpaceRun(s) == 0;
    assert TrimStart(s) == s;
    assert StartsWith(s, "(") && s[1..] == "1)+2";
    ExprOnOneParen();
    assert StartsWith(")+2", ")") && ")+2"[1..] == "+2";
    assert SpaceRun("+2") == 0;
    ParenOfParts(IntStandIn(), s);
  }

  /** `ExprAST.parser()` on "(1)+2": a parenthesised expression is never a
      left operand, so the parse stops after ")". */
  lemma ParenthesisedIsNotLeftOperand()
    ensures ExprOf(IntStandIn())("(1)+2") == Parsed(IntLiteralAst(1), "+2")
  {
    NoFactorOnParen();
    ParenOnTest();
    assert ExprAt(IntStandIn(), "(1)+2") == ParenAt(IntStandIn(), "(1)+2");
  }

  /** "1 + 1;": the factor 1, since white space is not skipped before an
      operator. */
  lemma ExprOnSpacedSum()
    ensures ExprAt(IntStandIn(), "1 + 1;") == Parsed(IntLiteralAst(1), " + 1;")
  {
    var ip := IntStandIn();
    SingleDigit("1 + 1;");
    NoOperatorMeansFactor(ip, "1 + 1;");
  }

  /** The white space around "=" in "a = 1 + 1;". */
  lemma SpacesAroundEquals()
    ensures TrimStart(" = 1 + 1;") == "= 1 + 1;"
    ensures TrimStart("= 1 + 1;"[1..]) == "1 + 1;"
  {
    var m1 := " = 1 + 1;";
    assert SpaceRun(m1[1..]) == 0;
    var m2 := " 1 + 1;";
    assert "= 1 + 1;"[1..] == m2;
    assert SpaceRun(m2[1..]) == 0;
  }

  /** The assignment rule on "a = 1 + 1;". */
  lemma AssignAtOnTest()
    ensures AssignAt(IntStandIn(), "a = 1 + 1;") == Parsed(AssignStmtAst(IdentifierAst("a"), IntLiteralAst(1)), " + 1;")
  {
    var ip := IntStandIn();
    var s := "a = 1 + 1;";
    OneLetter(s);
    assert IdentifierAt(s) == Parsed(IdentifierAst("a"), " = 1 + 1;");
    SpacesAroundEquals();
    assert StartsWith("= 1 + 1;", "=");
    ExprOnSpacedSum();
    AssignShape(ip, s);
  }

  /** `AssignStmtAST.parser()` on "a = 1 + 1;": the assignment of 1 to a;
      the operator after the space is left unread. */
  lemma AssignOnTest()
    ensures Map(AssignSequence(IntStandIn()), MakeAssign)("a = 1 + 1;")
         == Parsed(AssignStmtAst(IdentifierAst("a"), IntLiteralAst(1)), " + 1;")
  {
    AssignAtOnTest();
    AssignParserBridge(IntStandIn(), "a = 1 + 1;");
  }
}
