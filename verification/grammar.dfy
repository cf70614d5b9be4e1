/** The expression grammar of the `ast` package: identifiers, factors,
    right-recursive binary expressions without precedence, parenthesised
    expressions and assignments. Each rule is a first-order function of
    the input, and a bridge shows that the combinator expression the Java
    `parser()` method builds computes the same outcome on every input. */
module Grammar {
  import opened Wrappers
  import opened Chars
  import opened Ast
  import opened Combinators

  // ---------------------------------------------------------------------
  // Integer literals. `IntLiteralAST.parser()` is called but not defined
  // in the repository, so the grammar takes the integer parser as a
  // parameter: any parser that yields an integer literal and consumes
  // input when it succeeds.

  ghost predicate IsIntParser(p: Parser)
  {
    && Progressing(p)
    && forall s :: p(s).Parsed? ==> p(s).ast.IntLiteralAst?
  }

  type IntParser = p: Parser | IsIntParser(p) witness IntStandIn()

  /** The length of the run of decimal digits at the front of `s`. */
  function DigitRun(s: seq<char>): (n: nat)
    ensures n <= |s|
    ensures forall i :: 0 <= i < n ==> IsDigit(s[i])
    ensures n < |s| ==> !IsDigit(s[n])
  {
    if s != [] && IsDigit(s[0]) then 1 + DigitRun(s[1..]) else 0
  }

  /** The value of a string of decimal digits. */
  function DecimalValue(ds: seq<char>): nat
  {
    if ds == [] then 0 else DecimalValue(ds[..|ds| - 1]) * 10 + (ds[|ds| - 1] as int - '0' as int) % 10
  }

  /** `s` without one leading minus sign. */
  function Unsigned(s: seq<char>): (r: seq<char>)
    ensures IsSuffix(r, s)
  {
    if s != [] && s[0] == '-' then s[1..] else s
  }

  /** A stand-in for the missing integer parser, `-?[0-9]+`: an optional
      minus sign and the longest run of digits after it, read as an
      unbounded integer. */
  function IntAt(s: seq<char>): (r: Outcome)
    ensures r.Parsed? <==> DigitRun(Unsigned(s)) > 0
    ensures r.Parsed? ==> r.ast.IntLiteralAst? && r.rest == Unsigned(s)[DigitRun(Unsigned(s))..]
    ensures r.Parsed? ==> IsSuffix(r.rest, s) && |r.rest| < |s|
    ensures r.Parsed? ==> (r.ast.number < 0 ==> s[0] == '-')
    ensures !r.Parsed? ==> r == Failed("Expected an integer")
  {
    var u := Unsigned(s);
    var n := DigitRun(u);
    if n == 0 then Failed("Expected an integer")
    else
      var v: int := DecimalValue(u[..n]);
      SuffixTrans(u[n..], u, s);
      Parsed(IntLiteralAst(if u != s then -v else v), u[n..])
  }

  function IntStandIn(): (p: Parser)
    ensures forall s :: p(s) == IntAt(s)
    ensures IsIntParser(p)
  {
    s => IntAt(s)
  }

  // ---------------------------------------------------------------------
  // IdentifierAST

  /** The length of the run of identifier characters at the front of `s`. */
  function IdentRun(s: seq<char>): (n: nat)
    ensures n <= |s|
    ensures forall i :: 0 <= i < n ==> IsIdentPart(s[i])
    ensures n < |s| ==> !IsIdentPart(s[n])
  {
    if s != [] && IsIdentPart(s[0]) then 1 + IdentRun(s[1..]) else 0
  }

  /** `[_a-zA-Z][_a-zA-Z0-9]*` with `lookingAt`: a start character and the
      longest run of identifier characters after it; no groups. */
  function IdentMatcher(): (m: Matcher)
    ensures IsPrefixMatcher(m)
    ensures forall s :: m(s) == if s != [] && IsIdentStart(s[0]) then Some(Match(1 + IdentRun(s[1..]), [])) else None
  {
    s => if s != [] && IsIdentStart(s[0]) then Some(Match(1 + IdentRun(s[1..]), [])) else None
  }

  /** What `IdentifierAST.parser()` does on `s`: succeeds exactly on a
      letter or `_`, reads the longest identifier there and holds exactly
      its text; otherwise "Invalid identifier". */
  function IdentifierAt(s: seq<char>): (r: Outcome)
    ensures r.Parsed? <==> s != [] && IsIdentStart(s[0])
    ensures !r.Parsed? ==> r == Failed("Invalid identifier")
    ensures r.Parsed? ==> r.ast.IdentifierAst? && s == r.ast.identifier + r.rest && |r.ast.identifier| >= 1
    ensures r.Parsed? ==> forall i :: 0 <= i < |r.ast.identifier| ==> IsIdentPart(r.ast.identifier[i])
    ensures r.Parsed? ==> r.rest == [] || !IsIdentPart(r.rest[0])
    ensures r.Parsed? ==> IsSuffix(r.rest, s) && |r.rest| < |s|
  {
    if s != [] && IsIdentStart(s[0]) then
      var n := 1 + IdentRun(s[1..]);
      assert forall i :: 1 <= i < n ==> s[i] == s[1..][i - 1];
      assert s == s[..n] + s[n..];
      Parsed(IdentifierAst(s[..n]), s[n..])
    else Failed("Invalid identifier")
  }

  /** The mapping of `IdentifierAST.parser()`: the matched text. */
  function ToIdentifier(a: Ast): Result<Ast>
  {
    if a.RegexAst? then Success(IdentifierAst(a.matched)) else Failure("ClassCastException")
  }

  lemma IdentifierBridge(s: seq<char>)
    ensures MapAt(Regex(IdentMatcher(), "Invalid identifier"), ToIdentifier, s) == IdentifierAt(s)
  {
    var m := IdentMatcher();
    var re := Regex(m, "Invalid identifier");
    assert re(s) == RegexAt(m, "Invalid identifier", s);
  }

  /** `IdentifierAST.parser()`:
      `map(regex("[_a-zA-Z][_a-zA-Z0-9]*", "Invalid identifier"), ...)`. */
  function IdentifierParser(): (p: Parser)
    ensures forall s :: p(s) == IdentifierAt(s)
  {
    var p := Map(Regex(IdentMatcher(), "Invalid identifier"), ToIdentifier);
    forall s
      ensures p(s) == IdentifierAt(s)
    {
      IdentifierBridge(s);
    }
    p
  }

  // ---------------------------------------------------------------------
  // FactorExprAST

  /** What `FactorExprAST.parser()` does on `s`: the integer parser's
      outcome, a crash included, unless it throws a `ParseException`; then
      the identifier parser's. */
  function FactorAt(ip: IntParser, s: seq<char>): (r: Outcome)
    ensures !ip(s).Failed? ==> r == ip(s)
    ensures ip(s).Failed? ==> r == IdentifierAt(s)
    ensures r.Failed? <==> ip(s).Failed? && !(s != [] && IsIdentStart(s[0]))
    ensures r.Failed? ==> r == Failed("Invalid identifier")
    ensures r.Parsed? ==> r.ast.IntLiteralAst? || r.ast.IdentifierAst?
    ensures r.Parsed? ==> IsSuffix(r.rest, s) && |r.rest| < |s|
  {
    if ip(s).Failed? then IdentifierAt(s) else ip(s)
  }

  /** `FactorExprAST.parser()`:
      `oneOf(IntLiteralAST.parser(), IdentifierAST.parser())`. */
  function Factor(ip: IntParser): (p: Parser)
    ensures forall s :: p(s) == FactorAt(ip, s)
  {
    var id := IdentifierParser();
    forall s
      ensures FirstOf([ip, id], s) == FactorAt(ip, s)
    {
      FirstOfTwo(ip, id, s);
    }
    OneOf([ip, id]).value
  }

  // ---------------------------------------------------------------------
  // The operators of BinaryExprAST

  /** The operator characters. */
  predicate IsOperatorChar(c: char)
  {
    c == '+' || c == '-' || c == '*' || c == '/' || c == '%'
  }

  /** What `oneOf(literal("+"), ..., literal("%"))` does on `s`: one
      operator character, which `BinaryOp.from` accepts; at the end of the
      input an unexpected end, otherwise the last alternative's
      expectation. */
  function OperatorAt(s: seq<char>): (r: Outcome)
    ensures r.Parsed? <==> s != [] && IsOperatorChar(s[0])
    ensures r.Parsed? ==> r.ast.LiteralAst? && s == r.ast.literal + r.rest && |r.ast.literal| == 1
    ensures r.Parsed? ==> From(r.ast.literal).Success?
    ensures !r.Parsed? ==> r == Failed(if s == [] then UnexpectedEof else ExpectedLiteral("%"))
  {
    if s != [] && IsOperatorChar(s[0]) then
      assert s == [s[0]] + s[1..];
      Parsed(LiteralAst([s[0]]), s[1..])
    else Failed(if s == [] then UnexpectedEof else ExpectedLiteral("%"))
  }

  /** The five operator literals, in the order `BinaryExprAST.parser()`
      lists them. */
  function OperatorLiterals(): seq<Parser>
  {
    [Literal("+"), Literal("-"), Literal("*"), Literal("/"), Literal("%")]
  }

  /** A one-character literal reads exactly that character. */
  lemma SingleLiteral(c: char, s: seq<char>)
    ensures Literal([c])(s) == if s == [] then Failed(UnexpectedEof)
                              else if s[0] == c then Parsed(LiteralAst([c]), s[1..])
                              else Failed(ExpectedLiteral([c]))
  {
    if s != [] {
      assert StartsWith(s, [c]) <==> s[0] == c;
    }
  }

  /** One step of `oneOf`: the head is kept unless it throws a
      `ParseException`. */
  lemma FirstOfCons(ps: seq<Parser>, s: seq<char>)
    requires |ps| >= 2
    ensures FirstOf(ps, s) == if ps[0](s).Failed? then FirstOf(ps[1..], s) else ps[0](s)
  {
  }

  lemma OperatorBridge(s: seq<char>)
    ensures FirstOf(OperatorLiterals(), s) == OperatorAt(s)
  {
    var ps := OperatorLiterals();
    var p1 := ps[1..];
    var p2 := p1[1..];
    var p3 := p2[1..];
    assert p3 == [Literal("/"), Literal("%")];
    SingleLiteral('+', s);
    SingleLiteral('-', s);
    SingleLiteral('*', s);
    SingleLiteral('/', s);
    SingleLiteral('%', s);
    FirstOfCons(ps, s);
    FirstOfCons(p1, s);
    FirstOfCons(p2, s);
    FirstOfTwo(Literal("/"), Literal("%"), s);
  }

  /** The operator alternative of `BinaryExprAST.parser()`. */
  function Operator(): (p: Parser)
    ensures forall s :: p(s) == OperatorAt(s)
  {
    forall s
      ensures FirstOf(OperatorLiterals(), s) == OperatorAt(s)
    {
      OperatorBridge(s);
    }
    OneOf(OperatorLiterals()).value
  }

  // ---------------------------------------------------------------------
  // BinaryExprAST and ExprAST

  /** The mapping of `BinaryExprAST.parser()`: the three trees of the
      sequence as left operand, operator and right operand, each cast as
      the source casts it, and the operator read by `BinaryOp.from`. */
  function MakeBinary(a: Ast): (r: Result<Ast>)
    ensures r.Success? <==> a.SequenceAst? && |a.values| >= 3 && IsExpr(a.values[0]) && a.values[1].LiteralAst?
                            && IsExpr(a.values[2]) && From(a.values[1].literal).Success?
    ensures r.Success? ==> r.value == BinaryExprAst(a.values[0], From(a.values[1].literal).value, a.values[2])
  {
    if !a.SequenceAst? then Failure("ClassCastException")
    else if |a.values| < 3 then Failure("IndexOutOfBoundsException")
    else if !IsExpr(a.values[0]) || !a.values[1].LiteralAst? || !IsExpr(a.values[2]) then Failure("ClassCastException")
    else
      match From(a.values[1].literal)
      case Success(op) => Success(BinaryExprAst(a.values[0], op, a.values[2]))
      case Failure(e) => Failure(e)
  }

  /** What `ExprAST.parser()` does on `s`: a binary expression, else a
      factor, else a parenthesised expression; the first outcome that is
      not a `ParseException` wins, and when all are, the last one's. */
  function ExprAt(ip: IntParser, s: seq<char>): (r: Outcome)
    ensures r.Parsed? ==> IsExpr(r.ast) && IsSuffix(r.rest, s) && |r.rest| < |s|
    decreases |s|, 2
  {
    var b := BinaryAt(ip, s);
    if !b.Failed? then b
    else
      var f := FactorAt(ip, s);
      if !f.Failed? then f
      else ParenAt(ip, s)
  }

  /** What `BinaryExprAST.parser()` does on `s`: a factor as the left
      operand, exactly one operator right after it, then a whole
      expression as the right operand, with no white space skipped. */
  function BinaryAt(ip: IntParser, s: seq<char>): (r: Outcome)
    ensures r.Parsed? ==> r.ast.BinaryExprAst? && IsExpr(r.ast.right) && IsSuffix(r.rest, s) && |r.rest| < |s|
    ensures r.Parsed? ==> FactorAt(ip, s).Parsed? && r.ast.left == FactorAt(ip, s).ast
    ensures FactorAt(ip, s).Parsed? && !OperatorAt(FactorAt(ip, s).rest).Parsed? ==> r == OperatorAt(FactorAt(ip, s).rest)
    ensures !FactorAt(ip, s).Parsed? ==> r == FactorAt(ip, s)
    decreases |s|, 1
  {
    match FactorAt(ip, s)
    case Parsed(left, m1) =>
      (match OperatorAt(m1)
       case Parsed(opAst, m2) =>
         SuffixTrans(m2, m1, s);
         (match ExprAt(ip, m2)
          case Parsed(right, m3) =>
            SuffixTrans(m3, m2, s);
            (match MakeBinary(SequenceAst([left, opAst, right]))
             case Success(b) => Parsed(b, m3)
             case Failure(e) => Crashed(e))
          case other => other)
       case other => other)
    case other => other
  }

  /** What the parenthesised alternative of `ExprAST.parser()` does on
      `s`: white space, "(", an expression, ")", white space, keeping only
      the inner expression. */
  function ParenAt(ip: IntParser, s: seq<char>): (r: Outcome)
    ensures r.Parsed? ==> IsExpr(r.ast) && IsSuffix(r.rest, s) && |r.rest| < |s|
    ensures !StartsWith(TrimStart(s), "(") ==> r == LiteralAt("(", TrimStart(s))
    decreases |s|, 1
  {
    var t := TrimStart(s);
    var open := LiteralAt("(", t);
    if !open.Parsed? then open
    else
      var m1 := t[1..];
      assert open.rest == m1;
      var inner := ExprAt(ip, m1);
      if !inner.Parsed? then inner
      else
        var close := LiteralAt(")", inner.rest);
        if !close.Parsed? then close
        else
          var m3 := close.rest;
          RestAfterParen(s, t, m1, inner.rest, m3);
          Parsed(inner.ast, TrimStart(m3))
  }

  /** A parenthesised expression is the expression after "(" in the
      trimmed input, and no white space is left in front of the rest. */
  lemma ParenShape(ip: IntParser, s: seq<char>)
    requires ParenAt(ip, s).Parsed?
    ensures StartsWith(TrimStart(s), "(") && ExprAt(ip, TrimStart(s)[1..]).Parsed?
    ensures ParenAt(ip, s).ast == ExprAt(ip, TrimStart(s)[1..]).ast
    ensures TrimStart(ParenAt(ip, s).rest) == ParenAt(ip, s).rest
  {
    var t := TrimStart(s);
    assert LiteralAt("(", t).Parsed?;
    assert LiteralAt("(", t).rest == t[1..];
    var inner := ExprAt(ip, t[1..]);
    assert inner.Parsed?;
    TrimIdempotent(LiteralAt(")", inner.rest).rest);
  }

  /** Conversely, "(" in the trimmed input, an expression after it and ")"
      after that make a parenthesised expression ending after the white
      space that follows ")". */
  lemma ParenOfParts(ip: IntParser, s: seq<char>)
    requires StartsWith(TrimStart(s), "(")
    requires ExprAt(ip, TrimStart(s)[1..]).Parsed?
    requires StartsWith(ExprAt(ip, TrimStart(s)[1..]).rest, ")")
    ensures ParenAt(ip, s) == Parsed(ExprAt(ip, TrimStart(s)[1..]).ast,
                                     TrimStart(ExprAt(ip, TrimStart(s)[1..]).rest[1..]))
  {
    var t := TrimStart(s);
    assert LiteralAt("(", t).rest == t[1..];
    var inner := ExprAt(ip, t[1..]);
    assert LiteralAt(")", inner.rest).rest == inner.rest[1..];
  }

  /** The suffixes read off in a parenthesised expression chain up. */
  lemma RestAfterParen(s: seq<char>, t: seq<char>, m1: seq<char>, m2: seq<char>, m3: seq<char>)
    requires t == TrimStart(s) && t != [] && m1 == t[1..]
    requires IsSuffix(m2, m1) && IsSuffix(m3, m2)
    ensures IsSuffix(TrimStart(m3), s) && |TrimStart(m3)| < |s|
    ensures TrimStart(TrimStart(m3)) == TrimStart(m3)
  {
    assert IsSuffix(m1, t);
    SuffixTrans(m1, t, s);
    SuffixTrans(m2, m1, s);
    SuffixTrans(m3, m2, s);
    SuffixTrans(TrimStart(m3), m3, s);
    TrimIdempotent(m3);
  }

  /** Trimming twice is trimming once. */
  lemma TrimIdempotent(s: seq<char>)
    ensures TrimStart(TrimStart(s)) == TrimStart(s)
  {
    var t := TrimStart(s);
    assert SpaceRun(t) == 0;
  }

  // ---------------------------------------------------------------------
  // The combinator expressions of the Java `parser()` methods compute the
  // functions above.

  /** `(input) -> ExprAST.parser().parse(input)`. */
  function ExprParser(ip: IntParser): (p: Parser)
    ensures forall s :: p(s) == ExprAt(ip, s)
  {
    s => ExprAt(ip, s)
  }

  lemma BinaryBridge(ip: IntParser, s: seq<char>)
    ensures MapAt(Sequence([Factor(ip), Operator(), ExprParser(ip)]).value, MakeBinary, s) == BinaryAt(ip, s)
  {
    var sq := Sequence([Factor(ip), Operator(), ExprParser(ip)]).value;
    ThreadThree(Factor(ip), Operator(), ExprParser(ip), s);
    assert sq(s) == Triple(Factor(ip), Operator(), ExprParser(ip), s);
    var f := FactorAt(ip, s);
    assert Factor(ip)(s) == f;
    if !f.Parsed? {
      assert MapAt(sq, MakeBinary, s) == f;
    } else {
      var o := OperatorAt(f.rest);
      assert Operator()(f.rest) == o;
      if !o.Parsed? {
        assert MapAt(sq, MakeBinary, s) == o;
      } else {
        var e := ExprAt(ip, o.rest);
        assert ExprParser(ip)(o.rest) == e;
        if !e.Parsed? {
          assert MapAt(sq, MakeBinary, s) == e;
        } else {
          assert sq(s) == Parsed(SequenceAst([f.ast, o.ast, e.ast]), e.rest);
          MapOfTriple(sq, MakeBinary, s, f.ast, o.ast, e.ast, e.rest);
        }
      }
    }
  }

  /** `BinaryExprAST.parser()`: `map(sequence(FactorExprAST.parser(),
      oneOf(literal("+"), ...), ExprAST.parser()), ...)`, with the right
      operand deferred behind a lambda as the parenthesised alternative
      of `ExprAST.parser()` defers its own; the eager call as written is
      modelled in `Construction`. */
  function BinaryParser(ip: IntParser): (p: Parser)
    ensures forall s :: p(s) == BinaryAt(ip, s)
  {
    var p := Map(Sequence([Factor(ip), Operator(), ExprParser(ip)]).value, MakeBinary);
    forall s
      ensures p(s) == BinaryAt(ip, s)
    {
      BinaryBridge(ip, s);
    }
    p
  }

  /** `sequence(literal("("), expr, literal(")"))`. */
  function Parenthesised(ip: IntParser): (p: Parser)
    ensures forall s :: p(s) == Triple(Literal("("), ExprParser(ip), Literal(")"), s)
  {
    var p := Sequence([Literal("("), ExprParser(ip), Literal(")")]).value;
    forall s
      ensures p(s) == Triple(Literal("("), ExprParser(ip), Literal(")"), s)
    {
      ThreadThree(Literal("("), ExprParser(ip), Literal(")"), s);
    }
    p
  }

  lemma ParenBridge(ip: IntParser, s: seq<char>)
    ensures MapAt(SkipWhitespace(Parenthesised(ip)), Middle, s) == ParenAt(ip, s)
  {
    var t := TrimStart(s);
    var inner := Parenthesised(ip);
    var sw := SkipWhitespace(inner);
    assert sw(s) == SkipWhitespaceAt(inner, s);
    assert inner(t) == Triple(Literal("("), ExprParser(ip), Literal(")"), t);
    var open := LiteralAt("(", t);
    assert Literal("(")(t) == open;
    if !open.Parsed? {
      assert MapAt(sw, Middle, s) == open;
      assert ParenAt(ip, s) == open;
    } else {
      var m1 := open.rest;
      var e := ExprAt(ip, m1);
      assert ExprParser(ip)(m1) == e;
      if !e.Parsed? {
        assert MapAt(sw, Middle, s) == e;
        assert ParenAt(ip, s) == e;
      } else {
        var close := LiteralAt(")", e.rest);
        assert Literal(")")(e.rest) == close;
        if !close.Parsed? {
          assert MapAt(sw, Middle, s) == close;
          assert ParenAt(ip, s) == close;
        } else {
          assert inner(t) == Parsed(SequenceAst([open.ast, e.ast, close.ast]), close.rest);
          assert sw(s) == Parsed(SequenceAst([open.ast, e.ast, close.ast]), TrimStart(close.rest));
          MiddleOfTriple(sw, s, open.ast, e.ast, close.ast, TrimStart(close.rest));
          assert ParenAt(ip, s) == Parsed(e.ast, TrimStart(close.rest));
        }
      }
    }
  }

  /** The parenthesised alternative: `map(skipWhitespace(sequence(
      literal("("), expr, literal(")"))), ast -> values().get(1))`. */
  function ParenParser(ip: IntParser): (p: Parser)
    ensures forall s :: p(s) == ParenAt(ip, s)
  {
    var p := Map(SkipWhitespace(Parenthesised(ip)), Middle);
    forall s
      ensures p(s) == ParenAt(ip, s)
    {
      ParenBridge(ip, s);
    }
    p
  }

  lemma FirstOfThree(p1: Parser, p2: Parser, p3: Parser, s: seq<char>)
    ensures FirstOf([p1, p2, p3], s) == if !p1(s).Failed? then p1(s) else if !p2(s).Failed? then p2(s) else p3(s)
  {
    var ps := [p1, p2, p3];
    FirstOfCons(ps, s);
    assert ps[1..] == [p2, p3];
    FirstOfTwo(p2, p3, s);
  }

  /** `ExprAST.parser()`: `oneOf(BinaryExprAST.parser(),
      FactorExprAST.parser(), <parenthesised>)`. */
  function ExprOf(ip: IntParser): (p: Parser)
    ensures forall s :: p(s) == ExprAt(ip, s)
  {
    var alts := [BinaryParser(ip), Factor(ip), ParenParser(ip)];
    forall s
      ensures FirstOf(alts, s) == ExprAt(ip, s)
    {
      FirstOfThree(BinaryParser(ip), Factor(ip), ParenParser(ip), s);
    }
    OneOf(alts).value
  }
}
