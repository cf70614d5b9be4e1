/** Worked inputs for `nextOf` and `produce`. Each is first shown for any
    registry that files the relevant rules, then for the built catalogue;
    each input is any byte string that decodes to the text shown. */
module LexerExamples {
  import opened Wrappers
  import opened Chars
  import opened Tokens
  import opened Buffer
  import opened Patterns
  import opened TokenRules
  import opened Registry
  import opened Lexing
  import opened CatalogueFacts

  /** A fresh lexer over `bytes` with the registry `reg`. */
  function Fresh(reg: TokenRegistry, bytes: seq<Byte>): (lx: Lexer)
    ensures lx.Valid() && lx.View().Chars() == Decode(bytes)
    ensures lx.position == 0 && lx.line == 0 && lx.column == 0 && lx.returned == []
  {
    assert bytes[0..] == bytes;
    Lexer(reg, bytes, 0, 0, 0, [], [])
  }

  /** The catalogue lexer is the fresh lexer over the catalogue. */
  lemma OpenIsFresh(bytes: seq<Byte>)
    ensures Open(bytes) == Fresh(Catalogue, bytes)
  {
  }

  // ---------------------------------------------------------------------
  // What the catalogue patterns match on the example inputs.

  lemma IdentifierMatches(s: seq<char>)
    requires s == "structure" || s == "struct"
    ensures Match(IdentifierPattern, s) == Some(|s|)
  {
    var a := IdentifierPattern.atoms;
    assert Run(IdentPart, s[1..]) == |s| - 1 by {
      assert forall i :: 0 <= i < |s| - 1 ==> IsIdentPart(s[1..][i]);
    }
    assert AtomMatch(a[1], s[1..]) == Some(|s| - 1);
    assert ChainMatch(a[1..][1..], s[1..][|s| - 1..]) == Some(0);
    assert ChainMatch(a[1..], s[1..]) == Some(|s| - 1);
    assert AtomMatch(a[0], s) == Some(1);
  }

  lemma DecimalMatchesLeadingZero()
    ensures Match(DecimalPattern, "0x1F") == Some(1)
  {
    var s := "0x1F";
    var a := DecimalPattern.atoms;
    assert Run(Exactly('-'), s) == 0;
    assert AtomMatch(a[0], s) == Some(0);
    assert Run(Digit, s) == 1;
    assert AtomMatch(a[1], s[0..]) == Some(1);
    assert ChainMatch(a[1..][1..], s[0..][1..]) == Some(0);
    assert ChainMatch(a[1..], s[0..]) == Some(1);
  }

  lemma FractionMatchesMantissa()
    ensures Match(FractionPattern, "1.5e3") == Some(3)
  {
    var s := "1.5e3";
    var a := FractionPattern.atoms;
    assert Run(Exactly('-'), s) == 0;
    assert AtomMatch(a[0], s) == Some(0);
    assert Run(Digit, s[2..]) == 1;
    assert ChainMatch(a[3..], s[2..]) == Some(1) by {
      assert AtomMatch(a[3], s[2..]) == Some(1);
      assert ChainMatch(a[3..][1..], s[2..][1..]) == Some(0);
    }
    assert ChainMatch(a[2..], s[1..]) == Some(2) by {
      assert AtomMatch(a[2], s[1..]) == Some(1);
      assert a[2..][1..] == a[3..] && s[1..][1..] == s[2..];
    }
    assert ChainMatch(a[1..], s) == Some(3) by {
      assert Run(Digit, s) == 1;
      assert AtomMatch(a[1], s) == Some(1);
      assert a[1..][1..] == a[2..] && s[1..] == s[1..];
    }
    assert s[0..] == s;
  }

  // ---------------------------------------------------------------------
  // nextOf on the example inputs.

  /** On ">>>", asked for RIGHT_SHIFT and ARITHMETIC_RIGHT_SHIFT, the
      longer ARITHMETIC_RIGHT_SHIFT wins. */
  lemma ShiftsOn(reg: TokenRegistry, bytes: seq<Byte>)
    requires Decode(bytes) == ">>>"
    requires RulesFor(reg.rules, RightShift) == [OfPattern(RightShift, Literal(">>"))]
    requires RulesFor(reg.rules, ArithmeticRightShift) == [OfPattern(ArithmeticRightShift, Literal(">>>"))]
    ensures NextOf(Fresh(reg, bytes), [RightShift, ArithmeticRightShift]).token
         == Some(Token(ArithmeticRightShift, ">>>", 0, 0))
  {
    var lx := Fresh(reg, bytes);
    assert CharOf(bytes[0]) == '>';
    SkipNothing(lx);
    var view := lx.View();
    LiteralRuleProduces(OfPattern(RightShift, Literal(">>")), view, 0, 0);
    LiteralRuleProduces(OfPattern(ArithmeticRightShift, Literal(">>>")), view, 0, 0);
    var c := Candidates(reg, [RightShift, ArithmeticRightShift], view, 0, 0);
    assert c[0] == Some(Token(RightShift, ">>", 0, 0));
    assert c[1] == Some(Token(ArithmeticRightShift, ">>>", 0, 0));
    AdvanceTakes(lx, c, 1);
  }

  lemma LongestOperatorWins(bytes: seq<Byte>)
    requires Decode(bytes) == ">>>"
    ensures NextOf(Open(bytes), [RightShift, ArithmeticRightShift]).token
         == Some(Token(ArithmeticRightShift, ">>>", 0, 0))
  {
    CatalogueRightShift();
    CatalogueArithmeticRightShift();
    ShiftsOn(Catalogue, bytes);
    OpenIsFresh(bytes);
  }

  /** STRUCT's keyword rule reads "struct" at the start of a view that
      begins with it. */
  lemma StructCandidate(reg: TokenRegistry, view: BufferView)
    requires view.Valid() && StartsWith(view.Chars(), "struct")
    requires RulesFor(reg.rules, Struct) == [Keyword(Struct)]
    ensures ProduceKind(reg, Struct, view, 0, 0) == Some(Token(Struct, "struct", 0, 0))
  {
    assert Lower(Name(Struct)) == "struct";
    KeywordMatchesPrefix(Struct, view, 0, 0);
    FirstRuleWins(reg, Struct, view, 0, 0);
  }

  /** IDENTIFIER's rule reads the whole of `word`. */
  lemma IdentifierCandidate(reg: TokenRegistry, view: BufferView, word: seq<char>)
    requires word == "structure" || word == "struct"
    requires view.Valid() && view.Chars() == word
    requires RulesFor(reg.rules, Identifier) == [Of(Identifier, IdentifierPattern, Identifier)]
    ensures ProduceKind(reg, Identifier, view, 0, 0) == Some(Token(Identifier, word, 0, 0))
  {
    IdentifierMatches(word);
    assert view.Chars()[..|word|] == word;
    FirstRuleWins(reg, Identifier, view, 0, 0);
  }

  /** Asked for STRUCT then IDENTIFIER on `word`, the lexer returns the
      longer candidate and, on a tie, the kind asked for first. */
  lemma StructOrIdentifierOn(reg: TokenRegistry, bytes: seq<Byte>, word: seq<char>)
    requires word == "structure" || word == "struct"
    requires Decode(bytes) == word
    requires RulesFor(reg.rules, Struct) == [Keyword(Struct)]
    requires RulesFor(reg.rules, Identifier) == [Of(Identifier, IdentifierPattern, Identifier)]
    ensures NextOf(Fresh(reg, bytes), [Struct, Identifier]).token
         == if word == "struct" then Some(Token(Struct, "struct", 0, 0)) else Some(Token(Identifier, word, 0, 0))
  {
    var lx := Fresh(reg, bytes);
    assert CharOf(bytes[0]) == 's';
    SkipNothing(lx);
    var view := lx.View();
    assert StartsWith(view.Chars(), "struct");
    StructCandidate(reg, view);
    IdentifierCandidate(reg, view, word);
    var c := Candidates(reg, [Struct, Identifier], view, 0, 0);
    assert c[0] == Some(Token(Struct, "struct", 0, 0));
    assert c[1] == Some(Token(Identifier, word, 0, 0));
    if word == "struct" {
      AdvanceTakes(lx, c, 0);
    } else {
      AdvanceTakes(lx, c, 1);
    }
  }

  /** "structure" is one identifier, not the keyword STRUCT and a rest. */
  lemma IdentifierBeatsKeywordPrefix(bytes: seq<Byte>)
    requires Decode(bytes) == "structure"
    ensures NextOf(Open(bytes), [Struct, Identifier]).token == Some(Token(Identifier, "structure", 0, 0))
  {
    CatalogueStruct();
    CatalogueIdentifier();
    StructOrIdentifierOn(Catalogue, bytes, "structure");
    OpenIsFresh(bytes);
  }

  /** On "struct" both kinds read six characters; the kind asked for
      first, STRUCT, wins. */
  lemma TieGoesToFirstKind(bytes: seq<Byte>)
    requires Decode(bytes) == "struct"
    ensures NextOf(Open(bytes), [Struct, Identifier]).token == Some(Token(Struct, "struct", 0, 0))
  {
    CatalogueStruct();
    CatalogueIdentifier();
    StructOrIdentifierOn(Catalogue, bytes, "struct");
    OpenIsFresh(bytes);
  }

  /** INTEGER's first rule is the decimal one, so "0x1F" reads as "0"
      even though the hexadecimal rule would match the whole text. */
  lemma FirstIntegerRuleOn(reg: TokenRegistry, bytes: seq<Byte>)
    requires Decode(bytes) == "0x1F"
    requires |RulesFor(reg.rules, Integer)| > 0
    requires RulesFor(reg.rules, Integer)[0] == Of(Integer, DecimalPattern, Integer)
    ensures NextOf(Fresh(reg, bytes), [Integer]).token == Some(Token(Integer, "0", 0, 0))
  {
    var lx := Fresh(reg, bytes);
    assert CharOf(bytes[0]) == '0';
    SkipNothing(lx);
    var view := lx.View();
    DecimalMatchesLeadingZero();
    assert view.Chars()[..1] == "0";
    FirstRuleWins(reg, Integer, view, 0, 0);
    var c := Candidates(reg, [Integer], view, 0, 0);
    assert c[0] == Some(Token(Integer, "0", 0, 0));
    AdvanceTakes(lx, c, 0);
  }

  lemma HexReadsAsDecimalZero(bytes: seq<Byte>)
    requires Decode(bytes) == "0x1F"
    ensures NextOf(Open(bytes), [Integer]).token == Some(Token(Integer, "0", 0, 0))
  {
    CatalogueIntegerFirst();
    FirstIntegerRuleOn(Catalogue, bytes);
    OpenIsFresh(bytes);
  }

  /** FLOAT's first rule is the plain fraction, so "1.5e3" reads as "1.5". */
  lemma FirstFloatRuleOn(reg: TokenRegistry, bytes: seq<Byte>)
    requires Decode(bytes) == "1.5e3"
    requires |RulesFor(reg.rules, Float)| > 0
    requires RulesFor(reg.rules, Float)[0] == Of(Float, FractionPattern, Float)
    ensures NextOf(Fresh(reg, bytes), [Float]).token == Some(Token(Float, "1.5", 0, 0))
  {
    var lx := Fresh(reg, bytes);
    assert CharOf(bytes[0]) == '1';
    SkipNothing(lx);
    var view := lx.View();
    FractionMatchesMantissa();
    assert view.Chars()[..3] == "1.5";
    FirstRuleWins(reg, Float, view, 0, 0);
    var c := Candidates(reg, [Float], view, 0, 0);
    assert c[0] == Some(Token(Float, "1.5", 0, 0));
    AdvanceTakes(lx, c, 0);
  }

  lemma ExponentIsLeftBehind(bytes: seq<Byte>)
    requires Decode(bytes) == "1.5e3"
    ensures NextOf(Open(bytes), [Float]).token == Some(Token(Float, "1.5", 0, 0))
  {
    CatalogueFloatFirst();
    FirstFloatRuleOn(Catalogue, bytes);
    OpenIsFresh(bytes);
  }
}
