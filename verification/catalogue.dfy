/** Facts about the built catalogue: which rules each kind receives. */
module CatalogueFacts {
  import opened Tokens
  import opened Patterns
  import opened TokenRules
  import opened Registry
  import opened Lexing

  /** Filing eight lists joined in order is filing each in turn. */
  lemma FilterEight(g1: seq<Rule>, g2: seq<Rule>, g3: seq<Rule>, g4: seq<Rule>,
                    g5: seq<Rule>, g6: seq<Rule>, g7: seq<Rule>, g8: seq<Rule>, k: TokenType)
    ensures Filter(g1 + g2 + g3 + g4 + g5 + g6 + g7 + g8, k)
         == Filter(g1, k) + Filter(g2, k) + Filter(g3, k) + Filter(g4, k)
          + Filter(g5, k) + Filter(g6, k) + Filter(g7, k) + Filter(g8, k)
  {
    FilterAppend(g1 + g2 + g3 + g4 + g5 + g6 + g7, g8, k);
    FilterAppend(g1 + g2 + g3 + g4 + g5 + g6, g7, k);
    FilterAppend(g1 + g2 + g3 + g4 + g5, g6, k);
    FilterAppend(g1 + g2 + g3 + g4, g5, k);
    FilterAppend(g1 + g2 + g3, g4, k);
    FilterAppend(g1 + g2, g3, k);
    FilterAppend(g1, g2, k);
  }

  /** The catalogue files under each kind exactly the rules of that kind
      from each registration group, group after group. */
  lemma CatalogueByGroup(k: TokenType)
    ensures RulesFor(Catalogue.rules, k)
         == Filter(KeywordRules, k) + Filter(TypeRules, k) + Filter(LiteralRules, k) + Filter(DelimiterRules, k)
          + Filter(OperatorRules, k) + Filter(AssignmentRules, k) + Filter(ComparisonRules, k) + Filter(MiscRules, k)
  {
    assert RulesFor(Catalogue.rules, k) == Filter(Registrations, k);
    FilterEight(KeywordRules, TypeRules, LiteralRules, DelimiterRules,
                OperatorRules, AssignmentRules, ComparisonRules, MiscRules, k);
  }

  const LiteralKinds := {Identifier, Integer, Float, String, Char}
  const DelimiterKinds := {LeftParen, RightParen, LeftBrace, RightBrace, LeftBracket, RightBracket,
                           Comma, Semicolon, Colon, Dot, Question, Exclamation}
  const OperatorKinds := {Plus, Minus, Star, Slash, Percent, Ampersand, Pipe, Caret, Tilde,
                          LeftShift, RightShift, ArithmeticRightShift}
  const AssignmentKinds := {Equal, PlusEqual, MinusEqual, StarEqual, SlashEqual, PercentEqual, AmpersandEqual,
                            PipeEqual, CaretEqual, LeftShiftEqual, RightShiftEqual, ArithmeticRightShiftEqual}
  const ComparisonKinds := {EqualEqual, NotEqual, Less, LessEqual, Greater, GreaterEqual}

  // Every group registers only kinds of its own family, and so files
  // nothing under a kind outside it.

  lemma KeywordGroupKinds()
    ensures forall i :: 0 <= i < |KeywordRules| ==> KeywordRules[i].kind in KeywordKinds
  {
  }

  lemma KeywordGroupSilent(k: TokenType)
    requires k !in KeywordKinds
    ensures Filter(KeywordRules, k) == []
  {
    KeywordGroupKinds();
    FilterUniform(KeywordRules, k);
  }

  lemma TypeGroupKinds()
    ensures forall i :: 0 <= i < |TypeRules| ==> TypeRules[i].kind in TypeKinds
  {
  }

  lemma TypeGroupSilent(k: TokenType)
    requires k !in TypeKinds
    ensures Filter(TypeRules, k) == []
  {
    TypeGroupKinds();
    FilterUniform(TypeRules, k);
  }

  lemma LiteralGroupKinds()
    ensures forall i :: 0 <= i < |LiteralRules| ==> LiteralRules[i].kind in LiteralKinds
  {
  }

  lemma LiteralGroupSilent(k: TokenType)
    requires k !in LiteralKinds
    ensures Filter(LiteralRules, k) == []
  {
    LiteralGroupKinds();
    FilterUniform(LiteralRules, k);
  }

  lemma DelimiterGroupKinds()
    ensures forall i :: 0 <= i < |DelimiterRules| ==> DelimiterRules[i].kind in DelimiterKinds
  {
  }

  lemma DelimiterGroupSilent(k: TokenType)
    requires k !in DelimiterKinds
    ensures Filter(DelimiterRules, k) == []
  {
    DelimiterGroupKinds();
    FilterUniform(DelimiterRules, k);
  }

  lemma OperatorGroupKinds()
    ensures forall i :: 0 <= i < |OperatorRules| ==> OperatorRules[i].kind in OperatorKinds
  {
  }

  lemma OperatorGroupSilent(k: TokenType)
    requires k !in OperatorKinds
    ensures Filter(OperatorRules, k) == []
  {
    OperatorGroupKinds();
    FilterUniform(OperatorRules, k);
  }

  lemma AssignmentGroupKinds()
    ensures forall i :: 0 <= i < |AssignmentRules| ==> AssignmentRules[i].kind in AssignmentKinds
  {
  }

  lemma AssignmentGroupSilent(k: TokenType)
    requires k !in AssignmentKinds
    ensures Filter(AssignmentRules, k) == []
  {
    AssignmentGroupKinds();
    FilterUniform(AssignmentRules, k);
  }

  lemma ComparisonGroupKinds()
    ensures forall i :: 0 <= i < |ComparisonRules| ==> ComparisonRules[i].kind in ComparisonKinds
  {
  }

  lemma ComparisonGroupSilent(k: TokenType)
    requires k !in ComparisonKinds
    ensures Filter(ComparisonRules, k) == []
  {
    ComparisonGroupKinds();
    FilterUniform(ComparisonRules, k);
  }

  lemma MiscGroupSilent(k: TokenType)
    requires k != Arrow
    ensures Filter(MiscRules, k) == []
  {
    FilterUniform(MiscRules, k);
  }

  /** An operator kind receives only rules of the operator group. */
  lemma OperatorFamily(k: TokenType)
    requires k in OperatorKinds
    requires k !in KeywordKinds && k !in TypeKinds
    requires k !in LiteralKinds && k !in DelimiterKinds && k !in AssignmentKinds && k !in ComparisonKinds && k != Arrow
    ensures RulesFor(Catalogue.rules, k) == Filter(OperatorRules, k)
  {
    CatalogueByGroup(k);
    KeywordGroupSilent(k); TypeGroupSilent(k); LiteralGroupSilent(k); DelimiterGroupSilent(k);
    AssignmentGroupSilent(k); ComparisonGroupSilent(k); MiscGroupSilent(k);
  }

  /** A keyword kind receives only its keyword rule's group. */
  lemma KeywordFamily(k: TokenType)
    requires k in KeywordKinds
    requires k !in TypeKinds
    requires k !in LiteralKinds && k !in DelimiterKinds && k !in OperatorKinds
    requires k !in AssignmentKinds && k !in ComparisonKinds && k != Arrow
    ensures RulesFor(Catalogue.rules, k) == Filter(KeywordRules, k)
  {
    CatalogueByGroup(k);
    TypeGroupSilent(k); LiteralGroupSilent(k); DelimiterGroupSilent(k); OperatorGroupSilent(k);
    AssignmentGroupSilent(k); ComparisonGroupSilent(k); MiscGroupSilent(k);
  }

  /** A literal kind receives only rules of the literal group. */
  lemma LiteralFamily(k: TokenType)
    requires k in LiteralKinds
    requires k !in KeywordKinds && k !in TypeKinds
    requires k !in DelimiterKinds && k !in OperatorKinds
    requires k !in AssignmentKinds && k !in ComparisonKinds && k != Arrow
    ensures RulesFor(Catalogue.rules, k) == Filter(LiteralRules, k)
  {
    CatalogueByGroup(k);
    KeywordGroupSilent(k); TypeGroupSilent(k); DelimiterGroupSilent(k); OperatorGroupSilent(k);
    AssignmentGroupSilent(k); ComparisonGroupSilent(k); MiscGroupSilent(k);
  }

  /** Keyword rules of kinds other than `k` file nothing under `k`. */
  lemma {:induction false} KeywordsSilent(kinds: seq<TokenType>, k: TokenType)
    requires k !in kinds
    ensures Filter(Keywords(kinds), k) == []
    decreases |kinds|
  {
    if kinds != [] {
      KeywordsSilent(kinds[1..], k);
      assert Keywords(kinds)[1..] == Keywords(kinds[1..]);
    }
  }

  // The rules the catalogue files under the kinds the examples use. Each
  // is split into the group step and the filtering step.

  lemma ArithmeticOperatorsSilent(k: TokenType)
    requires k == RightShift || k == ArithmeticRightShift
    ensures Filter(ArithmeticOperatorRules, k) == []
  {
    assert forall i :: 0 <= i < |ArithmeticOperatorRules| ==> ArithmeticOperatorRules[i].kind != k;
    FilterUniform(ArithmeticOperatorRules, k);
  }

  lemma BitwiseOperatorsSilent(k: TokenType)
    requires k == RightShift || k == ArithmeticRightShift
    ensures Filter(BitwiseOperatorRules, k) == []
  {
    assert forall i :: 0 <= i < |BitwiseOperatorRules| ==> BitwiseOperatorRules[i].kind != k;
    FilterUniform(BitwiseOperatorRules, k);
  }

  /** Only the shift rules can be filed under a shift kind. */
  lemma OperatorRulesSplit(k: TokenType)
    requires k == RightShift || k == ArithmeticRightShift
    ensures Filter(OperatorRules, k) == Filter(ShiftOperatorRules, k)
  {
    FilterAppend(ArithmeticOperatorRules, BitwiseOperatorRules, k);
    FilterAppend(ArithmeticOperatorRules + BitwiseOperatorRules, ShiftOperatorRules, k);
    ArithmeticOperatorsSilent(k);
    BitwiseOperatorsSilent(k);
  }

  lemma OperatorRulesOfRightShift()
    ensures Filter(OperatorRules, RightShift) == [OfPattern(RightShift, Literal(">>"))]
  {
    OperatorRulesSplit(RightShift);
  }

  lemma OperatorRulesOfArithmeticRightShift()
    ensures Filter(OperatorRules, ArithmeticRightShift) == [OfPattern(ArithmeticRightShift, Literal(">>>"))]
  {
    OperatorRulesSplit(ArithmeticRightShift);
  }

  lemma KeywordRulesOfStruct()
    ensures Filter(KeywordRules, Struct) == [Keyword(Struct)]
  {
    var rest := KeywordKinds[1..];
    assert Struct !in rest;
    KeywordsSilent(rest, Struct);
    assert Keywords(KeywordKinds)[1..] == Keywords(rest);
  }

  lemma LiteralRulesOfIdentifier()
    ensures Filter(LiteralRules, Identifier) == [Of(Identifier, IdentifierPattern, Identifier)]
  {
    FilterUniform(LiteralRules[1..], Identifier);
  }

  lemma LiteralRulesOfInteger()
    ensures |Filter(LiteralRules, Integer)| > 0 && Filter(LiteralRules, Integer)[0] == Of(Integer, DecimalPattern, Integer)
  {
    assert Filter(LiteralRules, Integer) == Filter(LiteralRules[1..], Integer);
    assert Filter(LiteralRules[1..], Integer) == [LiteralRules[1..][0]] + Filter(LiteralRules[1..][1..], Integer);
  }

  lemma LiteralRulesOfFloat()
    ensures |Filter(LiteralRules, Float)| > 0 && Filter(LiteralRules, Float)[0] == Of(Float, FractionPattern, Float)
  {
    FilterUniform(LiteralRules[..5], Float);
    FilterAppend(LiteralRules[..5], LiteralRules[5..], Float);
    assert LiteralRules[..5] + LiteralRules[5..] == LiteralRules;
    assert Filter(LiteralRules[5..], Float) == [LiteralRules[5..][0]] + Filter(LiteralRules[5..][1..], Float);
  }

  /** `>>` is the only rule filed under RIGHT_SHIFT. */
  lemma CatalogueRightShift()
    ensures RulesFor(Catalogue.rules, RightShift) == [OfPattern(RightShift, Literal(">>"))]
  {
    OperatorFamily(RightShift);
    OperatorRulesOfRightShift();
  }

  /** `>>>` is the only rule filed under ARITHMETIC_RIGHT_SHIFT. */
  lemma CatalogueArithmeticRightShift()
    ensures RulesFor(Catalogue.rules, ArithmeticRightShift) == [OfPattern(ArithmeticRightShift, Literal(">>>"))]
  {
    OperatorFamily(ArithmeticRightShift);
    OperatorRulesOfArithmeticRightShift();
  }

  /** The keyword rule is the only rule filed under STRUCT. */
  lemma CatalogueStruct()
    ensures RulesFor(Catalogue.rules, Struct) == [Keyword(Struct)]
  {
    KeywordFamily(Struct);
    KeywordRulesOfStruct();
  }

  /** The identifier pattern is the only rule filed under IDENTIFIER. */
  lemma CatalogueIdentifier()
    ensures RulesFor(Catalogue.rules, Identifier) == [Of(Identifier, IdentifierPattern, Identifier)]
  {
    LiteralFamily(Identifier);
    LiteralRulesOfIdentifier();
  }

  /** The decimal pattern is the first rule filed under INTEGER. */
  lemma CatalogueIntegerFirst()
    ensures |RulesFor(Catalogue.rules, Integer)| > 0
    ensures RulesFor(Catalogue.rules, Integer)[0] == Of(Integer, DecimalPattern, Integer)
  {
    LiteralFamily(Integer);
    LiteralRulesOfInteger();
  }

  /** The plain fraction pattern is the first rule filed under FLOAT. */
  lemma CatalogueFloatFirst()
    ensures |RulesFor(Catalogue.rules, Float)| > 0
    ensures RulesFor(Catalogue.rules, Float)[0] == Of(Float, FractionPattern, Float)
  {
    LiteralFamily(Float);
    LiteralRulesOfFloat();
  }
}
