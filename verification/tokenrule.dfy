/** `TokenRule`: a token kind, an anchored pattern and the producer that
    turns the matched text into a token. A producer is modelled by the
    kind K of the `new Token(K, value, line, column)` it makes. */
module TokenRules {
  import opened Wrappers
  import opened Chars
  import opened Tokens
  import opened Buffer
  import opened Patterns

  datatype Rule = Rule(kind: TokenType, pattern: Pattern, stamp: TokenType)

  /** `TokenRule.of(type, regex, producer)`. */
  function Of(kind: TokenType, pattern: Pattern, producer: TokenType): (r: Rule)
    ensures r.kind == kind && r.pattern == pattern && r.stamp == producer
  {
    Rule(kind, pattern, producer)
  }

  /** `TokenRule.of(type, regex)`: the default producer stamps `type`. */
  function OfPattern(kind: TokenType, pattern: Pattern): (r: Rule)
    ensures r.kind == kind && r.pattern == pattern && r.stamp == kind
  {
    Of(kind, pattern, kind)
  }

  /** `TokenRule.of(tokenType)`: the keyword rule, `"^"` followed by the
      lower-cased enum name. */
  function Keyword(kind: TokenType): (r: Rule)
    ensures r.kind == kind && r.stamp == kind
    ensures r.pattern == Literal(Lower(Name(kind)))
  {
    Rule(kind, Literal(Lower(Name(kind))), kind)
  }

  /** `produce(input, line, column)`: when the pattern matches at the start
      of the view, the producer's token for the matched text (obtained from
      the view's `subSequence(0, end)`) at the given line and column. */
  function Produce(rule: Rule, view: BufferView, line: nat, column: nat): (r: Option<Token>)
    requires view.Valid()
    ensures r.None? <==> Match(rule.pattern, view.Chars()).None?
    ensures r.Some? ==> r.value.kind == rule.stamp
    ensures r.Some? ==> r.value.line == line && r.value.column == column
    ensures r.Some? ==> |r.value.text| <= view.Length()
    ensures r.Some? ==> r.value.text == view.Chars()[..|r.value.text|]
    ensures r.Some? ==> Match(rule.pattern, view.Chars()) == Some(|r.value.text|)
  {
    match Match(rule.pattern, view.Chars())
    case None => None
    case Some(n) =>
      var group := view.SubSequence(0, n);
      Some(Token(rule.stamp, group.value, line, column))
  }

  /** A literal rule produces exactly its literal, and does so exactly
      when the input starts with it. */
  lemma LiteralRuleProduces(rule: Rule, view: BufferView, line: nat, column: nat)
    requires view.Valid() && rule.pattern.Literal?
    ensures Produce(rule, view, line, column)
         == if StartsWith(view.Chars(), rule.pattern.text) then Some(Token(rule.stamp, rule.pattern.text, line, column)) else None
  {
  }

  /** A keyword rule produces its lower-cased name wherever the input
      starts with it, also inside a longer word. */
  lemma KeywordMatchesPrefix(kind: TokenType, view: BufferView, line: nat, column: nat)
    requires view.Valid()
    requires StartsWith(view.Chars(), Lower(Name(kind)))
    ensures Produce(Keyword(kind), view, line, column) == Some(Token(kind, Lower(Name(kind)), line, column))
  {
  }

  /** STRUCT matches the first six characters of "structure". */
  lemma StructMatchesInsideStructure()
    ensures Produce(Keyword(Struct), BufferView(Ascii("structure"), 0), 0, 0)
         == Some(Token(Struct, "struct", 0, 0))
  {
    var view := BufferView(Ascii("structure"), 0);
    assert view.Chars() == "structure";
    assert Lower(Name(Struct)) == "struct";
    assert StartsWith(view.Chars(), "struct");
    KeywordMatchesPrefix(Struct, view, 0, 0);
  }
}
