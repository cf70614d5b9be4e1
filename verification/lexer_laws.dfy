/** Laws of the lexer's stacks and of its behaviour at the end of the
    input. */
module LexerLaws {
  import opened Wrappers
  import opened Chars
  import opened Tokens
  import opened Buffer
  import opened Patterns
  import opened TokenRules
  import opened Registry
  import opened Lexing
  import opened CatalogueFacts

  // ---------------------------------------------------------------------
  // Pushed-back tokens and saved positions.

  /** `nextOf` replays a pushed-back token whatever kinds it is asked for,
      and leaves the lexer as it was before the push. */
  lemma ReplayPushedBack(lx: Lexer, t: Token, kinds: seq<TokenType>)
    requires lx.Valid()
    ensures NextOf(ReturnToken(lx, t), kinds) == Step(Some(t), lx)
  {
    var pushed := ReturnToken(lx, t);
    assert pushed.returned[..|pushed.returned| - 1] == lx.returned;
  }

  /** Pushed-back tokens come back last-in, first-out. */
  lemma PushBackIsLifo(lx: Lexer, t1: Token, t2: Token, kinds: seq<TokenType>)
    requires lx.Valid()
    ensures var s1 := NextOf(ReturnToken(ReturnToken(lx, t1), t2), kinds);
            var s2 := NextOf(s1.lexer, kinds);
            s1.token == Some(t2) && s2.token == Some(t1) && s2.lexer == lx
  {
    ReplayPushedBack(ReturnToken(lx, t1), t2, kinds);
    ReplayPushedBack(lx, t1, kinds);
  }

  /** `restore` right after `backup` is no change at all. */
  lemma RestoreUndoesBackup(lx: Lexer)
    requires lx.Valid()
    ensures Restore(Backup(lx)) == Some(lx)
  {
    var b := Backup(lx);
    assert b.backups[..|b.backups| - 1] == lx.backups;
  }

  /** After a token is read, `restore` rewinds the position to the saved
      one but keeps the line and column the read reached. */
  lemma RestoreRewindsPositionOnly(lx: Lexer, kinds: seq<TokenType>)
    requires lx.Valid()
    ensures var s := NextOf(Backup(lx), kinds);
            var back := Restore(s.lexer);
            && back.Some?
            && back.value.position == lx.position
            && back.value.backups == lx.backups
            && back.value.line == s.lexer.line && back.value.column == s.lexer.column
            && back.value.returned == s.lexer.returned
  {
    var b := Backup(lx);
    var s := NextOf(b, kinds);
    assert s.lexer.backups == b.backups;
    assert b.backups[..|b.backups| - 1] == lx.backups;
  }

  /** Saved positions come back last-in, first-out. */
  lemma BackupIsLifo(lx: Lexer, p: nat)
    requires lx.Valid() && p <= |lx.buffer|
    ensures var twice := Backup(Backup(lx).(position := p));
            var once := Restore(twice);
            && once.Some? && once.value.position == p
            && Restore(once.value).Some? && Restore(once.value).value == lx
  {
    var b1 := Backup(lx);
    var twice := Backup(b1.(position := p));
    assert twice.backups[..|twice.backups| - 1] == b1.backups;
    assert b1.backups[..|b1.backups| - 1] == lx.backups;
  }

  // ---------------------------------------------------------------------
  // The end of the input.

  /** The rules of a registry can only match something. */
  predicate AllNeedInput(rules: seq<Rule>)
  {
    forall i :: 0 <= i < |rules| ==> NeedsInput(rules[i].pattern)
  }

  predicate RegistryNeedsInput(reg: TokenRegistry)
  {
    forall k :: AllNeedInput(RulesFor(reg.rules, k))
  }

  /** With no pushed-back token and no bytes left, the EOF token, and the
      lexer does not move. */
  lemma EofAtEnd(lx: Lexer, kinds: seq<TokenType>)
    requires lx.Valid() && lx.returned == [] && lx.position == |lx.buffer|
    ensures NextOf(lx, kinds) == Step(Some(EofToken(lx)), lx)
  {
  }

  /** When only whitespace is left, `nextOf` does not answer EOF: it skips
      the whitespace, every rule fails on the empty rest, and it answers
      nothing. The EOF token comes only from the next call. */
  lemma TrailingWhitespaceYieldsNothing(lx: Lexer, kinds: seq<TokenType>)
    requires lx.Valid() && lx.returned == [] && lx.position < |lx.buffer|
    requires forall i :: lx.position <= i < |lx.buffer| ==> IsJavaWhitespace(CharOf(lx.buffer[i]))
    requires RegistryNeedsInput(lx.registry)
    ensures var s := NextOf(lx, kinds);
            && s.token.None?
            && s.lexer.position == |lx.buffer|
            && NextOf(s.lexer, kinds).token == Some(EofToken(s.lexer))
  {
    var w := SkipWhitespace(lx);
    SkipWhitespaceSpec(lx);
    assert w.position == |w.buffer|;
    var view := w.View();
    assert view.Chars() == [];
    var c := Candidates(w.registry, kinds, view, w.line, w.column);
    forall i | 0 <= i < |kinds|
      ensures c[i].None?
    {
      var rules := RulesFor(w.registry.rules, kinds[i]);
      forall j | 0 <= j < |rules|
        ensures Produce(rules[j], view, w.line, w.column).None?
      {
        NoMatchOnEmpty(rules[j].pattern);
      }
    }
  }

  /** When `hasNext` says no, the next `nextOf` answers EOF. */
  lemma NoNextMeansEof(lx: Lexer, kinds: seq<TokenType>)
    requires lx.Valid() && lx.returned == []
    ensures !HasNext(lx).0 ==> NextOf(HasNext(lx).1, kinds).token == Some(EofToken(HasNext(lx).1))
  {
    SkipWhitespaceSpec(lx);
  }

  /** `line()` and `column()` after a call of `nextOf`: a scanned token
      leaves the lexer on the token's line, just past its last column; a
      replayed token leaves both where they were. */
  lemma AccessorsAfterNext(lx: Lexer, kinds: seq<TokenType>)
    requires lx.Valid()
    ensures var s := NextOf(lx, kinds);
            lx.returned == [] && lx.position < |lx.buffer| && s.token.Some? ==>
              && s.lexer.Line() == s.token.value.line
              && s.lexer.Column() == s.token.value.column + s.token.value.Length()
    ensures lx.returned != [] ==>
              NextOf(lx, kinds).lexer.Line() == lx.Line() && NextOf(lx, kinds).lexer.Column() == lx.Column()
  {
  }

  // ---------------------------------------------------------------------
  // Every catalogue rule needs input.

  lemma AllNeedInputAppend(a: seq<Rule>, b: seq<Rule>)
    requires AllNeedInput(a) && AllNeedInput(b)
    ensures AllNeedInput(a + b)
  {
    forall i | 0 <= i < |a + b|
      ensures NeedsInput((a + b)[i].pattern)
    {
      if i >= |a| {
        assert (a + b)[i] == b[i - |a|];
      }
    }
  }

  lemma KeywordsNeedInput(kinds: seq<TokenType>)
    ensures AllNeedInput(Keywords(kinds))
  {
    forall i | 0 <= i < |kinds|
      ensures NeedsInput(Keywords(kinds)[i].pattern)
    {
      var name := Name(kinds[i]);
      assert |Lower(name)| == |name| > 0;
      assert Keywords(kinds)[i] == Keyword(kinds[i]);
    }
  }

  lemma LiteralRulesNeedInput()
    ensures AllNeedInput(LiteralRules)
  {
    assert IdentifierPattern.atoms[0].q == Once;
    assert DecimalPattern.atoms[1].q == AtLeastOnce;
    assert BinaryPattern.atoms[1].q == Once;
    assert OctalPattern.atoms[1].q == Once;
    assert HexPattern.atoms[1].q == Once;
    assert FractionPattern.atoms[1].q == AtLeastOnce;
    assert ExponentPattern.atoms[1].q == AtLeastOnce;
  }

  lemma DelimiterRulesNeedInput()
    ensures AllNeedInput(DelimiterRules)
  {
  }

  lemma OperatorRulesNeedInput()
    ensures AllNeedInput(OperatorRules)
  {
  }

  lemma AssignmentRulesNeedInput()
    ensures AllNeedInput(AssignmentRules)
  {
  }

  lemma ComparisonRulesNeedInput()
    ensures AllNeedInput(ComparisonRules)
  {
  }

  lemma MiscRulesNeedInput()
    ensures AllNeedInput(MiscRules)
  {
  }

  lemma GroupsNeedInput(g1: seq<Rule>, g2: seq<Rule>, g3: seq<Rule>, g4: seq<Rule>,
                        g5: seq<Rule>, g6: seq<Rule>, g7: seq<Rule>, g8: seq<Rule>)
    requires AllNeedInput(g1) && AllNeedInput(g2) && AllNeedInput(g3) && AllNeedInput(g4)
    requires AllNeedInput(g5) && AllNeedInput(g6) && AllNeedInput(g7) && AllNeedInput(g8)
    ensures AllNeedInput(g1 + g2 + g3 + g4 + g5 + g6 + g7 + g8)
  {
    AllNeedInputAppend(g1, g2);
    AllNeedInputAppend(g1 + g2, g3);
    AllNeedInputAppend(g1 + g2 + g3, g4);
    AllNeedInputAppend(g1 + g2 + g3 + g4, g5);
    AllNeedInputAppend(g1 + g2 + g3 + g4 + g5, g6);
    AllNeedInputAppend(g1 + g2 + g3 + g4 + g5 + g6, g7);
    AllNeedInputAppend(g1 + g2 + g3 + g4 + g5 + g6 + g7, g8);
  }

  lemma RegistrationsNeedInput()
    ensures AllNeedInput(Registrations)
  {
    KeywordsNeedInput(KeywordKinds);
    KeywordsNeedInput(TypeKinds);
    LiteralRulesNeedInput();
    DelimiterRulesNeedInput();
    OperatorRulesNeedInput();
    AssignmentRulesNeedInput();
    ComparisonRulesNeedInput();
    MiscRulesNeedInput();
    GroupsNeedInput(KeywordRules, TypeRules, LiteralRules, DelimiterRules,
                    OperatorRules, AssignmentRules, ComparisonRules, MiscRules);
  }

  /** A registry built from rules that all need input needs input. */
  lemma BuiltNeedsInput(rules: seq<Rule>)
    requires AllNeedInput(rules)
    ensures RegistryNeedsInput(Build(RegisterAll(NewBuilder(), rules)))
  {
    var reg := Build(RegisterAll(NewBuilder(), rules));
    forall k
      ensures AllNeedInput(RulesFor(reg.rules, k))
    {
      assert RulesFor(reg.rules, k) == Filter(rules, k);
      FilterSubset(rules, k);
    }
  }

  /** No catalogue rule matches the empty input, so at trailing whitespace
      the catalogue lexer answers nothing before it answers EOF. */
  lemma CatalogueNeedsInput()
    ensures RegistryNeedsInput(Catalogue)
  {
    RegistrationsNeedInput();
    BuiltNeedsInput(Registrations);
  }
}
