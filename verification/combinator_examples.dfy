/** The combinator behaviour the repository's combinator tests exercise,
    on the same inputs. */
module CombinatorExamples {
  import opened Wrappers
  import opened Chars
  import opened Ast
  import opened Combinators

  /** `literal("hello")` on "hello world" leaves " world". */
  lemma LiteralLeavesRest()
    ensures Literal("hello")("hello world") == Parsed(LiteralAst("hello"), " world")
  {
    var s := "hello world";
    assert s[..5] == "hello";
    assert s[5..] == " world";
  }

  lemma AbOnAbabz()
    ensures Literal("ab")("ababz") == Parsed(LiteralAst("ab"), "abz")
  {
    var s := "ababz";
    assert s[..2] == "ab" && s[2..] == "abz";
  }

  lemma AbOnAbz()
    ensures Literal("ab")("abz") == Parsed(LiteralAst("ab"), "z")
  {
    var s := "abz";
    assert s[..2] == "ab" && s[2..] == "z";
  }

  lemma AbOnBab()
    ensures Literal("ab")("bab") == Failed(ExpectedLiteral("ab"))
  {
    assert "bab"[..2] != "ab" by { assert "bab"[..2][0] == 'b'; }
  }

  lemma AbOnAbab()
    ensures Literal("ab")("abab") == Parsed(LiteralAst("ab"), "ab")
  {
    var s := "abab";
    assert s[..2] == "ab" && s[2..] == "ab";
  }

  /** Two successes then a failure make a run of two. */
  lemma ManyTwice(p: Parser, s: seq<char>, a: Ast, m1: seq<char>, m2: seq<char>)
    requires Progressing(p)
    requires p(s) == Parsed(a, m1) && p(m1) == Parsed(a, m2) && !p(m2).Parsed?
    ensures Many(p, s) == ([a, a], m2)
  {
    assert Many(p, m2) == ([], m2);
    assert [a] + [] == [a] && [a] + [a] == [a, a];
    assert Many(p, m1) == ([a], m2);
  }

  /** `zeroOrMore(literal("ab"))` on "ababz": two trees, rest "z". */
  lemma ZeroOrMoreStopsAtMismatch()
    ensures ZeroOrMore(Literal("ab"))("ababz") == Parsed(SequenceAst([LiteralAst("ab"), LiteralAst("ab")]), "z")
  {
    var p := Literal("ab");
    AbOnAbabz();
    AbOnAbz();
    assert p("z") == Failed(UnexpectedEof);
    ManyTwice(p, "ababz", LiteralAst("ab"), "abz", "z");
  }

  /** `optional(literal("ab"))` leaves "bab" alone and reads "ab" off
      "abab". */
  lemma OptionalOnBothSides()
    ensures Optional(Literal("ab"))("bab") == Parsed(OptionalEmpty(), "bab")
    ensures Optional(Literal("ab"))("abab") == Parsed(OptionalOf(LiteralAst("ab")), "ab")
  {
    AbOnBab();
    AbOnAbab();
  }

  /** `skipWhitespace(literal("a"))` on "   a    b" reads "a" and leaves
      "b". */
  lemma SkipWhitespaceBothSides()
    ensures SkipWhitespace(Literal("a"))("   a    b") == Parsed(LiteralAst("a"), "b")
  {
    var s := "   a    b";
    assert SpaceRun(s[3..]) == 0;
    assert SpaceRun(s) == 3;
    assert TrimStart(s) == "a    b";
    var t := "a    b";
    assert StartsWith(t, "a") && t[1..] == "    b";
    var u := "    b";
    assert SpaceRun(u[4..]) == 0;
    assert SpaceRun(u) == 4;
    assert TrimStart(u) == "b";
  }
}
