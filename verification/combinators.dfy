/** `Parser`: parsers as pure functions from the input to an outcome, and
    the static combinators that build them. */
module Combinators {
  import opened Wrappers
  import opened Chars
  import opened Ast

  /** What `parse(input)` does: returns a `ParseResult` (the tree and the
      rest of the input), throws a `ParseException` with a message, or
      throws some other exception. The combinators that catch treat the
      two kinds of exception differently. */
  datatype Outcome = Parsed(ast: Ast, rest: seq<char>) | Failed(message: string) | Crashed(error: string)

  type Parser = seq<char> -> Outcome

  /** `ParseException.UNEXPECTED_EOF()` */
  const UnexpectedEof: string := "Unexpected end of input"

  /** `ParseException.EXPECTED_LITERAL(literal)` */
  function ExpectedLiteral(lit: string): string
  {
    "Expected literal: " + lit
  }

  /** The `IllegalArgumentException` of a combinator given no parsers. */
  const NoParsers: string := "At least one parser must be provided"

  /** `rest` is what is left of `s` after some prefix. */
  predicate IsSuffix(rest: seq<char>, s: seq<char>)
  {
    |rest| <= |s| && rest == s[|s| - |rest|..]
  }

  lemma SuffixTrans(a: seq<char>, b: seq<char>, c: seq<char>)
    requires IsSuffix(a, b) && IsSuffix(b, c)
    ensures IsSuffix(a, c)
  {
    assert c[|c| - |b|..][|b| - |a|..] == c[|c| - |a|..];
  }

  /** On success the parser leaves a suffix of its input. */
  ghost predicate Consumes(p: Parser)
  {
    forall s :: p(s).Parsed? ==> IsSuffix(p(s).rest, s)
  }

  /** On success the parser leaves a strictly shorter suffix. */
  ghost predicate Progressing(p: Parser)
  {
    forall s :: p(s).Parsed? ==> IsSuffix(p(s).rest, s) && |p(s).rest| < |s|
  }

  // ---------------------------------------------------------------------
  // Parsers that read characters. Each combinator is given twice: as a
  // first-order function of the input (`...At`), which carries what it
  // computes, and as the parser the Java method returns, which agrees
  // with it on every input.

  /** `noop()`: succeeds with an empty tree and consumes nothing. */
  function Noop(): (p: Parser)
    ensures forall s :: p(s).Parsed? && p(s).ast == EmptyAst && p(s).rest == s
  {
    s => Parsed(EmptyAst, s)
  }

  /** `item()` on `s`: consumes exactly one character and fails only at
      the end of the input. */
  function ItemAt(s: seq<char>): (r: Outcome)
    ensures r.Parsed? <==> s != []
    ensures s == [] ==> r == Failed(UnexpectedEof)
    ensures r.Parsed? ==> r.ast.ItemAst? && s == [r.ast.item] + r.rest
  {
    if |s| == 0 then Failed(UnexpectedEof) else Parsed(ItemAst(s[0]), s[1..])
  }

  function Item(): (p: Parser)
    ensures forall s :: p(s) == ItemAt(s)
  {
    s => ItemAt(s)
  }

  /** `literal(lit)` on `s`: consumes `lit` when the input starts with it.
      An input shorter than `lit` is an unexpected end even when it is a
      prefix of `lit`; any other mismatch expects the literal. */
  function LiteralAt(lit: string, s: seq<char>): (r: Outcome)
    ensures r.Parsed? <==> StartsWith(s, lit)
    ensures r.Parsed? ==> r.ast == LiteralAst(lit) && s == lit + r.rest
    ensures |s| < |lit| ==> r == Failed(UnexpectedEof)
    ensures |s| >= |lit| && !StartsWith(s, lit) ==> r == Failed(ExpectedLiteral(lit))
  {
    if |s| < |lit| then Failed(UnexpectedEof)
    else if s[..|lit|] == lit then
      assert s == s[..|lit|] + s[|lit|..];
      Parsed(LiteralAst(lit), s[|lit|..])
    else Failed(ExpectedLiteral(lit))
  }

  function Literal(lit: string): (p: Parser)
    ensures forall s :: p(s) == LiteralAt(lit, s)
  {
    s => LiteralAt(lit, s)
  }

  /** A `java.util.regex.Matcher` after `lookingAt()` on an input: the end
      of the match and the captured groups. */
  datatype Match = Match(end: nat, groups: seq<string>)

  /** A compiled pattern, applied with `lookingAt`. */
  type Matcher = seq<char> -> Option<Match>

  /** The matcher only ever matches a prefix of its input. */
  ghost predicate IsPrefixMatcher(m: Matcher)
  {
    forall s :: m(s).Some? ==> m(s).value.end <= |s|
  }

  /** `regex(pattern, message)` on `s`: when the pattern matches a prefix,
      that prefix and its groups as the tree and what follows as the rest;
      otherwise a `ParseException` with the given message. */
  function RegexAt(m: Matcher, message: string, s: seq<char>): (r: Outcome)
    requires m(s).Some? ==> m(s).value.end <= |s|
    ensures r.Parsed? <==> m(s).Some?
    ensures m(s).None? ==> r == Failed(message)
    ensures r.Parsed? ==> r.ast.RegexAst? && r.ast.groups == m(s).value.groups
    ensures r.Parsed? ==> |r.ast.matched| == m(s).value.end && s == r.ast.matched + r.rest
  {
    match m(s)
    case None => Failed(message)
    case Some(x) =>
      assert s == s[..x.end] + s[x.end..];
      Parsed(RegexAst(s[..x.end], x.groups), s[x.end..])
  }

  function Regex(m: Matcher, message: string): (p: Parser)
    requires IsPrefixMatcher(m)
    ensures forall s :: p(s) == RegexAt(m, message, s)
  {
    s => RegexAt(m, message, s)
  }

  // ---------------------------------------------------------------------
  // sequence

  /** `ps` applied one after the other from `s` yields `asts` and leaves
      `rest`: each parser starts where the previous one stopped. */
  predicate Threads(ps: seq<Parser>, s: seq<char>, asts: seq<Ast>, rest: seq<char>)
    decreases |ps|
  {
    if ps == [] then asts == [] && rest == s
    else
      && |asts| == |ps|
      && ps[0](s).Parsed?
      && asts[0] == ps[0](s).ast
      && Threads(ps[1..], ps[0](s).rest, asts[1..], rest)
  }

  /** The loop of `sequence`: runs the parsers in order, threading the
      input, and collects one tree per parser; the first exception is
      passed on unchanged. What it computes is stated by `ThreadSound`,
      `ThreadComplete` and `ThreadFails`. */
  function Thread(ps: seq<Parser>, s: seq<char>): (r: Outcome)
    ensures r.Parsed? ==> r.ast.SequenceAst? && |r.ast.values| == |ps|
    decreases |ps|
  {
    if ps == [] then Parsed(SequenceAst([]), s)
    else
      match ps[0](s)
      case Parsed(a, m) =>
        var r := Thread(ps[1..], m);
        if r.Parsed? then Parsed(SequenceAst([a] + r.ast.values), r.rest) else r
      case _ => ps[0](s)
  }

  /** A successful sequence threads its parsers. */
  lemma {:induction false} ThreadSound(ps: seq<Parser>, s: seq<char>)
    ensures Thread(ps, s).Parsed? ==> Threads(ps, s, Thread(ps, s).ast.values, Thread(ps, s).rest)
    decreases |ps|
  {
    if ps != [] && ps[0](s).Parsed? {
      var m := ps[0](s).rest;
      ThreadSound(ps[1..], m);
      var r := Thread(ps[1..], m);
      if r.Parsed? {
        assert ([ps[0](s).ast] + r.ast.values)[1..] == r.ast.values;
      }
    }
  }

  /** Whenever the parsers thread, the sequence succeeds with exactly
      those trees and that rest. */
  lemma {:induction false} ThreadComplete(ps: seq<Parser>, s: seq<char>, asts: seq<Ast>, rest: seq<char>)
    requires Threads(ps, s, asts, rest)
    ensures Thread(ps, s) == Parsed(SequenceAst(asts), rest)
    decreases |ps|
  {
    if ps != [] {
      ThreadComplete(ps[1..], ps[0](s).rest, asts[1..], rest);
      assert asts == [asts[0]] + asts[1..];
    }
  }

  /** A sequence that does not succeed passes on the exception of the
      first parser that throws, at the input the earlier ones left. */
  lemma {:induction false} ThreadFails(ps: seq<Parser>, s: seq<char>)
    ensures !Thread(ps, s).Parsed? ==>
              exists i, asts, mid :: 0 <= i < |ps| && Threads(ps[..i], s, asts, mid) && ps[i](mid) == Thread(ps, s)
    decreases |ps|
  {
    var r := Thread(ps, s);
    if ps != [] && !r.Parsed? {
      if ps[0](s).Parsed? {
        var m := ps[0](s).rest;
        ThreadFails(ps[1..], m);
        var i, asts, mid :| 0 <= i < |ps[1..]| && Threads(ps[1..][..i], m, asts, mid) && ps[1..][i](mid) == r;
        assert ps[..i + 1][1..] == ps[1..][..i];
        var all := [ps[0](s).ast] + asts;
        assert all[1..] == asts;
        assert Threads(ps[..i + 1], s, all, mid);
      } else {
        assert Threads(ps[..0], s, [], s);
      }
    }
  }

  /** `sequence(parsers...)`: refuses an empty list. */
  function Sequence(ps: seq<Parser>): (r: Result<Parser>)
    ensures r.Failure? <==> ps == []
    ensures r.Failure? ==> r.message == NoParsers
    ensures r.Success? ==> forall s :: r.value(s) == Thread(ps, s)
  {
    if ps == [] then Failure(NoParsers)
    else Success(s => Thread(ps, s))
  }

  /** What a sequence of two parsers does. */
  function Pair(p1: Parser, p2: Parser, s: seq<char>): Outcome
  {
    match p1(s)
    case Parsed(a1, m1) =>
      (match p2(m1)
       case Parsed(a2, m2) => Parsed(SequenceAst([a1, a2]), m2)
       case other => other)
    case other => other
  }

  /** What a sequence of three parsers does. */
  function Triple(p1: Parser, p2: Parser, p3: Parser, s: seq<char>): Outcome
  {
    match p1(s)
    case Parsed(a1, m1) =>
      (match p2(m1)
       case Parsed(a2, m2) =>
         (match p3(m2)
          case Parsed(a3, m3) => Parsed(SequenceAst([a1, a2, a3]), m3)
          case other => other)
       case other => other)
    case other => other
  }

  /** A one-parser sequence is that parser with its tree in a list. */
  lemma ThreadOne(p: Parser, s: seq<char>)
    ensures Thread([p], s) == if p(s).Parsed? then Parsed(SequenceAst([p(s).ast]), p(s).rest) else p(s)
  {
    assert [p][0] == p && [p][1..] == [];
    if p(s).Parsed? {
      assert Thread([p][1..], p(s).rest) == Parsed(SequenceAst([]), p(s).rest);
      assert [p(s).ast] + [] == [p(s).ast];
    }
  }

  /** A longer sequence is its first parser followed by the rest. */
  lemma ThreadCons(ps: seq<Parser>, s: seq<char>)
    requires ps != []
    ensures Thread(ps, s) == if !ps[0](s).Parsed? then ps[0](s)
                             else var r := Thread(ps[1..], ps[0](s).rest);
                                  if r.Parsed? then Parsed(SequenceAst([ps[0](s).ast] + r.ast.values), r.rest) else r
  {
  }

  lemma ThreadTwo(p1: Parser, p2: Parser, s: seq<char>)
    ensures Thread([p1, p2], s) == Pair(p1, p2, s)
  {
    var ps := [p1, p2];
    assert ps[0] == p1 && ps[1..] == [p2];
    ThreadCons(ps, s);
    if p1(s).Parsed? {
      ThreadOne(p2, p1(s).rest);
    }
  }

  lemma ThreadThree(p1: Parser, p2: Parser, p3: Parser, s: seq<char>)
    ensures Thread([p1, p2, p3], s) == Triple(p1, p2, p3, s)
  {
    var ps := [p1, p2, p3];
    assert ps[0] == p1 && ps[1..] == [p2, p3];
    ThreadCons(ps, s);
    if p1(s).Parsed? {
      ThreadTwo(p2, p3, p1(s).rest);
    }
  }

  /** Mapping a three-tree sequence. */
  lemma MapOfTriple(p: Parser, f: Mapper, s: seq<char>, a: Ast, b: Ast, c: Ast, rest: seq<char>)
    requires p(s) == Parsed(SequenceAst([a, b, c]), rest)
    ensures MapAt(p, f, s) == match f(SequenceAst([a, b, c]))
                              case Success(v) => Parsed(v, rest)
                              case Failure(e) => Crashed(e)
  {
  }

  /** Keeping the middle of a three-tree sequence. */
  lemma MiddleOfTriple(p: Parser, s: seq<char>, a: Ast, b: Ast, c: Ast, rest: seq<char>)
    requires p(s) == Parsed(SequenceAst([a, b, c]), rest)
    ensures MapAt(p, Middle, s) == Parsed(b, rest)
  {
    assert Middle(SequenceAst([a, b, c])) == Success(b);
  }

  // ---------------------------------------------------------------------
  // oneOf / anyOf

  /** The loop of `oneOf`: the first outcome that is not a
      `ParseException`; when every parser throws one, the last. Any other
      exception ends the loop. */
  function FirstOf(ps: seq<Parser>, s: seq<char>): (r: Outcome)
    requires ps != []
    ensures r.Failed? <==> forall i :: 0 <= i < |ps| ==> ps[i](s).Failed?
    ensures r.Failed? ==> r == ps[|ps| - 1](s)
    ensures !r.Failed? ==> exists i :: 0 <= i < |ps| && r == ps[i](s) && forall j :: 0 <= j < i ==> ps[j](s).Failed?
    decreases |ps|
  {
    if |ps| == 1 then ps[0](s)
    else if ps[0](s).Failed? then
      var r := FirstOf(ps[1..], s);
      assert forall i :: 1 <= i < |ps| ==> ps[i] == ps[1..][i - 1];
      r
    else ps[0](s)
  }

  /** Two alternatives: the second only when the first throws a
      `ParseException`. */
  lemma FirstOfTwo(p1: Parser, p2: Parser, s: seq<char>)
    ensures FirstOf([p1, p2], s) == if p1(s).Failed? then p2(s) else p1(s)
  {
    assert [p1, p2][1..] == [p2];
  }

  /** `oneOf(parsers...)`, and `anyOf`, which differs only in its Java
      type: every parser is tried on the same input. */
  function OneOf(ps: seq<Parser>): (r: Result<Parser>)
    ensures r.Failure? <==> ps == []
    ensures r.Failure? ==> r.message == NoParsers
    ensures r.Success? ==> forall s :: r.value(s) == FirstOf(ps, s)
  {
    if ps == [] then Failure(NoParsers)
    else Success(s => FirstOf(ps, s))
  }

  // ---------------------------------------------------------------------
  // map, optional

  /** The mapping function of `map`; a failure is the exception the Java
      lambda would throw (a failed cast, say). */
  type Mapper = Ast -> Result<Ast>

  /** `map(parser, f)` on `s`: transforms the tree and keeps the rest; an
      exception from `f` escapes, and so does one from `parser`. */
  function MapAt(p: Parser, f: Mapper, s: seq<char>): (r: Outcome)
    ensures r.Parsed? <==> p(s).Parsed? && f(p(s).ast).Success?
    ensures r.Parsed? ==> r.ast == f(p(s).ast).value && r.rest == p(s).rest
    ensures p(s).Parsed? && f(p(s).ast).Failure? ==> r == Crashed(f(p(s).ast).message)
    ensures !p(s).Parsed? ==> r == p(s)
  {
    match p(s)
    case Parsed(a, rest) =>
      (match f(a)
       case Success(b) => Parsed(b, rest)
       case Failure(e) => Crashed(e))
    case other => other
  }

  function Map(p: Parser, f: Mapper): (r: Parser)
    ensures forall s :: r(s) == MapAt(p, f, s)
  {
    s => MapAt(p, f, s)
  }

  /** What `optional(parser)` does on `s`: never a `ParseException`; the
      tree in an `OptionalAST` when `parser` succeeds, an empty one and
      the whole input when it throws a `ParseException`. */
  function OptionalAt(p: Parser, s: seq<char>): (r: Outcome)
    ensures !r.Failed?
    ensures p(s).Parsed? ==> r == Parsed(OptionalOf(p(s).ast), p(s).rest)
    ensures p(s).Failed? ==> r == Parsed(OptionalEmpty(), s)
    ensures p(s).Crashed? ==> r == p(s)
  {
    match p(s)
    case Parsed(a, rest) => Parsed(OptionalOf(a), rest)
    case Failed(_) => Parsed(OptionalEmpty(), s)
    case Crashed(_) => p(s)
  }

  /** `OptionalAST.parser(parser)`, which `optional(parser)` returns:
      `oneOf(map(parser, OptionalAST::of), map(noop(), _ -> empty()))`. */
  function Optional(p: Parser): (r: Parser)
    ensures forall s :: r(s) == OptionalAt(p, s)
  {
    var present := Map(p, a => Success(OptionalOf(a)));
    var absent := Map(Noop(), _ => Success(OptionalEmpty()));
    forall s
      ensures FirstOf([present, absent], s) == OptionalAt(p, s)
    {
      FirstOfTwo(present, absent, s);
    }
    OneOf([present, absent]).value
  }

  // ---------------------------------------------------------------------
  // zeroOrMore, oneOrMore

  /** `n` copies of `p`. */
  function Copies(p: Parser, n: nat): (r: seq<Parser>)
    ensures |r| == n && forall i :: 0 <= i < n ==> r[i] == p
  {
    seq(n, _ => p)
  }

  /** The loop of `zeroOrMore`: applies `p` until it throws anything at
      all, collecting the trees: the run threads copies of `p`, and `p`
      does not succeed where it stops. Requires `p` to consume on
      success; the Java loop never ends otherwise. */
  function Many(p: Parser, s: seq<char>): (r: (seq<Ast>, seq<char>))
    requires Progressing(p)
    ensures Threads(Copies(p, |r.0|), s, r.0, r.1)
    ensures !p(r.1).Parsed?
    ensures IsSuffix(r.1, s)
    decreases |s|
  {
    match p(s)
    case Parsed(a, m) =>
      var r := Many(p, m);
      assert Copies(p, |r.0| + 1)[1..] == Copies(p, |r.0|);
      assert ([a] + r.0)[1..] == r.0;
      SuffixTrans(r.1, m, s);
      ([a] + r.0, r.1)
    case _ => ([], s)
  }

  /** `zeroOrMore(parser)`: never throws; the trees of the run and the
      rest after it. */
  function ZeroOrMore(p: Parser): (r: Parser)
    requires Progressing(p)
    ensures forall s :: r(s) == Parsed(SequenceAst(Many(p, s).0), Many(p, s).1)
  {
    s => Parsed(SequenceAst(Many(p, s).0), Many(p, s).1)
  }

  /** The mapping of `oneOrMore`: the head put in front of the tail's
      list. */
  function PrependHead(a: Ast): Result<Ast>
  {
    match a
    case SequenceAst(vs) =>
      if |vs| < 2 then Failure("IndexOutOfBoundsException")
      else if vs[1].SequenceAst? then Success(SequenceAst([vs[0]] + vs[1].values))
      else Failure("ClassCastException")
    case _ => Failure("ClassCastException")
  }

  /** What `oneOrMore(parser)` does on `s`: it throws exactly what the
      first attempt throws; otherwise the first tree followed by those of
      the run on the rest. */
  function OneOrMoreAt(p: Parser, s: seq<char>): (r: Outcome)
    requires Progressing(p)
    ensures r.Parsed? <==> p(s).Parsed?
    ensures !p(s).Parsed? ==> r == p(s)
    ensures r.Parsed? ==> r.ast.SequenceAst? && |r.ast.values| >= 1 && r.ast.values[0] == p(s).ast
    ensures r.Parsed? ==> Threads(Copies(p, |r.ast.values|), s, r.ast.values, r.rest) && !p(r.rest).Parsed?
  {
    match p(s)
    case Parsed(a, m) =>
      var run := Many(p, m);
      var all := [a] + run.0;
      assert all[1..] == run.0;
      assert Copies(p, |all|)[1..] == Copies(p, |run.0|);
      Parsed(SequenceAst(all), run.1)
    case other => other
  }

  /** `oneOrMore(parser)`: `map(sequence(parser, zeroOrMore(parser)), ...)`. */
  function OneOrMore(p: Parser): (r: Parser)
    requires Progressing(p)
    ensures forall s :: r(s) == OneOrMoreAt(p, s)
  {
    var z := ZeroOrMore(p);
    var sq := Sequence([p, z]).value;
    forall s
      ensures MapAt(sq, PrependHead, s) == OneOrMoreAt(p, s)
    {
      ThreadTwo(p, z, s);
    }
    Map(sq, PrependHead)
  }

  // ---------------------------------------------------------------------
  // surroundedBy, skipWhitespace

  /** The mapping of `surroundedBy`: the middle tree. */
  function Middle(a: Ast): Result<Ast>
  {
    if a.SequenceAst? && |a.values| >= 2 then Success(a.values[1]) else Failure("IndexOutOfBoundsException")
  }

  /** What `surroundedBy(inner, surrounder)` does on `s`: `surrounder`,
      `inner`, `surrounder` in a row, keeping only the inner tree; the
      first exception escapes. */
  function SurroundedAt(inner: Parser, sur: Parser, s: seq<char>): (r: Outcome)
    ensures !sur(s).Parsed? ==> r == sur(s)
    ensures sur(s).Parsed? && !inner(sur(s).rest).Parsed? ==> r == inner(sur(s).rest)
    ensures r.Parsed? ==> sur(s).Parsed? && inner(sur(s).rest).Parsed? && r.ast == inner(sur(s).rest).ast
    ensures r.Parsed? ==> sur(inner(sur(s).rest).rest).Parsed? && r.rest == sur(inner(sur(s).rest).rest).rest
  {
    match sur(s)
    case Parsed(_, m1) =>
      (match inner(m1)
       case Parsed(a, m2) =>
         (match sur(m2)
          case Parsed(_, m3) => Parsed(a, m3)
          case other => other)
       case other => other)
    case other => other
  }

  /** `surroundedBy(inner, surrounder)`:
      `map(sequence(surrounder, inner, surrounder), ast -> values.get(1))`. */
  function SurroundedBy(inner: Parser, sur: Parser): (r: Parser)
    ensures forall s :: r(s) == SurroundedAt(inner, sur, s)
  {
    var sq := Sequence([sur, inner, sur]).value;
    forall s
      ensures MapAt(sq, Middle, s) == SurroundedAt(inner, sur, s)
    {
      ThreadThree(sur, inner, sur, s);
    }
    Map(sq, Middle)
  }

  /** The length of the run of regex white space at the front of `s`. */
  function SpaceRun(s: seq<char>): (n: nat)
    ensures n <= |s|
    ensures forall i :: 0 <= i < n ==> IsRegexSpace(s[i])
    ensures n < |s| ==> !IsRegexSpace(s[n])
  {
    if s != [] && IsRegexSpace(s[0]) then 1 + SpaceRun(s[1..]) else 0
  }

  /** `\s*` with `lookingAt`: it always matches, the longest run of white
      space at the front, and has no groups. */
  function SpaceMatcher(): (m: Matcher)
    ensures forall s :: m(s) == Some(Match(SpaceRun(s), []))
    ensures IsPrefixMatcher(m)
  {
    s => Some(Match(SpaceRun(s), []))
  }

  /** What `\s*` leaves of `s`: a suffix that does not start with white
      space, after a prefix that is all white space. */
  function TrimStart(s: seq<char>): (r: seq<char>)
    ensures IsSuffix(r, s)
    ensures r == [] || !IsRegexSpace(r[0])
    ensures forall i :: 0 <= i < |s| - |r| ==> IsRegexSpace(s[i])
  {
    s[SpaceRun(s)..]
  }

  /** `regex("\\s*", "Expected whitespace")`: never fails and leaves the
      input without its leading white space. */
  function Whitespace(): (p: Parser)
    ensures forall s :: p(s).Parsed? && p(s).rest == TrimStart(s)
  {
    var m := SpaceMatcher();
    forall s
      ensures RegexAt(m, "Expected whitespace", s).rest == TrimStart(s)
    {
      var r := RegexAt(m, "Expected whitespace", s);
      assert s == s[..SpaceRun(s)] + TrimStart(s);
      assert s == r.ast.matched + r.rest;
    }
    Regex(m, "Expected whitespace")
  }

  /** What `skipWhitespace(inner)` does on `s`: `inner` on the input
      without its leading white space, with the white space after it
      consumed as well. */
  function SkipWhitespaceAt(inner: Parser, s: seq<char>): (r: Outcome)
    ensures !inner(TrimStart(s)).Parsed? ==> r == inner(TrimStart(s))
    ensures r.Parsed? <==> inner(TrimStart(s)).Parsed?
    ensures r.Parsed? ==> r.ast == inner(TrimStart(s)).ast && r.rest == TrimStart(inner(TrimStart(s)).rest)
  {
    match inner(TrimStart(s))
    case Parsed(a, m) => Parsed(a, TrimStart(m))
    case other => other
  }

  /** Surrounding by a parser that always succeeds and drops leading
      white space is what `skipWhitespace` does. */
  lemma SurroundedBySpace(inner: Parser, ws: Parser, s: seq<char>)
    requires forall t :: ws(t).Parsed? && ws(t).rest == TrimStart(t)
    ensures SurroundedAt(inner, ws, s) == SkipWhitespaceAt(inner, s)
  {
    assert ws(s).Parsed? && ws(s).rest == TrimStart(s);
    if inner(TrimStart(s)).Parsed? {
      var m := inner(TrimStart(s)).rest;
      assert ws(m).Parsed? && ws(m).rest == TrimStart(m);
    }
  }

  /** `skipWhitespace(inner)`: `surroundedBy(inner, regex("\\s*", ...))`;
      the surrounding pattern cannot fail. */
  function SkipWhitespace(inner: Parser): (r: Parser)
    ensures forall s :: r(s) == SkipWhitespaceAt(inner, s)
  {
    var ws := Whitespace();
    forall s
      ensures SurroundedAt(inner, ws, s) == SkipWhitespaceAt(inner, s)
    {
      SurroundedBySpace(inner, ws, s);
    }
    SurroundedBy(inner, ws)
  }
}
