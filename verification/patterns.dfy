/** The anchored patterns of the token catalogue. Every regular expression
    the catalogue registers is one of three shapes: a literal prefix
    (keywords and punctuation), a chain of quantified character classes
    (identifiers, integers, floats) or a quoted literal (strings and
    characters). In each chain adjacent classes are disjoint, so the greedy
    left-to-right match below is the match `java.util.regex` finds. */
module Patterns {
  import opened Wrappers
  import opened Chars

  datatype CharClass =
    | Exactly(c: char)        // a single character
    | OneOf(cs: seq<char>)    // a bracket list such as [bB]
    | Digit                   // [0-9]
    | BinaryDigit             // [01]
    | OctalDigit              // [0-7]
    | HexDigit                // [0-9a-fA-F]
    | IdentStart              // [a-zA-Z_]
    | IdentPart               // [a-zA-Z0-9_]

  predicate InClass(cls: CharClass, c: char)
  {
    match cls
    case Exactly(d) => c == d
    case OneOf(cs) => c in cs
    case Digit => IsDigit(c)
    case BinaryDigit => c == '0' || c == '1'
    case OctalDigit => '0' <= c <= '7'
    case HexDigit => IsDigit(c) || ('a' <= c <= 'f') || ('A' <= c <= 'F')
    case IdentStart => IsIdentStart(c)
    case IdentPart => IsIdentPart(c)
  }

  /** Quantifiers: none, `?`, `+`, `*`. */
  datatype Quant = Once | AtMostOnce | AtLeastOnce | AnyTimes

  datatype Atom = Atom(cls: CharClass, q: Quant)

  datatype Pattern =
    | Literal(text: string)          // ^text
    | Chain(atoms: seq<Atom>)        // ^a1 a2 ... an
    | Quoted(quote: char, many: bool) // ^q(?:[^q\\]|\\.)*q, or exactly one item when !many

  /** The length of the longest prefix of `s` whose characters are all in `cls`. */
  function Run(cls: CharClass, s: seq<char>): (n: nat)
    ensures n <= |s|
    ensures forall i :: 0 <= i < n ==> InClass(cls, s[i])
    ensures n < |s| ==> !InClass(cls, s[n])
  {
    if s == [] || !InClass(cls, s[0]) then 0 else 1 + Run(cls, s[1..])
  }

  /** `u` is a string the quantified class `a` accepts on its own. */
  predicate Accepts(a: Atom, u: seq<char>)
  {
    && (forall i :: 0 <= i < |u| ==> InClass(a.cls, u[i]))
    && match a.q
       case Once => |u| == 1
       case AtMostOnce => |u| <= 1
       case AtLeastOnce => |u| >= 1
       case AnyTimes => true
  }

  /** How many characters a quantified class takes, greedily: the longest
      prefix the atom accepts, or None when it accepts no prefix. */
  function AtomMatch(a: Atom, s: seq<char>): (r: Option<nat>)
    ensures r.Some? ==> r.value <= |s| && Accepts(a, s[..r.value])
    ensures forall k :: 0 <= k <= |s| && Accepts(a, s[..k]) ==> r.Some? && k <= r.value
  {
    var n := Run(a.cls, s);
    match a.q
    case Once => if n == 0 then None else Some(1)
    case AtMostOnce => Some(Min(n, 1))
    case AtLeastOnce => if n == 0 then None else Some(n)
    case AnyTimes => Some(n)
  }

  /** `t` is in the language of the chain: it splits into consecutive
      pieces, each accepted by its atom. */
  predicate InChain(atoms: seq<Atom>, t: seq<char>)
    decreases |atoms|
  {
    if atoms == [] then t == []
    else exists k :: 0 <= k <= |t| && Accepts(atoms[0], t[..k]) && InChain(atoms[1..], t[k..])
  }

  function ChainMatch(atoms: seq<Atom>, s: seq<char>): (r: Option<nat>)
    ensures r.Some? ==> r.value <= |s|
  {
    if atoms == [] then Some(0)
    else match AtomMatch(atoms[0], s)
      case None => None
      case Some(n) =>
        match ChainMatch(atoms[1..], s[n..])
        case None => None
        case Some(m) => Some(n + m)
  }

  /** Scans the body of a quoted literal from index `i` (just after the
      opening quote) and returns the index just past the closing quote. A
      backslash escapes the next character unless that is a line
      terminator; with `many` false exactly one item precedes the quote. */
  function QuotedEnd(quote: char, many: bool, s: seq<char>, i: nat, items: nat): (r: Option<nat>)
    requires i <= |s|
    ensures r.Some? ==> i < r.value <= |s| && s[r.value - 1] == quote
    decreases |s| - i
  {
    if i == |s| then None
    else if s[i] == quote then (if many || items == 1 then Some(i + 1) else None)
    else if !many && items == 1 then None
    else if s[i] == '\\' then
      (if i + 1 < |s| && !IsLineTerminator(s[i + 1]) then QuotedEnd(quote, many, s, i + 2, items + 1) else None)
    else QuotedEnd(quote, many, s, i + 1, items + 1)
  }

  /** What the chain matches is in the chain's language. */
  lemma {:induction false} ChainMatchSound(atoms: seq<Atom>, s: seq<char>)
    ensures ChainMatch(atoms, s).Some? ==> InChain(atoms, s[..ChainMatch(atoms, s).value])
    decreases |atoms|
  {
    if atoms != [] && ChainMatch(atoms, s).Some? {
      var n := AtomMatch(atoms[0], s).value;
      var m := ChainMatch(atoms[1..], s[n..]).value;
      ChainMatchSound(atoms[1..], s[n..]);
      var t := s[..n + m];
      assert t[..n] == s[..n];
      assert t[n..] == s[n..][..m];
    }
  }

  /** The number of items in `t` when `t` is the body of a quoted literal:
      a sequence of characters other than the quote and the backslash, or
      of a backslash followed by any character but a line terminator
      (`(?:[^q\\]|\\.)*`); None when `t` is not such a body. */
  function QuotedItems(quote: char, t: seq<char>): (r: Option<nat>)
    decreases |t|
  {
    if t == [] then Some(0)
    else if t[0] == '\\' then
      if |t| >= 2 && !IsLineTerminator(t[1]) then
        match QuotedItems(quote, t[2..])
        case Some(n) => Some(n + 1)
        case None => None
      else None
    else if t[0] == quote then None
    else
      match QuotedItems(quote, t[1..])
      case Some(n) => Some(n + 1)
      case None => None
  }

  /** The scan from `i` stops right after a body of well-formed items
      closed by the quote; with `many` false there is exactly one item. */
  lemma {:induction false} QuotedEndSound(quote: char, many: bool, s: seq<char>, i: nat, items: nat)
    requires i <= |s|
    ensures QuotedEnd(quote, many, s, i, items).Some? ==>
              var c := QuotedItems(quote, s[i..QuotedEnd(quote, many, s, i, items).value - 1]);
              c.Some? && (many || items + c.value == 1)
    decreases |s| - i
  {
    var r := QuotedEnd(quote, many, s, i, items);
    if r.Some? {
      var e := r.value;
      var t := s[i..e - 1];
      if s[i] == quote {
        assert t == [];
      } else if s[i] == '\\' {
        QuotedEndSound(quote, many, s, i + 2, items + 1);
        assert |t| >= 2 && t[0] == '\\' && t[1] == s[i + 1];
        assert t[2..] == s[i + 2..e - 1];
      } else {
        QuotedEndSound(quote, many, s, i + 1, items + 1);
        assert t != [] && t[0] == s[i];
        assert t[1..] == s[i + 1..e - 1];
      }
    }
  }

  /** `t` is in the language of the pattern. */
  predicate InPattern(p: Pattern, t: seq<char>)
  {
    match p
    case Literal(text) => t == text
    case Chain(atoms) => InChain(atoms, t)
    case Quoted(q, many) =>
      && |t| >= 2 && t[0] == q && t[|t| - 1] == q
      && QuotedItems(q, t[1..|t| - 1]).Some?
      && (many || QuotedItems(q, t[1..|t| - 1]) == Some(1))
  }

  /** `Pattern.matcher(input).find()` for a pattern anchored with `^`: the
      length of the match at the start of the input, if any. */
  function Match(p: Pattern, s: seq<char>): (r: Option<nat>)
    ensures r.Some? ==> r.value <= |s|
    ensures p.Literal? ==> (r.Some? <==> StartsWith(s, p.text))
    ensures p.Literal? && r.Some? ==> r.value == |p.text|
    ensures r.Some? ==> InPattern(p, s[..r.value])
  {
    match p
    case Literal(text) => if StartsWith(s, text) then Some(|text|) else None
    case Chain(atoms) =>
      ChainMatchSound(atoms, s);
      ChainMatch(atoms, s)
    case Quoted(q, many) =>
      if |s| > 0 && s[0] == q then
        QuotedEndSound(q, many, s, 1, 0);
        var r := QuotedEnd(q, many, s, 1, 0);
        if r.Some? then
          assert s[..r.value][1..r.value - 1] == s[1..r.value - 1];
          r
        else r
      else None
  }

  /** A pattern that cannot match the empty input. */
  predicate NeedsInput(p: Pattern)
  {
    match p
    case Literal(text) => text != []
    case Chain(atoms) => exists i :: 0 <= i < |atoms| && (atoms[i].q == Once || atoms[i].q == AtLeastOnce)
    case Quoted(_, _) => true
  }

  lemma {:induction false} ChainNeedsInput(atoms: seq<Atom>, i: nat)
    requires i < |atoms| && (atoms[i].q == Once || atoms[i].q == AtLeastOnce)
    ensures ChainMatch(atoms, []) == None
    decreases i
  {
    if i == 0 {
      assert AtomMatch(atoms[0], []) == None;
    } else {
      var empty: seq<char> := [];
      var n := AtomMatch(atoms[0], empty);
      if n.Some? {
        assert empty[n.value..] == empty;
        ChainNeedsInput(atoms[1..], i - 1);
      }
    }
  }

  /** No pattern that needs input matches at the end of the input. */
  lemma NoMatchOnEmpty(p: Pattern)
    requires NeedsInput(p)
    ensures Match(p, []) == None
  {
    if p.Chain? {
      var i :| 0 <= i < |p.atoms| && (p.atoms[i].q == Once || p.atoms[i].q == AtLeastOnce);
      ChainNeedsInput(p.atoms, i);
    }
  }
}
