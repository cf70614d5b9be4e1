/** `Lexer`: the token catalogue and the lexer state machine. The lexer is
    an immutable state record; every operation returns the next state. */
module Lexing {
  import opened Wrappers
  import opened Chars
  import opened Tokens
  import opened Buffer
  import opened Patterns
  import opened TokenRules
  import opened Registry

  // ---------------------------------------------------------------------
  // The catalogue (the static REGISTRY), in registration order.

  const OptionalMinus := Atom(Exactly('-'), AtMostOnce)

  /** The kinds registered with `register(tokenType)`, i.e. by keyword. */
  const KeywordKinds: seq<TokenType> :=
    [Struct, Trait, Enum, Auto, Static, Const, If, Else, While, For, Do, Break, Continue, Return, Defer]

  const TypeKinds: seq<TokenType> :=
    [I8, I16, I32, I64, I128, U8, U16, U32, U64, U128, F32, F64, Usize]

  /** The keyword rules of `kinds`, in order. */
  function Keywords(kinds: seq<TokenType>): (r: seq<Rule>)
    ensures |r| == |kinds|
    ensures forall i :: 0 <= i < |kinds| ==> r[i] == Keyword(kinds[i])
  {
    if kinds == [] then [] else [Keyword(kinds[0])] + Keywords(kinds[1..])
  }

  const KeywordRules: seq<Rule> := Keywords(KeywordKinds)

  const TypeRules: seq<Rule> := Keywords(TypeKinds)

  /** `^[a-zA-Z_][a-zA-Z0-9_]*` */
  const IdentifierPattern := Chain([Atom(IdentStart, Once), Atom(IdentPart, AnyTimes)])
  /** `^-?[0-9]+` */
  const DecimalPattern := Chain([OptionalMinus, Atom(Digit, AtLeastOnce)])
  /** `^-?0[bB][01]+` */
  const BinaryPattern := Chain([OptionalMinus, Atom(Exactly('0'), Once), Atom(OneOf("bB"), Once), Atom(BinaryDigit, AtLeastOnce)])
  /** `^-?0[oO][0-7]+` */
  const OctalPattern := Chain([OptionalMinus, Atom(Exactly('0'), Once), Atom(OneOf("oO"), Once), Atom(OctalDigit, AtLeastOnce)])
  /** `^-?0[xX][0-9a-fA-F]+` */
  const HexPattern := Chain([OptionalMinus, Atom(Exactly('0'), Once), Atom(OneOf("xX"), Once), Atom(HexDigit, AtLeastOnce)])
  /** `^-?[0-9]+\.[0-9]+` */
  const FractionPattern := Chain([OptionalMinus, Atom(Digit, AtLeastOnce), Atom(Exactly('.'), Once), Atom(Digit, AtLeastOnce)])
  /** `^-?[0-9]+\.[0-9]+[eE][+-]?[0-9]+` */
  const ExponentPattern := Chain([OptionalMinus, Atom(Digit, AtLeastOnce), Atom(Exactly('.'), Once), Atom(Digit, AtLeastOnce),
                                  Atom(OneOf("eE"), Once), Atom(OneOf("+-"), AtMostOnce), Atom(Digit, AtLeastOnce)])

  const LiteralRules: seq<Rule> := [
    Of(Identifier, IdentifierPattern, Identifier),
    Of(Integer, DecimalPattern, Integer),
    Of(Integer, BinaryPattern, Integer),
    Of(Integer, OctalPattern, Integer),
    Of(Integer, HexPattern, Integer),
    Of(Float, FractionPattern, Float),
    Of(Float, ExponentPattern, Float),
    Of(String, Quoted('"', true), String),
    Of(Char, Quoted('\'', false), Char)]

  const DelimiterRules: seq<Rule> := [
    OfPattern(LeftParen, Literal("(")), OfPattern(RightParen, Literal(")")),
    OfPattern(LeftBrace, Literal("{")), OfPattern(RightBrace, Literal("}")),
    OfPattern(LeftBracket, Literal("[")), OfPattern(RightBracket, Literal("]")),
    OfPattern(Comma, Literal(",")), OfPattern(Semicolon, Literal(";")),
    OfPattern(Colon, Literal(":")), OfPattern(Dot, Literal(".")),
    OfPattern(Question, Literal("?")), OfPattern(Exclamation, Literal("!"))]

  const ArithmeticOperatorRules: seq<Rule> := [
    OfPattern(Plus, Literal("+")), OfPattern(Minus, Literal("-")),
    OfPattern(Star, Literal("*")), OfPattern(Slash, Literal("/")),
    OfPattern(Percent, Literal("%"))]

  const BitwiseOperatorRules: seq<Rule> := [
    OfPattern(Ampersand, Literal("&")), OfPattern(Pipe, Literal("|")),
    OfPattern(Caret, Literal("^")), OfPattern(Tilde, Literal("~"))]

  const ShiftOperatorRules: seq<Rule> := [
    OfPattern(LeftShift, Literal("<<")), OfPattern(RightShift, Literal(">>")),
    OfPattern(ArithmeticRightShift, Literal(">>>"))]

  /** The operators, in registration order. */
  const OperatorRules: seq<Rule> := ArithmeticOperatorRules + BitwiseOperatorRules + ShiftOperatorRules

  const AssignmentRules: seq<Rule> := [
    OfPattern(Equal, Literal("=")), OfPattern(PlusEqual, Literal("+=")),
    OfPattern(MinusEqual, Literal("-=")), OfPattern(StarEqual, Literal("*=")),
    OfPattern(SlashEqual, Literal("/=")), OfPattern(PercentEqual, Literal("%=")),
    OfPattern(AmpersandEqual, Literal("&=")), OfPattern(PipeEqual, Literal("|=")),
    OfPattern(CaretEqual, Literal("^=")), OfPattern(LeftShiftEqual, Literal("<<=")),
    OfPattern(RightShiftEqual, Literal(">>=")), OfPattern(ArithmeticRightShiftEqual, Literal(">>>="))]

  const ComparisonRules: seq<Rule> := [
    OfPattern(EqualEqual, Literal("==")), OfPattern(NotEqual, Literal("!=")),
    OfPattern(Less, Literal("<")), OfPattern(LessEqual, Literal("<=")),
    OfPattern(Greater, Literal(">")), OfPattern(GreaterEqual, Literal(">="))]

  const MiscRules: seq<Rule> := [OfPattern(Arrow, Literal("->"))]

  /** Every rule the lexer registers, in the order it registers them. */
  const Registrations: seq<Rule> :=
    KeywordRules + TypeRules + LiteralRules + DelimiterRules
    + OperatorRules + AssignmentRules + ComparisonRules + MiscRules

  /** The built catalogue. */
  const Catalogue: TokenRegistry := Build(RegisterAll(NewBuilder(), Registrations))

  // ---------------------------------------------------------------------
  // Newline bookkeeping over skipped bytes.

  predicate IsNewline(b: Byte)
  {
    CharOf(b) == '\n'
  }

  /** How many newline bytes `bs` holds. */
  function Newlines(bs: seq<Byte>): nat
  {
    if bs == [] then 0 else (if IsNewline(bs[0]) then 1 else 0) + Newlines(bs[1..])
  }

  /** The index of the last newline byte of `bs`, or -1 when it has none. */
  function LastNewline(bs: seq<Byte>): (r: int)
    ensures -1 <= r < |bs|
    ensures r == -1 <==> forall i :: 0 <= i < |bs| ==> !IsNewline(bs[i])
    ensures r >= 0 ==> IsNewline(bs[r]) && forall i :: r < i < |bs| ==> !IsNewline(bs[i])
  {
    if bs == [] then -1
    else
      var last := LastNewline(bs[1..]);
      assert forall i :: 1 <= i < |bs| ==> bs[i] == bs[1..][i - 1];
      if last >= 0 then last + 1 else if IsNewline(bs[0]) then 0 else -1
  }

  /** The column reached from `column` after reading `bs`: the count of
      bytes after the last newline, or `column + |bs|` without newlines. */
  function ColumnAfter(column: nat, bs: seq<Byte>): nat
  {
    var last := LastNewline(bs);
    if last < 0 then column + |bs| else |bs| - 1 - last
  }

  // ---------------------------------------------------------------------
  // The lexer state.

  /** The catalogue it reads rules from, the buffer, its position, the
      current line and column, the stack of saved positions (`backup`) and
      the stack of pushed-back tokens (`returned`); stack tops are the last
      elements. */
  datatype Lexer = Lexer(registry: TokenRegistry, buffer: seq<Byte>, position: nat, line: nat, column: nat,
                         backups: seq<nat>, returned: seq<Token>)
  {
    predicate Valid()
    {
      position <= |buffer| && forall i :: 0 <= i < |backups| ==> backups[i] <= |buffer|
    }

    /** The `BufferCharSequence` over the buffer at its position. */
    function View(): (v: BufferView)
      requires Valid()
      ensures v.Valid()
    {
      BufferView(buffer, position)
    }

    /** `line()` */
    function Line(): nat
    {
      line
    }

    /** `column()` */
    function Column(): nat
    {
      column
    }
  }

  /** The state right after the file is mapped: the catalogue above, and
      position, line and column 0. */
  function Open(bytes: seq<Byte>): (lx: Lexer)
    ensures lx.Valid()
    ensures lx.position == 0 && lx.Line() == 0 && lx.Column() == 0
    ensures lx.backups == [] && lx.returned == []
    ensures lx.View().Chars() == Decode(bytes)
  {
    Lexer(Catalogue, bytes, 0, 0, 0, [], [])
  }

  /** `skipWhitespace()`: consumes `Character.isWhitespace` bytes; a newline
      moves to the next line at column 0, any other whitespace moves one
      column on; the first other byte is left unconsumed. What it computes
      is stated by `SkipWhitespaceSpec` below. */
  function SkipWhitespace(lx: Lexer): (r: Lexer)
    requires lx.Valid()
    ensures r.Valid()
    ensures r.registry == lx.registry && r.buffer == lx.buffer
    ensures r.backups == lx.backups && r.returned == lx.returned
    ensures lx.position <= r.position
    decreases |lx.buffer| - lx.position
  {
    if lx.position == |lx.buffer| then
      lx
    else
      var c := CharOf(lx.buffer[lx.position]);
      if c == '\n' then
        SkipWhitespace(lx.(position := lx.position + 1, line := lx.line + 1, column := 0))
      else if IsJavaWhitespace(c) then
        SkipWhitespace(lx.(position := lx.position + 1, column := lx.column + 1))
      else
        lx
  }

  /** `r` is where skipping whitespace from `lx` ends: every skipped byte
      is whitespace, the byte it stops at (if any) is not, the line grows
      by the skipped newlines and the column is the one reached after the
      skipped bytes. */
  predicate Skipped(lx: Lexer, r: Lexer)
    requires lx.Valid() && r.Valid() && r.buffer == lx.buffer && lx.position <= r.position
  {
    && (forall i :: lx.position <= i < r.position ==> IsJavaWhitespace(CharOf(lx.buffer[i])))
    && (r.position < |r.buffer| ==> !IsJavaWhitespace(CharOf(r.buffer[r.position])))
    && r.line == lx.line + Newlines(lx.buffer[lx.position..r.position])
    && r.column == ColumnAfter(lx.column, lx.buffer[lx.position..r.position])
  }

  /** What `skipWhitespace` does, as `Skipped` states it. */
  lemma {:induction false} SkipWhitespaceSpec(lx: Lexer)
    requires lx.Valid()
    ensures Skipped(lx, SkipWhitespace(lx))
    decreases |lx.buffer| - lx.position
  {
    var r := SkipWhitespace(lx);
    if lx.position < |lx.buffer| {
      var c := CharOf(lx.buffer[lx.position]);
      if c == '\n' || IsJavaWhitespace(c) {
        var next :=
          if c == '\n' then lx.(position := lx.position + 1, line := lx.line + 1, column := 0)
          else lx.(position := lx.position + 1, column := lx.column + 1);
        assert r == SkipWhitespace(next);
        SkipWhitespaceSpec(next);
        SkipOne(lx, next, r);
      } else {
        assert r == lx;
        assert lx.buffer[lx.position..r.position] == [];
      }
    } else {
      assert lx.buffer[lx.position..r.position] == [];
    }
  }

  /** Skipping one whitespace byte and then on to `r` is skipping to `r`. */
  lemma SkipOne(lx: Lexer, next: Lexer, r: Lexer)
    requires lx.Valid() && lx.position < |lx.buffer|
    requires IsJavaWhitespace(CharOf(lx.buffer[lx.position]))
    requires next == if IsNewline(lx.buffer[lx.position])
                     then lx.(position := lx.position + 1, line := lx.line + 1, column := 0)
                     else lx.(position := lx.position + 1, column := lx.column + 1)
    requires r.Valid() && r.buffer == lx.buffer && next.position <= r.position
    requires Skipped(next, r)
    ensures Skipped(lx, r)
  {
    SkipStep(lx.buffer, lx.position, r.position, lx.column);
  }

  /** At a byte that is not whitespace, or at the end, nothing is skipped. */
  lemma SkipNothing(lx: Lexer)
    requires lx.Valid()
    requires lx.position < |lx.buffer| ==> !IsJavaWhitespace(CharOf(lx.buffer[lx.position]))
    ensures SkipWhitespace(lx) == lx
  {
  }

  /** Skipping one whitespace byte and then `buffer[p + 1..q]` adds the
      newlines and reaches the column the whole run `buffer[p..q]` does. */
  lemma SkipStep(buffer: seq<Byte>, p: nat, q: nat, column: nat)
    requires p < q <= |buffer|
    ensures Newlines(buffer[p..q]) == (if IsNewline(buffer[p]) then 1 else 0) + Newlines(buffer[p + 1..q])
    ensures ColumnAfter(column, buffer[p..q])
         == ColumnAfter(if IsNewline(buffer[p]) then 0 else column + 1, buffer[p + 1..q])
  {
    assert buffer[p..q][1..] == buffer[p + 1..q];
  }

  // ---------------------------------------------------------------------
  // Selecting the longest token among the requested kinds.

  /** `t` is a token read at `view`: its text is a prefix of the remaining
      characters, stamped with the given line and column. */
  predicate ReadAt(t: Token, view: BufferView, line: nat, column: nat)
    requires view.Valid()
  {
    && t.Length() <= view.Length()
    && t.text == view.Chars()[..t.Length()]
    && t.line == line && t.column == column
  }

  /** What the registry produces for each requested kind, in request order. */
  function Candidates(reg: TokenRegistry, kinds: seq<TokenType>, view: BufferView, line: nat, column: nat): (r: seq<Option<Token>>)
    requires view.Valid()
    ensures |r| == |kinds|
    ensures forall i :: 0 <= i < |kinds| ==> r[i] == ProduceKind(reg, kinds[i], view, line, column)
    ensures forall i :: 0 <= i < |kinds| && r[i].Some? ==> ReadAt(r[i].value, view, line, column)
  {
    if kinds == [] then []
    else [ProduceKind(reg, kinds[0], view, line, column)] + Candidates(reg, kinds[1..], view, line, column)
  }

  /** `sel` is the first present candidate of maximal length among
      `cands[..upTo]` (None when none is present). */
  predicate FirstLongest(cands: seq<Option<Token>>, upTo: nat, sel: Option<nat>)
    requires upTo <= |cands|
  {
    && (sel.None? <==> forall j :: 0 <= j < upTo ==> cands[j].None?)
    && (sel.Some? ==>
          && sel.value < upTo && cands[sel.value].Some?
          && (forall j :: 0 <= j < upTo && cands[j].Some? ==> cands[j].value.Length() <= cands[sel.value].value.Length())
          && (forall j :: 0 <= j < sel.value && cands[j].Some? ==> cands[j].value.Length() < cands[sel.value].value.Length()))
  }

  /** The `for (TokenType type : types)` loop of `nextOf`: a candidate
      replaces the selection only when it is strictly longer. */
  function Scan(cands: seq<Option<Token>>, i: nat, sel: Option<nat>): (r: Option<nat>)
    requires i <= |cands|
    requires FirstLongest(cands, i, sel)
    ensures FirstLongest(cands, |cands|, r)
    decreases |cands| - i
  {
    if i == |cands| then sel
    else if cands[i].Some? && (sel.None? || cands[i].value.Length() > cands[sel.value].value.Length()) then
      Scan(cands, i + 1, Some(i))
    else
      Scan(cands, i + 1, sel)
  }

  /** The token the loop settles on: none exactly when no candidate is
      present, otherwise the first candidate of maximal length. */
  function Pick(cands: seq<Option<Token>>): (r: Option<Token>)
    ensures r.None? <==> forall i :: 0 <= i < |cands| ==> cands[i].None?
    ensures r.Some? ==> exists i :: 0 <= i < |cands| && FirstLongest(cands, |cands|, Some(i)) && cands[i] == r
  {
    var sel := Scan(cands, 0, None);
    if sel.None? then None
    else
      assert FirstLongest(cands, |cands|, Some(sel.value)) && cands[sel.value].Some?;
      cands[sel.value]
  }

  /** At most one index is the first longest candidate. */
  lemma FirstLongestUnique(cands: seq<Option<Token>>, n: nat, i: nat, j: nat)
    requires n <= |cands|
    requires FirstLongest(cands, n, Some(i)) && FirstLongest(cands, n, Some(j))
    ensures i == j
  {
  }

  // ---------------------------------------------------------------------
  // nextOf and the other operations.

  datatype Step = Step(token: Option<Token>, lexer: Lexer)

  /** The end-of-input token at the current line and column. */
  function EofToken(lx: Lexer): Token
  {
    Token(Eof, "", lx.line, lx.column)
  }

  /** The scanning part of `nextOf`, once whitespace is skipped and the
      registry has produced `cands` for the requested kinds: take the
      longest candidate (the earliest requested kind on a tie) and move the
      position and the column past it; if no candidate is present, nothing,
      and the lexer stays where it is. */
  function Advance(w: Lexer, cands: seq<Option<Token>>): (r: Step)
    requires w.Valid()
    requires forall i :: 0 <= i < |cands| && cands[i].Some? ==> ReadAt(cands[i].value, w.View(), w.line, w.column)
    ensures r.lexer.Valid()
    ensures r.lexer.registry == w.registry && r.lexer.buffer == w.buffer
    ensures r.lexer.backups == w.backups && r.lexer.returned == w.returned && r.lexer.line == w.line
    ensures r.token.None? <==> forall i :: 0 <= i < |cands| ==> cands[i].None?
    ensures r.token.None? ==> r.lexer == w
    ensures r.token.Some? ==>
              && (exists i :: 0 <= i < |cands| && FirstLongest(cands, |cands|, Some(i)) && cands[i] == r.token)
              && ReadAt(r.token.value, w.View(), w.line, w.column)
              && r.lexer.position == w.position + r.token.value.Length()
              && r.lexer.column == w.column + r.token.value.Length()
  {
    match Pick(cands)
    case None => Step(None, w)
    case Some(t) =>
      assert ReadAt(t, w.View(), w.line, w.column);
      Step(Some(t), w.(position := w.position + t.Length(), column := w.column + t.Length()))
  }

  /** Whatever index is the first longest candidate is the one `Advance`
      takes. */
  lemma AdvanceTakes(w: Lexer, cands: seq<Option<Token>>, i: nat)
    requires w.Valid()
    requires forall j :: 0 <= j < |cands| && cands[j].Some? ==> ReadAt(cands[j].value, w.View(), w.line, w.column)
    requires i < |cands| && FirstLongest(cands, |cands|, Some(i))
    ensures Advance(w, cands).token == cands[i]
  {
    var r := Advance(w, cands);
    var j :| 0 <= j < |cands| && FirstLongest(cands, |cands|, Some(j)) && cands[j] == r.token;
    FirstLongestUnique(cands, |cands|, i, j);
  }

  /** `nextOf(types...)`: a pushed-back token is replayed without scanning
      and without moving; with no bytes left, the EOF token at the current
      line and column; otherwise the scan above. */
  function NextOf(lx: Lexer, kinds: seq<TokenType>): (r: Step)
    requires lx.Valid()
    ensures r.lexer.Valid()
    ensures r.lexer.registry == lx.registry && r.lexer.buffer == lx.buffer && r.lexer.backups == lx.backups
    ensures lx.returned != [] ==>
              r.token == Some(lx.returned[|lx.returned| - 1])
              && r.lexer == lx.(returned := lx.returned[..|lx.returned| - 1])
    ensures lx.returned == [] && lx.position == |lx.buffer| ==>
              r.token == Some(EofToken(lx)) && r.lexer == lx
    ensures lx.returned == [] && lx.position < |lx.buffer| ==>
              var w := SkipWhitespace(lx);
              r == Advance(w, Candidates(w.registry, kinds, w.View(), w.line, w.column))
  {
    if lx.returned != [] then
      Step(Some(lx.returned[|lx.returned| - 1]), lx.(returned := lx.returned[..|lx.returned| - 1]))
    else if lx.position == |lx.buffer| then
      Step(Some(EofToken(lx)), lx)
    else
      var w := SkipWhitespace(lx);
      Advance(w, Candidates(w.registry, kinds, w.View(), w.line, w.column))
  }

  /** `backup()`: pushes the current position. */
  function Backup(lx: Lexer): (r: Lexer)
    requires lx.Valid()
    ensures r.Valid()
    ensures r.backups == lx.backups + [lx.position]
    ensures r.(backups := lx.backups) == lx
  {
    lx.(backups := lx.backups + [lx.position])
  }

  /** `restore()`: pops the saved position and moves back to it; line and
      column stay as they are. An empty stack fails (EmptyStackException). */
  function Restore(lx: Lexer): (r: Option<Lexer>)
    requires lx.Valid()
    ensures r.None? <==> lx.backups == []
    ensures r.Some? ==> r.value.Valid()
    ensures r.Some? ==> r.value == lx.(position := lx.backups[|lx.backups| - 1],
                                       backups := lx.backups[..|lx.backups| - 1])
  {
    if lx.backups == [] then None
    else
      var top := |lx.backups| - 1;
      Some(lx.(position := lx.backups[top], backups := lx.backups[..top]))
  }

  /** `returnToken(token)`: pushes a token for the next `nextOf` to replay. */
  function ReturnToken(lx: Lexer, t: Token): (r: Lexer)
    requires lx.Valid()
    ensures r.Valid()
    ensures r.returned == lx.returned + [t]
    ensures r.(returned := lx.returned) == lx
  {
    lx.(returned := lx.returned + [t])
  }

  /** `hasNext()`: skips whitespace (keeping the effect) and reports
      whether any byte remains. */
  function HasNext(lx: Lexer): (r: (bool, Lexer))
    requires lx.Valid()
    ensures r.1 == SkipWhitespace(lx)
    ensures r.0 <==> exists i :: lx.position <= i < |lx.buffer| && !IsJavaWhitespace(CharOf(lx.buffer[i]))
  {
    var w := SkipWhitespace(lx);
    SkipWhitespaceSpec(lx);
    if w.position < |w.buffer| then
      (true, w)
    else
      (false, w)
  }

  /** `slice(length)`: up to `length` bytes from the position, without
      moving it. A negative length fails (NegativeArraySizeException). */
  function Slice(lx: Lexer, length: int): (r: Result<seq<char>>)
    requires lx.Valid()
    ensures r.Failure? <==> length < 0
    ensures r.Success? ==> |r.value| == Min(length, |lx.buffer| - lx.position)
    ensures r.Success? ==> r.value == lx.View().Chars()[..|r.value|]
  {
    var n := Min(length, |lx.buffer| - lx.position);
    if n < 0 then Failure("NegativeArraySizeException")
    else Success(Decode(lx.buffer[lx.position..lx.position + n]))
  }
}
