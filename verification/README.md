# osta lexer and parser combinators, modelled in Dafny

This project models two self-contained pieces of the osta Java compiler and proves their behaviour.

**The token lexer.** It has three parts:
- `TokenProducerRegistry` and its `Builder` file every `TokenRule` under a token kind, in registration order. `produce` answers with the token of the first rule of that kind that matches.
- `BufferCharSequence` is the view of the memory-mapped file that rules read from.
- `Lexer` skips white space while counting lines and columns, then picks the longest token among the kinds the caller asks for. It also keeps a stack of pushed-back tokens, a stack of saved positions (`backup`/`restore`), the end-of-input rule, `hasNext` and `slice`.

The registry the lexer is built with (`Lexer.REGISTRY`) is written out rule by rule. Its regular expressions are modelled concretely, as greedy character-class chains plus a scanner for quoted literals.

**The parser combinators and the expression grammar.** The combinators are those of `Parser`: `noop`, `item`, `literal`, `regex`, `sequence`, `oneOf`/`anyOf`, `optional`, `map`, `zeroOrMore`, `oneOrMore`, `surroundedBy` and `skipWhitespace`. On top of them sits the right-recursive grammar of `IdentifierAST`, `FactorExprAST`, `BinaryExprAST`, `ExprAST` and `AssignStmtAST`. `CST`, the concrete syntax tree, is modelled too: append-only children, cyclic `ith` and the breadth-first `toString`.

A parser is a pure function from the input characters to an `Outcome`:
- `Parsed(ast, rest)` is a `ParseResult`;
- `Failed(message)` is a `ParseException`;
- `Crashed(error)` is any other exception.

The split matters: `oneOf` catches only `ParseException`, while `zeroOrMore` catches everything.

**How each combinator is stated.** Every combinator has a first-order reference function `XAt(..., s)`, which carries the contract. A lemma then shows that the Java combinator expression computes exactly that function. For example, `Optional` is `oneOf(map(p, of), map(noop(), empty))`, and it is shown to equal `OptionalAt`.

**Modules**, one per file:

- `Wrappers`, `Chars`, `Tokens`: shared result types, character classes and the token type.
- `Buffer`: `BufferCharSequence`.
- `Patterns`: the catalogue's regular expressions.
- `TokenRules`: `TokenRule`.
- `Registry`: the registry and its builder.
- `Lexing`: `Lexer` and its catalogue.
- `CatalogueFacts`, `LexerLaws`, `LexerExamples`: lemmas and worked inputs for the lexer.
- `Cst`: `CST`.
- `Ast`: the AST node types.
- `Combinators`: `Parser`.
- `Grammar`, `Statements`: the grammar.
- `Construction`: building the parsers the way the Java methods do.
- `GrammarLaws`, `CombinatorExamples`, `GrammarExamples`: lemmas and the repository's test inputs.

## Model

| member | source | states |
|---|---|---|
| `Buffer.BufferView.Length` | src/main/java/org/osta/text/BufferCharSequence.java:16-18 | the view's length is the buffer's remaining byte count, one character per byte |
| `Buffer.BufferView.CharAt` | src/main/java/org/osta/text/BufferCharSequence.java:21-23 | the byte at position plus index, cast to a char without decoding; it fails outside the whole buffer, so a negative index reads bytes before the view |
| `Buffer.BufferView.SubSequence` | src/main/java/org/osta/text/BufferCharSequence.java:27-34 | as written: succeeds exactly when 0 <= end - start <= length and then yields the first end - start characters of the view, whatever start is |
| `Buffer.SubSequenceIgnoresStart` | src/main/java/org/osta/text/BufferCharSequence.java:27-34 | only the difference end - start reaches the result |
| `Buffer.SubSequenceFromZeroAgrees` | src/main/java/org/osta/text/BufferCharSequence.java:27-34 | from start 0, the only call token rules make, the as-written and intended subSequence succeed on the same arguments and agree |
| `Buffer.SubSequenceMisreadsOffset` | src/main/java/org/osta/text/BufferCharSequence.java:27-34 | over "abc", subSequence(1, 3) yields "ab" where the intended definition yields "bc" |
| `Buffer.BufferView.SubSequenceIntended` | src/main/java/org/osta/text/BufferCharSequence.java:27-34 | the CharSequence meaning: succeeds exactly when 0 <= start <= end <= length and yields the characters at indices start to end - 1 |
| `Patterns.AtomMatch` | src/main/java/org/osta/lex/Lexer.java:49-55 | a quantified character class matches greedily: what it takes is accepted, and no longer accepted prefix exists |
| `Patterns.ChainMatchSound` | src/main/java/org/osta/lex/Lexer.java:49-55 | what a chain of classes matches splits into pieces each atom accepts |
| `Patterns.QuotedEndSound` | src/main/java/org/osta/lex/Lexer.java:56-57 | a quoted literal ends at the first unescaped closing quote, with a body of plain characters and backslash escapes (exactly one item for CHAR) |
| `Patterns.Match` | src/main/java/org/osta/lex/token/TokenRule.java:26-28 | an anchored `find`: a literal pattern matches exactly when the input starts with it and then takes its length; every match is a prefix in the pattern's language |
| `Patterns.NoMatchOnEmpty` | src/main/java/org/osta/lex/Lexer.java:19-105 | a pattern that needs at least one character does not match the empty input |
| `TokenRules.Produce` | src/main/java/org/osta/lex/token/TokenRule.java:26-32 | empty exactly when the pattern does not match the view; otherwise a token of the producer's kind, at the given line and column, whose text is the matched prefix |
| `TokenRules.Of` | src/main/java/org/osta/lex/token/TokenRule.java:10-12 | a rule keeps the kind it is filed under, its pattern and its producer; the kind it is filed under need not be the kind its producer stamps |
| `TokenRules.OfPattern` | src/main/java/org/osta/lex/token/TokenRule.java:14-16 | the default producer stamps the rule's own kind, so its tokens are of the kind it is filed under |
| `TokenRules.Keyword` | src/main/java/org/osta/lex/token/TokenRule.java:18-24 | a keyword rule is filed under its kind and stamps it, and its pattern is the lower-cased enum name matched as a prefix |
| `TokenRules.LiteralRuleProduces` | src/main/java/org/osta/lex/token/TokenRule.java:14-16 | a literal rule produces its own text exactly when the input starts with it, and nothing otherwise |
| `TokenRules.KeywordMatchesPrefix` | src/main/java/org/osta/lex/token/TokenRule.java:18-24 | a keyword rule produces the lower-cased kind name wherever the input starts with it |
| `TokenRules.StructMatchesInsideStructure` | src/main/java/org/osta/lex/token/TokenRule.java:18-24 | STRUCT's rule reads "struct" off "structure" |
| `Registry.NewBuilder` | src/main/java/org/osta/lex/token/registry/TokenProducerRegistry.java:27-35 | a new builder has no rule for any kind |
| `Registry.RegisterFor` | src/main/java/org/osta/lex/token/registry/TokenProducerRegistry.java:37-40 | the rule is appended to its kind's list; every other list is unchanged |
| `Registry.Register` | src/main/java/org/osta/lex/token/registry/TokenProducerRegistry.java:42-44 | the rule is filed under its own kind, after the earlier rules of that kind |
| `Registry.RegisterKeyword` | src/main/java/org/osta/lex/token/registry/TokenProducerRegistry.java:46-48 | the kind's keyword rule is appended to that kind's list and nothing else changes |
| `Registry.RegisterAll` | src/main/java/org/osta/lex/token/registry/TokenProducerRegistry.java:50-53 | every kind's list grows by exactly the given rules of that kind, in list order |
| `Registry.FilterAppend` | src/main/java/org/osta/lex/token/registry/TokenProducerRegistry.java:50-53 | registering two lists one after the other files, per kind, the first list's rules before the second's |
| `Registry.Build` | src/main/java/org/osta/lex/token/registry/TokenProducerRegistry.java:55-57 | the registry holds every kind's list exactly as the builder had it |
| `Registry.FirstProduced` | src/main/java/org/osta/lex/token/registry/TokenProducerRegistry.java:18-25 | empty exactly when no rule produces; otherwise the token of some rule before which every rule produced nothing |
| `Registry.ProduceKind` | src/main/java/org/osta/lex/token/registry/TokenProducerRegistry.java:18-25 | a kind without rules produces nothing; a produced token is a prefix of the view, at the given line and column |
| `Registry.FirstRuleWins` | src/main/java/org/osta/lex/token/registry/TokenProducerRegistry.java:18-25 | when a kind's first rule matches, its token is the answer even if a later rule would match more |
| `CatalogueFacts.CatalogueByGroup` | src/main/java/org/osta/lex/Lexer.java:17-106 | each kind's list in the catalogue is that kind's rules from each registration group, group after group |
| `CatalogueFacts.CatalogueIntegerFirst` | src/main/java/org/osta/lex/Lexer.java:50-53 | INTEGER's first rule is the decimal pattern |
| `CatalogueFacts.CatalogueFloatFirst` | src/main/java/org/osta/lex/Lexer.java:54-55 | FLOAT's first rule is the plain fraction pattern |
| `CatalogueFacts.CatalogueArithmeticRightShift` | src/main/java/org/osta/lex/Lexer.java:81-83 | ">>>" is the only rule filed under ARITHMETIC_RIGHT_SHIFT |
| `Lexing.Open` | src/main/java/org/osta/lex/Lexer.java:111-114 | a new lexer starts at position, line and column 0, with both stacks empty, viewing every byte of the file |
| `Lexing.SkipWhitespaceSpec` | src/main/java/org/osta/lex/Lexer.java:122-135 | every skipped byte is white space and the byte it stops at is not; the line grows by the newlines skipped; the column counts the bytes after the last one, or grows by the bytes skipped when there is none |
| `Lexing.Candidates` | src/main/java/org/osta/lex/Lexer.java:146-147 | one registry answer per requested kind, in request order, each a prefix of the view at the current line and column |
| `Lexing.Scan` | src/main/java/org/osta/lex/Lexer.java:145-154 | the loop ends on the first candidate of maximal length: none longer, and every earlier one strictly shorter |
| `Lexing.Pick` | src/main/java/org/osta/lex/Lexer.java:145-157 | nothing exactly when no requested kind produced a token; otherwise the first longest candidate |
| `Lexing.FirstLongestUnique` | src/main/java/org/osta/lex/Lexer.java:150-152 | at most one candidate is the first longest |
| `Lexing.Advance` | src/main/java/org/osta/lex/Lexer.java:155-162 | with no candidate, nothing and no movement past the white space; otherwise the first longest token, with the position and the column moved on by its length and the line unchanged |
| `Lexing.AdvanceTakes` | src/main/java/org/osta/lex/Lexer.java:146-162 | whichever candidate is the first longest is the token taken |
| `Lexing.NextOf` | src/main/java/org/osta/lex/Lexer.java:137-166 | a pushed-back token is popped without moving; with no bytes left, the EOF token at the current line and column; otherwise white space is skipped and the longest token taken |
| `Lexing.Backup` | src/main/java/org/osta/lex/Lexer.java:191-193 | the position is pushed and nothing else changes |
| `Lexing.Restore` | src/main/java/org/osta/lex/Lexer.java:195-197 | fails exactly when nothing was saved; otherwise the last saved position is popped and becomes the position, and line and column stay |
| `Lexing.ReturnToken` | src/main/java/org/osta/lex/Lexer.java:199-201 | the token is pushed and nothing else changes |
| `Lexing.HasNext` | src/main/java/org/osta/lex/Lexer.java:203-206 | the white space is skipped for good; the answer is true exactly when a byte that is not white space remains |
| `Lexing.Slice` | src/main/java/org/osta/lex/Lexer.java:174-181 | fails exactly on a negative length; otherwise the next min(length, remaining) characters, without moving |
| `LexerLaws.ReplayPushedBack` | src/main/java/org/osta/lex/Lexer.java:137-140 | after a token is pushed back, the next nextOf returns it whatever kinds are asked for, and the lexer is as it was before the push |
| `LexerLaws.PushBackIsLifo` | src/main/java/org/osta/lex/Lexer.java:199-201 | two pushed-back tokens come back last in, first out |
| `LexerLaws.RestoreUndoesBackup` | src/main/java/org/osta/lex/Lexer.java:191-197 | restore straight after backup changes nothing |
| `LexerLaws.RestoreRewindsPositionOnly` | src/main/java/org/osta/lex/Lexer.java:195-197 | after backup and a nextOf, restore returns to the saved position but keeps the line and column the read reached |
| `LexerLaws.BackupIsLifo` | src/main/java/org/osta/lex/Lexer.java:191-197 | saved positions come back last in, first out |
| `LexerLaws.EofAtEnd` | src/main/java/org/osta/lex/Lexer.java:165 | with no pushed-back token and no bytes left, the EOF token and no movement |
| `LexerLaws.TrailingWhitespaceYieldsNothing` | src/main/java/org/osta/lex/Lexer.java:142-165 | when only white space is left, nextOf consumes it and answers nothing, not EOF; only the next call answers EOF |
| `LexerLaws.NoNextMeansEof` | src/main/java/org/osta/lex/Lexer.java:203-206 | when hasNext says no, the next nextOf answers EOF |
| `LexerLaws.AccessorsAfterNext` | src/main/java/org/osta/lex/Lexer.java:183-189 | after `nextOf` scans a token, `line()` is the token's line and `column()` the column just past it; a replayed token leaves both unchanged |
| `LexerLaws.CatalogueNeedsInput` | src/main/java/org/osta/lex/Lexer.java:17-106 | no rule of the catalogue matches the empty input |
| `LexerExamples.LongestOperatorWins` | src/main/java/org/osta/lex/Lexer.java:146-154 | asked for RIGHT_SHIFT then ARITHMETIC_RIGHT_SHIFT on ">>>", the lexer returns ">>>" |
| `LexerExamples.IdentifierBeatsKeywordPrefix` | src/main/java/org/osta/lex/Lexer.java:150 | asked for STRUCT then IDENTIFIER on "structure", the lexer returns the identifier "structure" |
| `LexerExamples.TieGoesToFirstKind` | src/main/java/org/osta/lex/Lexer.java:150 | on "struct" both kinds read six characters, and the kind asked for first wins |
| `LexerExamples.HexReadsAsDecimalZero` | src/main/java/org/osta/lex/Lexer.java:50-53 | INTEGER on "0x1F" is "0", because the decimal rule is registered before the hex rule |
| `LexerExamples.ExponentIsLeftBehind` | src/main/java/org/osta/lex/Lexer.java:54-55 | FLOAT on "1.5e3" is "1.5", because the plain fraction rule is registered first |
| `Cst.Leaf` | src/main/java/org/osta/parse/CST.java:13-15 | a new node has its token and no children |
| `Cst.Child` | src/main/java/org/osta/parse/CST.java:17-20 | the child is appended after the existing children, which stay in place; the token is unchanged; the child itself is returned |
| `Cst.ChildToken` | src/main/java/org/osta/parse/CST.java:22-24 | a fresh leaf for the token is appended and returned |
| `Cst.Ith` | src/main/java/org/osta/parse/CST.java:26-37 | null exactly when there are no children; otherwise the child at i modulo n, taken into 0 to n - 1 |
| `Cst.IthLastAndFirst` | src/main/java/org/osta/parse/CST.java:31-36 | ith(-1) is the last child and ith(n) the first |
| `Cst.UnescapeEscape` | src/main/java/org/osta/parse/CST.java:51 | quote escaping in labels loses nothing: the escaped text reads back as the original |
| `Cst.BfsCounts` | src/main/java/org/osta/parse/CST.java:42-63 | the breadth-first loop emits one label line per node of the pending trees, and one edge line per node that is not itself pending |
| `Cst.RenderShape` | src/main/java/org/osta/parse/CST.java:39-65 | a tree of N nodes renders as N label lines and N - 1 edge lines, starting with the root's label |
| `Ast.From` | src/main/java/org/osta/parse/ast/BinaryExprAST.java:19-34 | succeeds exactly on the five operator symbols, and then on the operator written that way; any other string gives "unreachable" |
| `Ast.FromSymbol` | src/main/java/org/osta/parse/ast/BinaryExprAST.java:19-30 | from reads back the symbol of every operator |
| `Ast.OptionalOf` | src/main/java/org/osta/parse/ast/OptionalAST.java:14-16 | an optional node holding exactly the given tree |
| `Ast.OptionalEmpty` | src/main/java/org/osta/parse/ast/OptionalAST.java:18-20 | an optional node holding no tree |
| `Combinators.Noop` | src/main/java/org/osta/parse/Parser.java:17-19 | always succeeds with an empty tree and consumes nothing |
| `Combinators.ItemAt` | src/main/java/org/osta/parse/Parser.java:160-167 | fails with UNEXPECTED_EOF exactly on empty input; otherwise consumes exactly one character |
| `Combinators.LiteralAt` | src/main/java/org/osta/parse/Parser.java:169-180 | succeeds exactly when the input starts with the literal and leaves what follows; a shorter input is UNEXPECTED_EOF even when it is a prefix of the literal; any other mismatch is EXPECTED_LITERAL |
| `Combinators.RegexAt` | src/main/java/org/osta/parse/Parser.java:182-199 | succeeds exactly when the matcher matches a prefix; the tree is that prefix and its groups, the rest is what follows; otherwise the given message |
| `Combinators.Sequence` | src/main/java/org/osta/parse/Parser.java:40-43 | fails with IllegalArgumentException exactly on an empty list of parsers; otherwise the parser runs them one after the other, each on the rest the previous one left |
| `Combinators.ThreadSound` | src/main/java/org/osta/parse/Parser.java:45-53 | a successful sequence runs each parser where the previous one stopped, with one tree per parser, in order |
| `Combinators.ThreadComplete` | src/main/java/org/osta/parse/Parser.java:45-53 | whenever the parsers thread that way, the sequence succeeds with exactly those trees and that rest |
| `Combinators.ThreadFails` | src/main/java/org/osta/parse/Parser.java:45-53 | a failing sequence passes on the exception of the first parser that throws, at the input the earlier ones left |
| `Combinators.FirstOf` | src/main/java/org/osta/parse/Parser.java:102-112 | every alternative sees the same input; the first outcome that is not a ParseException wins; when all throw one, the last alternative's |
| `Combinators.OneOf` | src/main/java/org/osta/parse/Parser.java:97-113 | fails with IllegalArgumentException exactly on an empty list of parsers; otherwise the parser tries the alternatives as FirstOf says |
| `Combinators.MapAt` | src/main/java/org/osta/parse/Parser.java:124-129 | the tree is transformed and the rest kept; an exception of the parser or of the mapping escapes |
| `Combinators.OptionalAt` | src/main/java/org/osta/parse/ast/OptionalAST.java:22-27 | never a ParseException; a present value with the parser's rest when it succeeds; an empty value and the whole input when it throws a ParseException |
| `Combinators.Optional` | src/main/java/org/osta/parse/Parser.java:115-117 | the oneOf of the mapped parser and the mapped noop computes OptionalAt |
| `Combinators.Many` | src/main/java/org/osta/parse/Parser.java:131-147 | the collected trees are a run of the parser threaded through the input, and the parser does not succeed where the run stops |
| `Combinators.OneOrMoreAt` | src/main/java/org/osta/parse/Parser.java:149-158 | fails exactly as the first attempt fails; otherwise the first tree followed by a maximal run |
| `Combinators.OneOrMore` | src/main/java/org/osta/parse/Parser.java:149-158 | the map of sequence(parser, zeroOrMore(parser)) with the head put in front computes OneOrMoreAt |
| `Combinators.SurroundedAt` | src/main/java/org/osta/parse/Parser.java:202-207 | the inner tree, read after one surrounder and followed by another; the first failure is passed on |
| `Combinators.SurroundedBy` | src/main/java/org/osta/parse/Parser.java:202-207 | the map of the three-part sequence to its middle tree computes SurroundedAt |
| `Combinators.Whitespace` | src/main/java/org/osta/parse/Parser.java:210 | the white-space regex never fails and leaves the input without its leading white space |
| `Combinators.SkipWhitespaceAt` | src/main/java/org/osta/parse/Parser.java:209-211 | the inner parser on the input with leading white space dropped, and the white space after it consumed as well |
| `Combinators.SkipWhitespace` | src/main/java/org/osta/parse/Parser.java:209-211 | surrounding by the white-space regex computes SkipWhitespaceAt |
| `CombinatorExamples.LiteralLeavesRest` | src/test/java/org/osta/parse/BasicCombinatorsTest.java:40-44 | literal("hello") on "hello world" leaves " world" |
| `CombinatorExamples.ZeroOrMoreStopsAtMismatch` | src/test/java/org/osta/parse/BasicCombinatorsTest.java:30-37 | zeroOrMore(literal("ab")) on "ababz" gives two "ab" trees and the rest "z" |
| `CombinatorExamples.OptionalOnBothSides` | src/test/java/org/osta/parse/BasicCombinatorsTest.java:17-27 | optional(literal("ab")) leaves "bab" whole with an empty value and reads "ab" off "abab" |
| `CombinatorExamples.SkipWhitespaceBothSides` | src/test/java/org/osta/parse/BasicCombinatorsTest.java:49-55 | skipWhitespace(literal("a")) on "   a    b" reads "a" and leaves "b" |
| `Grammar.IdentifierAt` | src/main/java/org/osta/parse/ast/IdentifierAST.java:18-23 | succeeds exactly when the input starts with a letter or underscore; the identifier is the longest run of letters, digits and underscores; otherwise "Invalid identifier" |
| `Grammar.IdentifierBridge` | src/main/java/org/osta/parse/ast/IdentifierAST.java:18-23 | the identifier regex, mapped to an identifier node, computes IdentifierAt on every input |
| `Grammar.IdentifierParser` | src/main/java/org/osta/parse/ast/IdentifierAST.java:18-23 | the identifier regex mapped to its text computes IdentifierAt |
| `Grammar.FactorAt` | src/main/java/org/osta/parse/ast/FactorExprAST.java:6-8 | the integer parser's result when it succeeds; else an identifier; it fails with "Invalid identifier" exactly when neither starts |
| `Grammar.Factor` | src/main/java/org/osta/parse/ast/FactorExprAST.java:7 | oneOf(integer, identifier) computes FactorAt |
| `Grammar.OperatorAt` | src/main/java/org/osta/parse/ast/BinaryExprAST.java:58-64 | succeeds exactly on one of the five operator characters, and from accepts that character; otherwise UNEXPECTED_EOF on empty input, or the EXPECTED_LITERAL of "%", the last alternative |
| `Grammar.Operator` | src/main/java/org/osta/parse/ast/BinaryExprAST.java:58-64 | the oneOf of the five literals computes OperatorAt |
| `Grammar.MakeBinary` | src/main/java/org/osta/parse/ast/BinaryExprAST.java:67-74 | succeeds exactly on a sequence whose first and third trees are expressions and whose second is an operator literal; the node is left, from(op), right |
| `Grammar.BinaryAt` | src/main/java/org/osta/parse/ast/BinaryExprAST.java:54-76 | a binary node's left operand is the factor at the front; without an operator after the factor, the operator's exception |
| `Grammar.BinaryBridge` | src/main/java/org/osta/parse/ast/BinaryExprAST.java:54-76 | the map of sequence(factor, operator, expression) through the binary-node builder computes BinaryAt on every input |
| `Grammar.BinaryParser` | src/main/java/org/osta/parse/ast/BinaryExprAST.java:54-76 | the binary parser, with the right operand deferred, computes BinaryAt |
| `Grammar.ParenAt` | src/main/java/org/osta/parse/ast/ExprAST.java:16-29 | a parsed parenthesised expression is an expression and consumes input; when no "(" follows the leading white space, it fails as `literal("(")` does on the trimmed input |
| `Grammar.ParenShape` | src/main/java/org/osta/parse/ast/ExprAST.java:16-29 | a parenthesised expression has "(" after the leading white space, and its tree is the expression after it; no white space is left in front of the rest |
| `Grammar.ParenOfParts` | src/main/java/org/osta/parse/ast/ExprAST.java:16-29 | "(" after white space, an expression and ")" make a parenthesised expression, ending after the white space that follows ")" |
| `Grammar.ParenBridge` | src/main/java/org/osta/parse/ast/ExprAST.java:16-29 | skipWhitespace of the "(", expression, ")" sequence, mapped to its middle tree, computes ParenAt on every input |
| `Grammar.ParenParser` | src/main/java/org/osta/parse/ast/ExprAST.java:16-29 | the lazily built parenthesised parser computes ParenAt |
| `Grammar.ExprAt` | src/main/java/org/osta/parse/ast/ExprAST.java:12-31 | a parsed expression is an identifier, an integer or a binary node, and consumes input |
| `Grammar.ExprOf` | src/main/java/org/osta/parse/ast/ExprAST.java:12-31 | oneOf(binary, factor, parenthesised) computes ExprAt |
| `GrammarLaws.OperatorIsAbsorbed` | src/main/java/org/osta/parse/ast/ExprAST.java:13-15 | a factor directly followed by an operator and an expression is always read as one binary node |
| `GrammarLaws.NoOperatorMeansFactor` | src/main/java/org/osta/parse/ast/BinaryExprAST.java:58-64 | without an operator right after the factor, the binary parser fails and the expression is the bare factor |
| `GrammarExamples.BinaryOnTest` | src/test/java/org/osta/parse/ExprParseTest.java:13-23 | "0+1*a" is ADD(0, MULT(1, a)) with nothing left |
| `GrammarExamples.ExprOnSpacedSum` | src/main/java/org/osta/parse/ast/BinaryExprAST.java:54-76 | no white space is skipped before an operator, so "1 + 1;" is just 1 with the rest " + 1;" |
| `GrammarExamples.ParenthesisedIsNotLeftOperand` | src/main/java/org/osta/parse/ast/ExprAST.java:13-31 | "(1)+2" is the inner 1 with the rest "+2" |
| `Statements.MakeAssign` | src/main/java/org/osta/parse/ast/AssignStmtAST.java:19-24 | succeeds exactly when the first tree is an identifier and the third an expression; the target is the first and the value the third |
| `Statements.AssignAt` | src/main/java/org/osta/parse/ast/AssignStmtAST.java:16-25 | without an identifier at the front it fails with "Invalid identifier"; a parsed statement assigns an expression to an identifier |
| `Statements.AssignShape` | src/main/java/org/osta/parse/ast/AssignStmtAST.java:16-25 | succeeds exactly when an identifier, "=" after optional white space, and an expression after more white space all parse; the node is that identifier and that expression |
| `Statements.LeadingSpaceFails` | src/main/java/org/osta/parse/ast/AssignStmtAST.java:18 | leading white space makes the statement fail with "Invalid identifier" |
| `Statements.AssignParserBridge` | src/main/java/org/osta/parse/ast/AssignStmtAST.java:16-25 | the map of sequence(identifier, skipWhitespace("="), expression) computes AssignAt |
| `GrammarExamples.AssignOnTest` | src/test/java/org/osta/parse/StmtParseTest.java:11-14 | "a = 1 + 1;" gives the assignment of 1 to a, leaving " + 1;" |
| `Construction.NeverBuiltWith` | src/main/java/org/osta/parse/ast/BinaryExprAST.java:54-76 | when each parser's method must first build the other's parser, neither is ever built, however deep the stack and whatever each method makes of the other's parser |
| `Construction.NeverBuilt` | src/main/java/org/osta/parse/ast/ExprAST.java:12-31 | with the alternatives and the mapped sequence as written, building either expression parser never finishes |

## Left out

- The `Lexer` constructor and `close` memory-map a file and release it. This is I/O. The model starts from the file's bytes (`Lexing.Open`).
- `java.util.regex` is not modelled. `Parser.regex` takes an abstract prefix matcher. The catalogue's expressions are modelled by hand: greedy chains of disjoint character classes, and a scanner for quoted literals.
- Characters are bytes. `BufferCharSequence` casts each byte to `char`, and `new String(bytes)` is modelled by the same cast. This agrees with the default charset on ASCII only.
- A token's length is the length of its decoded text (Token.java:4-6), and `nextOf` advances the position and column by it (Lexer.java:159-160). Under the byte cast every byte is one character, so the model advances by exactly the bytes matched. With a multi-byte default charset, the source decodes a multi-byte token into fewer characters and advances by fewer bytes than it matched; that is not modelled.
- On the parser side, strings are `seq<char>`, one element per Unicode scalar value, while a Java `String` counts UTF-16 units. `item` and the length test of `literal` therefore agree with the source only on characters of the Basic Multilingual Plane.
- `Patterns.ChainMatchSound`: shows that a chain match lies in the chain's language, but not that it is the longest such prefix.
- `Combinators.Many`: requires the parser to consume input whenever it succeeds, because `zeroOrMore` loops forever otherwise.
- `Combinators.OneOrMoreAt`: requires the same of the parser, for the same reason.
- `Cst.Child`: the node is a value, so the returned child is a copy. Children appended through it later do not reach the parent's tree, as they do through the shared Java object (CST.java:17-19); a chain such as `root.child(a).child(t)` is not modelled.
- `Cst.ChildToken`: the returned leaf is likewise a copy, and appends made through it do not reach the parent (CST.java:22-24).
- `CST.toString` names nodes by `hashCode`. The model names a line's node by the node itself. Shared or cyclic child lists, which the mutable Java objects allow, are not represented.
- `Parser.lazy` only delegates. `Parser.test`, which runs a parser and throws the supplied `ParseException` when a predicate rejects its tree, is used by none of the modelled parsers and is not part of this model.
- `IntLiteralAST` has no parser, although `FactorExprAST` calls one. The integer parser is a parameter: any parser that yields an integer literal and consumes input. The examples use a stand-in for `-?[0-9]+`. Its value is unbounded, not a 32-bit `Integer`.
- `BinaryExprAST` reads `sequenceAst.value()[i]`, but `SequenceAST` only has `values()`. It is modelled as `values().get(i)`.
- `Grammar.BinaryParser`: defers its right operand. Built as written, it never returns (see Findings and `Construction.NeverBuilt`).
- `Registry.Build`: the built registry is a snapshot. In the source, `Map.copyOf` copies the map but not each kind's `ArrayList` (TokenProducerRegistry.java:15), so the registry shares those lists with its builder. A rule registered after `build()` for a kind already present would reach the built registry; the model does not represent that sharing. The lexer's registry is built once and its builder dropped, so the lexer is unaffected.
- `TokenRules.Of`: a producer is modelled by the kind it stamps into `new Token(K, value, line, column)`. This is exact for every producer in `Lexer.java` and for the default producers, but `TokenRule.of(type, regex, producer)` accepts any function. For other producers, the promise of `TokenRules.Produce` and `Registry.ProduceKind` that the token's text is the matched prefix at the given line and column does not hold.
- `anyOf` and `oneOf` differ only in their Java types, so both are `Combinators.OneOf`.
- `StmtAST` calls `AssignStmtAST.$parser()`, which does not exist. The statement test is therefore modelled on `AssignStmtAST.parser()` directly. Even with `$parser` read as `parser` and the right operand deferred, StmtParseTest could not pass: `GrammarExamples.AssignOnTest` shows the assignment leaves " + 1;", and the `literal(";")` after it (StmtAST.java:17-20) meets "+" once the white space is skipped.
- `AssignStmtAST.parser()` has no function of its own. `Statements.AssignParserBridge` states that its combinator expression computes `Statements.AssignAt`.
- `Lexer.java` imports `org.osta.lex.token.TokenType`, but the enum lives in `org.osta.token`. The model has one `TokenType`.
- `Visitor`, `ILGenerator`, the `accept` methods, `Main`, `ExprParser` and `BinExprAST` are not part of this model. They are unfinished, or they call methods that do not exist.
- `Lexing.SkipWhitespace`: `Character.isWhitespace` is modelled for ASCII and for the cast bytes.

## Findings

| source | as written | input that shows it | evidently intended | confidence | as-written member | corrected member |
|---|---|---|---|---|---|---|
| src/main/java/org/osta/text/BufferCharSequence.java:27-34 | `subSequence(start, end)` reads `end - start` bytes from the current position, ignoring `start` | bytes "abc" at position 0: `subSequence(1, 3)` gives "ab" | the characters from `start` to `end`, "bc" (the `CharSequence` contract) | not executed; high (every call in the lexer uses start 0, so the lexer is unaffected) | `Buffer.SubSequenceMisreadsOffset` | `Buffer.BufferView.SubSequenceIntended` |
| src/main/java/org/osta/parse/ast/BinaryExprAST.java:65 | `BinaryExprAST.parser()` evaluates `ExprAST.parser()` while building, and `ExprAST.parser()` evaluates `BinaryExprAST.parser()` (ExprAST.java:14) | any call of `BinaryExprAST.parser()`, `ExprAST.parser()` or `AssignStmtAST.parser()`, such as the one in ExprParseTest | defer the right operand as ExprAST.java:19 already does for the parenthesised alternative | not executed; high (unbounded mutual recursion, a `StackOverflowError`) | `Construction.NeverBuiltWith` | `Grammar.BinaryParser` |
