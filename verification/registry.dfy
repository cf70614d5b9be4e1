/** `TokenProducerRegistry` and its `Builder`: for each token kind, the
    list of rules registered for it, in registration order. */
module Registry {
  import opened Wrappers
  import opened Tokens
  import opened Buffer
  import opened TokenRules

  /** The builder's `HashMap<TokenType, List<TokenRule>>`. */
  type Builder = map<TokenType, seq<Rule>>

  /** The built registry: the map of kinds to rule lists as the builder
      held it when `build()` was called. */
  datatype TokenRegistry = TokenRegistry(rules: map<TokenType, seq<Rule>>)

  /** `getOrDefault(kind, List.of())`. */
  function RulesFor(m: map<TokenType, seq<Rule>>, kind: TokenType): seq<Rule>
  {
    if kind in m then m[kind] else []
  }

  /** The rules of `rules` filed under `kind`, in their order. */
  function Filter(rules: seq<Rule>, kind: TokenType): (r: seq<Rule>)
    ensures |r| <= |rules|
    ensures forall i :: 0 <= i < |r| ==> r[i].kind == kind
  {
    if rules == [] then []
    else (if rules[0].kind == kind then [rules[0]] else []) + Filter(rules[1..], kind)
  }

  /** Filing distributes over concatenation: the rules of `a + b` filed
      under `kind` are those of `a` followed by those of `b`. */
  lemma {:induction false} FilterAppend(a: seq<Rule>, b: seq<Rule>, kind: TokenType)
    ensures Filter(a + b, kind) == Filter(a, kind) + Filter(b, kind)
    decreases |a|
  {
    if a == [] {
      assert a + b == b;
    } else {
      assert (a + b)[1..] == a[1..] + b;
      FilterAppend(a[1..], b, kind);
    }
  }

  /** Filing keeps rules and invents none: every rule filed under `kind`
      is one of `rules`. */
  lemma {:induction false} FilterSubset(rules: seq<Rule>, kind: TokenType)
    ensures forall i :: 0 <= i < |Filter(rules, kind)| ==> Filter(rules, kind)[i] in rules
    decreases |rules|
  {
    if rules != [] {
      FilterSubset(rules[1..], kind);
      var head := if rules[0].kind == kind then [rules[0]] else [];
      var r := Filter(rules, kind);
      assert r == head + Filter(rules[1..], kind);
      forall i | 0 <= i < |r|
        ensures r[i] in rules
      {
        if i >= |head| {
          assert r[i] == Filter(rules[1..], kind)[i - |head|];
          assert r[i] in rules[1..];
        }
      }
    }
  }

  /** A list with no rule of `kind` files nothing under it, and a list
      whose rules all have `kind` files all of them. */
  lemma {:induction false} FilterUniform(rules: seq<Rule>, kind: TokenType)
    ensures (forall i :: 0 <= i < |rules| ==> rules[i].kind != kind) ==> Filter(rules, kind) == []
    ensures (forall i :: 0 <= i < |rules| ==> rules[i].kind == kind) ==> Filter(rules, kind) == rules
    decreases |rules|
  {
    if rules != [] {
      FilterUniform(rules[1..], kind);
      assert forall i :: 1 <= i < |rules| ==> rules[1..][i - 1] == rules[i];
      assert [rules[0]] + rules[1..] == rules;
    }
  }

  /** `TokenProducerRegistry.builder()`. */
  function NewBuilder(): (b: Builder)
    ensures forall k :: RulesFor(b, k) == []
  {
    map[]
  }

  /** `register(type, rule)`: appends `rule` to the list of `kind` and
      leaves every list in place. */
  function RegisterFor(b: Builder, kind: TokenType, rule: Rule): (r: Builder)
    ensures RulesFor(r, kind) == RulesFor(b, kind) + [rule]
    ensures forall k :: k != kind ==> RulesFor(r, k) == RulesFor(b, k)
  {
    b[kind := RulesFor(b, kind) + [rule]]
  }

  /** `register(rule)`: files the rule under its own kind. */
  function Register(b: Builder, rule: Rule): (r: Builder)
    ensures RulesFor(r, rule.kind) == RulesFor(b, rule.kind) + [rule]
    ensures forall k :: k != rule.kind ==> RulesFor(r, k) == RulesFor(b, k)
  {
    RegisterFor(b, rule.kind, rule)
  }

  /** `register(tokenType)`: registers the keyword rule of `kind`. */
  function RegisterKeyword(b: Builder, kind: TokenType): (r: Builder)
    ensures RulesFor(r, kind) == RulesFor(b, kind) + [Keyword(kind)]
    ensures forall k :: k != kind ==> RulesFor(r, k) == RulesFor(b, k)
  {
    Register(b, Keyword(kind))
  }

  /** `registerAll(rules)`: registers the rules one by one in list order,
      so every kind's list grows by exactly the given rules of that kind,
      in order. */
  function RegisterAll(b: Builder, rules: seq<Rule>): (r: Builder)
    ensures forall k :: RulesFor(r, k) == RulesFor(b, k) + Filter(rules, k)
    decreases |rules|
  {
    if rules == [] then b
    else
      var b1 := Register(b, rules[0]);
      var r := RegisterAll(b1, rules[1..]);
      forall k
        ensures RulesFor(r, k) == RulesFor(b, k) + Filter(rules, k)
      {
        RegisterStep(b, rules, k);
      }
      r
  }

  /** One registration followed by the rest adds what `Filter` predicts. */
  lemma RegisterStep(b: Builder, rules: seq<Rule>, k: TokenType)
    requires rules != []
    ensures RulesFor(Register(b, rules[0]), k) + Filter(rules[1..], k) == RulesFor(b, k) + Filter(rules, k)
  {
    if rules[0].kind == k {
      RegisterStepSameKind(b, rules, k);
    } else {
      RegisterStepOtherKind(b, rules, k);
    }
  }

  lemma RegisterStepSameKind(b: Builder, rules: seq<Rule>, k: TokenType)
    requires rules != [] && rules[0].kind == k
    ensures RulesFor(Register(b, rules[0]), k) + Filter(rules[1..], k) == RulesFor(b, k) + Filter(rules, k)
  {
    var before, rest := RulesFor(b, k), Filter(rules[1..], k);
    assert Filter(rules, k) == [rules[0]] + rest;
    assert RulesFor(Register(b, rules[0]), k) == before + [rules[0]];
    assert (before + [rules[0]]) + rest == before + ([rules[0]] + rest);
  }

  lemma RegisterStepOtherKind(b: Builder, rules: seq<Rule>, k: TokenType)
    requires rules != [] && rules[0].kind != k
    ensures RulesFor(Register(b, rules[0]), k) + Filter(rules[1..], k) == RulesFor(b, k) + Filter(rules, k)
  {
    assert Filter(rules, k) == Filter(rules[1..], k);
    assert RulesFor(Register(b, rules[0]), k) == RulesFor(b, k);
  }

  /** `build()`. */
  function Build(b: Builder): (reg: TokenRegistry)
    ensures forall k :: RulesFor(reg.rules, k) == RulesFor(b, k)
  {
    TokenRegistry(b)
  }

  /** The first rule of `rules` that produces a token on `view`. */
  function FirstProduced(rules: seq<Rule>, view: BufferView, line: nat, column: nat): (r: Option<Token>)
    requires view.Valid()
    ensures r.None? <==> forall i :: 0 <= i < |rules| ==> Produce(rules[i], view, line, column).None?
    ensures r.Some? ==> exists i :: 0 <= i < |rules| && Produce(rules[i], view, line, column) == r
                                  && forall j :: 0 <= j < i ==> Produce(rules[j], view, line, column).None?
  {
    if rules == [] then None
    else match Produce(rules[0], view, line, column)
      case Some(t) => Some(t)
      case None =>
        var r := FirstProduced(rules[1..], view, line, column);
        assert forall i :: 1 <= i < |rules| ==> rules[i] == rules[1..][i - 1];
        if r.Some? then
          var i :| 0 <= i < |rules[1..]| && Produce(rules[1..][i], view, line, column) == r
                   && forall j :: 0 <= j < i ==> Produce(rules[1..][j], view, line, column).None?;
          assert Produce(rules[i + 1], view, line, column) == r;
          r
        else r
  }

  /** `produce(type, value, line, column)`: the token of the first rule
      registered for `kind` that matches, trying them in registration order. */
  function ProduceKind(reg: TokenRegistry, kind: TokenType, view: BufferView, line: nat, column: nat): (r: Option<Token>)
    requires view.Valid()
    ensures RulesFor(reg.rules, kind) == [] ==> r.None?
    ensures r.Some? ==> |r.value.text| <= view.Length() && r.value.text == view.Chars()[..|r.value.text|]
    ensures r.Some? ==> r.value.line == line && r.value.column == column
  {
    FirstProduced(RulesFor(reg.rules, kind), view, line, column)
  }

  /** The first matching rule wins even when a later one would match more. */
  lemma FirstRuleWins(reg: TokenRegistry, kind: TokenType, view: BufferView, line: nat, column: nat)
    requires view.Valid()
    requires |RulesFor(reg.rules, kind)| > 0
    requires Produce(RulesFor(reg.rules, kind)[0], view, line, column).Some?
    ensures ProduceKind(reg, kind, view, line, column) == Produce(RulesFor(reg.rules, kind)[0], view, line, column)
  {
  }
}
