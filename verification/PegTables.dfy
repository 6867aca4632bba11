/**
 Any rule table as a grammar: when a rule compiles, its tokens and those of all rules it compiles on the way are
 the printed forms of trees, and parsing with the compiled graph is what these trees mean.
 */
module PegTables {
  import opened Options
  import opened PegMatcher
  import opened PegBuilder
  import opened PegFactory
  import opened PegRebuild
  import opened PegRebuildProof
  import opened PegOlder
  import opened PegTrees
  import opened PegShapes
  import opened PegMeaning
  import opened PegCertificate
  import opened PegLeftRecursion
  import opened PegMatchState

  // ---------------------------------------------------------------- every rule that is compiled

  function References(tokens: seq<PegToken>): set<string> {
    set t | t in tokens && t.Reference? :: t.text
  }

  /** The rule reads as a tree unless a `/` stands right before a `)`, and mentions only the given names. */
  predicate IsTreeRule(env: Env, names: set<string>, n: string) {
    && n in env.rules && (ReadRule(env.rules[n]).Some? <==> !Dangles(Bare(env.rules[n])))
    && References(env.rules[n]) <= names
  }

  ghost predicate NewAreTrees(env: Env, before: map<string, nat>, cache: map<string, nat>) {
    forall n :: n in cache && n !in before ==> IsTreeRule(env, cache.Keys, n)
  }

  lemma NewAreTreesFurther(env: Env, a: map<string, nat>, b: map<string, nat>, c: map<string, nat>)
    requires NewAreTrees(env, a, b) && NewAreTrees(env, b, c) && Extends(b, c)
    ensures NewAreTrees(env, a, c)
  {
    hide ReadRule, Dangles, Bare, References;
    forall n | n in c && n !in a
      ensures IsTreeRule(env, c.Keys, n)
    {
      assert n in b ==> IsTreeRule(env, b.Keys, n) && b.Keys <= c.Keys;
    }
  }

  lemma {:induction false} CompiledAreTrees(env: Env, nodes: Graph, cache: map<string, nat>, name: string)
    requires BaseOk(env, nodes, cache) && Compile(env, nodes, cache, name).Ok?
    ensures NewAreTrees(env, cache, Compile(env, nodes, cache, name).value.1)
    decreases Uncached(env, cache), 0, 0
  {
    hide BaseOk, Tidy, BuildTokens, ReadRule, Dangles, Bare, References;
    if name !in cache {
      var start := Build(nodes + [List([])], cache[name := |nodes|], [|nodes|]);
      assert name in Uncached(env, cache) && name !in Uncached(env, start.cache);
      StartIsTidy(env, nodes, cache, name);
      TokensAreTrees(env, |nodes|, start, env.rules[name]);
      CompiledRuleIsTree(env, nodes, cache, name);
    }
  }

  lemma {:induction false} TokensAreTrees(env: Env, base: nat, b: Build, tokens: seq<PegToken>)
    requires Tidy(env, base, b) && BuildTokens(env, b, tokens).Ok?
    ensures NewAreTrees(env, b.cache, BuildTokens(env, b, tokens).value.cache)
    ensures References(tokens) <= BuildTokens(env, b, tokens).value.cache.Keys
    decreases Uncached(env, b.cache), 1, |tokens|
  {
    hide Tidy, BuildToken, IsTreeRule, NewAreTrees, References;
    TidyIsValid(env, base, b);
    ReferencesOf(tokens);
    if tokens == [] {
      NothingNew(env, b.cache);
    } else {
      var next := BuildToken(env, b, tokens[0]).value;
      StepIsTrees(env, base, b, tokens[0]);
      StepKeepsOld(env, base, b, tokens[0]);
      TidyIsValid(env, base, next);
      UncachedShrinks(env, b.cache, next.cache);
      TokensAreTrees(env, base, next, tokens[1..]);
      NewAreTreesFurther(env, b.cache, next.cache, BuildTokens(env, b, tokens).value.cache);
    }
  }

  lemma ReferencesOf(tokens: seq<PegToken>)
    ensures References(tokens) == if tokens == [] then {}
                                  else References(tokens[1..]) + if tokens[0].Reference? then {tokens[0].text} else {}
  {
    assert tokens != [] ==> tokens == [tokens[0]] + tokens[1..];
  }

  lemma NothingNew(env: Env, cache: map<string, nat>)
    ensures NewAreTrees(env, cache, cache)
  {
  }

  lemma {:induction false} StepIsTrees(env: Env, base: nat, b: Build, t: PegToken)
    requires Tidy(env, base, b) && BuildToken(env, b, t).Ok?
    ensures var cache := BuildToken(env, b, t).value.cache;
            NewAreTrees(env, b.cache, cache) && (t.Reference? ==> t.text in cache)
    decreases Uncached(env, b.cache), 1, 0
  {
    hide Tidy, AddMatcher, Compile, BaseOk, NewAreTrees;
    TidyIsValid(env, base, b);
    if t.Reference? {
      TidyBase(env, base, b);
      CompiledAreTrees(env, b.nodes, b.cache, t.text);
      CompilingKeepsOld(env, b.nodes, b.cache, t.text);
    } else {
      NothingNew(env, b.cache);
    }
  }

  // ---------------------------------------------------------------- rules without `!`

  /** The rules as the builder reads them. */
  function WithoutBangs(env: Env): Env { env.(rules := map n | n in env.rules :: Bare(env.rules[n])) }

  lemma {:induction false} CompilesAlike(env: Env, nodes: Graph, cache: map<string, nat>, name: string)
    ensures Compile(WithoutBangs(env), nodes, cache, name) == Compile(env, nodes, cache, name)
    decreases Uncached(env, cache), 0, 0
  {
    hide BuildTokens, Bare;
    if name !in cache && name in env.rules {
      var start := Build(nodes + [List([])], cache[name := |nodes|], [|nodes|]);
      assert name in Uncached(env, cache) && name !in Uncached(env, start.cache);
      BuildsAlike(env, start, env.rules[name]);
    }
  }

  lemma {:induction false} BuildsAlike(env: Env, b: Build, tokens: seq<PegToken>)
    requires b.Valid()
    ensures BuildTokens(WithoutBangs(env), b, Bare(tokens)) == BuildTokens(env, b, tokens)
    decreases Uncached(env, b.cache), 1, |tokens|
  {
    hide BuildToken, WithoutBangs;
    if tokens != [] {
      StepsAlike(env, b, tokens[0]);
      var next := BuildToken(env, b, tokens[0]);
      if next.Ok? {
        UncachedShrinks(env, b.cache, next.value.cache);
        BuildsAlike(env, next.value, tokens[1..]);
      }
      if tokens[0] == Operator('!') {
        BangBuildsNothing(env, b);
      } else {
        assert Bare(tokens)[0] == tokens[0] && Bare(tokens)[1..] == Bare(tokens[1..]);
      }
    }
  }

  lemma BangBuildsNothing(env: Env, b: Build)
    requires b.Valid()
    ensures BuildToken(env, b, Operator('!')) == Result.Ok(b)
  {
  }

  lemma {:induction false} StepsAlike(env: Env, b: Build, t: PegToken)
    requires b.Valid()
    ensures BuildToken(WithoutBangs(env), b, t) == BuildToken(env, b, t)
    decreases Uncached(env, b.cache), 1, 0
  {
    hide Compile, AddMatcher, Operate;
    if t.Reference? {
      CompilesAlike(env, b.nodes, b.cache, t.text);
    }
  }

  // ---------------------------------------------------------------- the trees of a table

  function TreesOf(env: Env): Trees {
    map n | n in env.rules && ReadRule(env.rules[n]).Some? :: ReadRule(env.rules[n]).value
  }

  /** None of the rules has a `/` right before a `)`. */
  predicate NoneDangles(env: Env, names: set<string>) {
    forall n :: n in names && n in env.rules ==> !Dangles(Bare(env.rules[n]))
  }

  lemma {:induction false} PrintedNames(i: Item, names: set<string>)
    requires References(Print(i)) <= names
    ensures AllNamed(i, names)
    decreases i, 0
  {
    hide PrintAll, PrintOthers;
    match i
    case Word(_) =>
    case Rule(name) => assert Reference(name) in Print(i);
    case Group(items) => PrintedAllNames(items, names);
    case ZeroOrOne(j) => PrintedNames(j, names);
    case ZeroOrMore(j) => PrintedNames(j, names);
    case OneOrMore(j) => PrintedNames(j, names);
    case Either(options) =>
      if options != [] {
        PrintedNames(options[0], names);
        PrintedOtherNames(options[1..], names);
        assert forall k :: 1 <= k < |options| ==> options[k] == options[1..][k - 1];
      }
  }

  lemma {:induction false} PrintedAllNames(items: seq<Item>, names: set<string>)
    requires References(PrintAll(items)) <= names
    ensures forall k :: 0 <= k < |items| ==> AllNamed(items[k], names)
    decreases items, 1
  {
    hide Print;
    if items != [] {
      PrintedNames(items[0], names);
      PrintedAllNames(items[1..], names);
      assert forall k :: 1 <= k < |items| ==> items[k] == items[1..][k - 1];
    }
  }

  lemma {:induction false} PrintedOtherNames(options: seq<Item>, names: set<string>)
    requires References(PrintOthers(options)) <= names
    ensures forall k :: 0 <= k < |options| ==> AllNamed(options[k], names)
    decreases options, 1
  {
    hide Print;
    if options != [] {
      PrintedNames(options[0], names);
      PrintedOtherNames(options[1..], names);
      assert forall k :: 1 <= k < |options| ==> options[k] == options[1..][k - 1];
    }
  }

  lemma {:induction false} BareReferences(tokens: seq<PegToken>)
    ensures References(Bare(tokens)) <= References(tokens)
  {
    hide References;
    ReferencesOf(tokens);
    ReferencesOf(Bare(tokens));
    if tokens != [] {
      BareReferences(tokens[1..]);
      assert tokens[0] != Operator('!') ==> Bare(tokens)[0] == tokens[0] && Bare(tokens)[1..] == Bare(tokens[1..]);
    }
  }

  /** The rules that were compiled are a printed grammar, when none of them has a `/` right before a `)`. */
  lemma CompiledTableIsGrammar(env: Env, nodes: Graph, cache: map<string, nat>, root: string)
    requires BaseOk(env, nodes, cache) && Compile(env, nodes, cache, root).Ok?
    requires NoneDangles(env, Compile(env, nodes, cache, root).value.1.Keys - cache.Keys)
    ensures GrammarOk(WithoutBangs(env), TreesOf(env), Compile(env, nodes, cache, root).value.1.Keys, cache.Keys)
  {
    hide BaseOk, Compile, ReadRule, Bare, Dangles, PrintAll, References, AllPrintable, AllNamed;
    var rules := Compile(env, nodes, cache, root).value.1;
    CompiledAreTrees(env, nodes, cache, root);
    forall n | n in rules && n !in cache
      ensures n in env.rules && n in TreesOf(env) && Bare(env.rules[n]) == PrintAll(TreesOf(env)[n])
      ensures AllPrintable(TreesOf(env)[n])
      ensures forall k :: 0 <= k < |TreesOf(env)[n]| ==> AllNamed(TreesOf(env)[n][k], rules.Keys)
    {
      assert IsTreeRule(env, rules.Keys, n);
      ReadRuleIsPrinted(env.rules[n]);
      BareReferences(env.rules[n]);
      PrintedAllNames(TreesOf(env)[n], rules.Keys);
    }
  }

  // ---------------------------------------------------------------- the meaning of a table

  /** What compiling starts from: the rules and keywords that have a matcher of their own, each a test of one token. */
  ghost predicate Starts(env: Env, given: map<string, string -> bool>, nodes: Graph, cache: map<string, nat>) {
    && AllTerminals(nodes) && cache.Keys == given.Keys
    && (forall name :: name in cache ==> cache[name] < |nodes| && nodes[cache[name]] == Terminal(given[name]))
    && (forall text :: text in env.overrides ==>
          env.overrides[text] < |nodes| && nodes[env.overrides[text]] == Terminal(env.keyword(text)))
  }

  /** The rule table as a grammar of trees. */
  function GrammarOf(env: Env, given: map<string, string -> bool>): Grammar { Grammar(TreesOf(env), env.keyword, given) }

  /** The compiled rules can be read as trees. */
  ghost predicate CompilesTrees(env: Env, given: map<string, string -> bool>, nodes: Graph, cache: map<string, nat>, root: string) {
    && Starts(env, given, nodes, cache) && Compile(env, nodes, cache, root).Ok?
    && NoneDangles(env, Compile(env, nodes, cache, root).value.1.Keys - cache.Keys)
  }

  lemma StartIsOk(env: Env, given: map<string, string -> bool>, nodes: Graph, cache: map<string, nat>)
    requires Starts(env, given, nodes, cache)
    ensures BaseOk(env, nodes, cache) && StartsWith(GrammarOf(env, given), WithoutBangs(env), nodes, cache)
    ensures BaseOk(WithoutBangs(env), nodes, cache)
  {
  }

  /** The compiled graph holds the trees, and is well-formed exactly when the rules are not left-recursive. */
  lemma CompiledTableHoldsTrees(env: Env, given: map<string, string -> bool>, nodes: Graph, cache: map<string, nat>, root: string)
    requires CompilesTrees(env, given, nodes, cache, root)
    ensures var (built, rules, id) := Compile(env, nodes, cache, root).value;
            && root in rules && rules[root] == id < |built| && Extends(cache, rules) && nodes <= built
            && (forall n :: n in rules && n !in cache ==> RuleDone(WithoutBangs(env), TreesOf(env), |nodes|, built, rules, n))
            && (IsWellFormed(built) <==> NotLeftRecursive(TreesOf(env), rules.Keys - cache.Keys))
  {
    hide BaseOk, StartsWith, Compile, WithoutBangs, TreesOf, GrammarOk, RuleDone, NoneDangles, IsWellFormed, AreWellFormed,
         NotLeftRecursive;
    StartIsOk(env, given, nodes, cache);
    CompilingKeepsOld(env, nodes, cache, root);
    RuleIsNoChoice(env, Compile(env, nodes, cache, root).value.0, Compile(env, nodes, cache, root).value.1, root);
    CompiledTableIsGrammar(env, nodes, cache, root);
    CompilesAlike(env, nodes, cache, root);
    var names := Compile(env, nodes, cache, root).value.1.Keys;
    GrammarRebuilds(WithoutBangs(env), TreesOf(env), names, nodes, cache, root);
    WellFormedExactly(WithoutBangs(env), TreesOf(env), names, nodes, cache, root);
    LeftRecursionExactly(TreesOf(env), names - cache.Keys);
  }

  /** For every rule table that compiles without a `/` right before a `)`: when none of the compiled rules is
      left-recursive or repeats what may be empty, the parsing expression rules on the compiled graph allow exactly
      the outcomes that the rules' trees have, and there is one outcome at every token. */
  lemma CompilingKeepsMeaning(env: Env, given: map<string, string -> bool>, nodes: Graph, cache: map<string, nat>, root: string,
                              tokens: seq<Token>, from: nat)
    requires CompilesTrees(env, given, nodes, cache, root) && from <= |tokens|
    requires NotLeftRecursive(TreesOf(env), Compile(env, nodes, cache, root).value.1.Keys - cache.Keys)
    ensures var (built, _, id) := Compile(env, nodes, cache, root).value;
            forall out :: Parses(built, tokens, id, from, out) <==> Means(GrammarOf(env, given), tokens, Rule(root), from, out)
    ensures exists out :: OnlyMeaning(GrammarOf(env, given), tokens, Rule(root), from, out)
  {
    hide BaseOk, StartsWith, Compile, WithoutBangs, TreesOf, RuleDone, NoneDangles, NotLeftRecursive, Parses, Means, WellFormed;
    StartIsOk(env, given, nodes, cache);
    CompiledTableHoldsTrees(env, given, nodes, cache, root);
    var (built, rules, id) := Compile(env, nodes, cache, root).value;
    var c :| WellFormed(built, c);
    var out := GraphMeansTrees(GrammarOf(env, given), WithoutBangs(env), nodes, cache, built, rules, root, c, tokens, from);
    assert OnlyMeaning(GrammarOf(env, given), tokens, Rule(root), from, out);
  }

  /** Compiling the rules and then parsing the tokens with the compiled graph: an error of the rule table, or the
      result that the trees of the rules give to all tokens, if there is one. */
  method ParseWith(factory: MatcherFactory, ghost given: map<string, string -> bool>, root: string, tokens: seq<Token>)
    returns (r: Result<Option<ParseResult>>)
    requires var compiled := Compile(factory.env, factory.nodes, factory.cache, root);
             compiled.Ok? ==>
               && CompilesTrees(factory.env, given, factory.nodes, factory.cache, root)
               && NotLeftRecursive(TreesOf(factory.env), compiled.value.1.Keys - factory.cache.Keys)
    modifies factory
    ensures old(Compile(factory.env, factory.nodes, factory.cache, root)).Err? <==> r.Err?
    ensures r.Ok? ==>
              forall result :: r.value == Some(result) <==>
                Means(GrammarOf(factory.env, given), tokens, Rule(root), 0, Reads(result, |tokens|))
    ensures r.Ok? && r.value.Some? ==> Leaves(r.value.value) == tokens && StartsRight(r.value.value)
  {
    hide Compile, TreesOf, NotLeftRecursive, Parses, Means, WellFormed, NoneDangles, Starts;
    ghost var env, nodes, cache := factory.env, factory.nodes, factory.cache;
    var matcher := factory.CreateMatcher(root);
    if matcher.Err? {
      return Err(matcher.error);
    }
    CompilingKeepsMeaning(env, given, nodes, cache, root, tokens, 0);
    CompiledTableHoldsTrees(env, given, nodes, cache, root);
    ghost var c :| WellFormed(factory.nodes, c);
    var answer, errorToken := ParseStatement(factory.nodes, c, matcher.value, tokens);
    r := Ok(answer);
  }

  // ---------------------------------------------------------------- a `/` right before a `)`

  lemma DanglingWord(env: Env)
    requires "A" !in env.overrides
    ensures BuildToken(env, Build([List([])], map["R" := 0], [0]), Literal("A"))
         == Result.Ok(Build([List([1]), Terminal(env.keyword("A"))], map["R" := 0], [0]))
  {
    var t := Terminal(env.keyword("A"));
    assert [List([])] + [t] == [List([]), t] && [List([]), t][0 := List([1])] == [List([1]), t];
    assert [] + [1] == [1];
  }

  lemma DanglingSlash(env: Env, t: Matcher)
    requires !t.Choice?
    ensures BuildToken(env, Build([List([1]), t], map["R" := 0], [0]), Operator('/'))
         == Result.Ok(Build([List([2]), t, Choice([1])], map["R" := 0], [0, 2]))
  {
    assert [List([1]), t][0 := List([2])] + [Choice([1])] == [List([2]), t, Choice([1])];
    assert [1][..0] + [2] == [2] && [0] + [2] == [0, 2];
  }

  lemma DanglingBracket(env: Env, t: Matcher)
    ensures BuildToken(env, Build([List([2]), t, Choice([1])], map["R" := 0], [0, 2]), Operator(')'))
         == Result.Ok(Build([List([2, 2]), t, Choice([1])], map["R" := 0], [0]))
  {
    assert [List([2]), t, Choice([1])][0 := List([2, 2])] == [List([2, 2]), t, Choice([1])];
    assert [0, 2][..1] == [0] && [2] + [2] == [2, 2];
  }

  /** A rule may compile with a `/` right before a `)`: the choice takes the place of the bracket, so that the rule
      `A / )` is read without an error and needs `A` twice, but is the printed form of no tree. */
  lemma DanglingCompiles(keyword: string -> (string -> bool))
    ensures var rule := [Literal("A"), Operator('/'), Operator(')')];
            var r := Compile(Env(map["R" := rule], map[], keyword), [], map[], "R");
            && r.Ok? && r.value.0 == [List([2, 2]), Terminal(keyword("A")), Choice([1])] && ReadRule(rule) == None
  {
    hide BuildToken, ReadRule;
    var rule := [Literal("A"), Operator('/'), Operator(')')];
    var env, t := Env(map["R" := rule], map[], keyword), Terminal(keyword("A"));
    var start := Build([List([])], map["R" := 0], [0]);
    DanglingWord(env);
    DanglingSlash(env, t);
    DanglingBracket(env, t);
    assert rule == [rule[0]] + ([rule[1]] + ([rule[2]] + []));
    TokenStep(env, start, rule[0], [rule[1]] + ([rule[2]] + []));
    TokenStep(env, Build([List([1]), t], map["R" := 0], [0]), rule[1], [rule[2]] + []);
    TokenStep(env, Build([List([2]), t, Choice([1])], map["R" := 0], [0, 2]), rule[2], []);
    assert [] + [List([])] == [List([])] && map[]["R" := 0] == map["R" := 0];
    CompiledRuleIsTree(env, [], map[], "R");
    assert rule[1..] == [rule[1], rule[2]] && rule[2..] == [rule[2]];
    assert Bare(rule) == rule;
    assert IsDangling(rule, 1);
  }
}
