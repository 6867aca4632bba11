/**
 What a grammar of rule trees means, told on the trees themselves, and the proof that the compiled matcher graph
 parses by that meaning.
 */
module PegMeaning {
  import opened PegMatcher
  import opened PegBuilder
  import opened PegRebuild
  import opened PegAgreement

  /** The rule trees, the test of a keyword, and the rules that are a given test of one token. */
  datatype Grammar = Grammar(trees: Trees, keyword: string -> (string -> bool), given: map<string, string -> bool>)

  function ReadOne(accepts: string -> bool, tokens: seq<Token>, from: nat): Outcome {
    if from < |tokens| && accepts(tokens[from].text) then Reads(TokenResult(tokens[from]), from + 1) else Fails
  }

  function AsRepeat(s: Sequence, tokens: seq<Token>, from: nat): Outcome {
    if s.Whole? then Reads(RepeatResult(s.results, OffsetAt(tokens, from)), s.to) else Fails
  }

  least predicate Means(t: Grammar, tokens: seq<Token>, i: Item, from: nat, out: Outcome) {
    match i
    case Word(text) => out == ReadOne(t.keyword(text), tokens, from)
    case Rule(name) =>
      if name in t.given then out == ReadOne(t.given[name], tokens, from)
      else name in t.trees && exists s :: MeansAll(t, tokens, t.trees[name], from, s) && out == AsList(s, OffsetAt(tokens, from))
    case Group(items) => exists s :: MeansAll(t, tokens, items, from, s) && out == AsList(s, OffsetAt(tokens, from))
    case ZeroOrOne(j) => exists o :: Means(t, tokens, j, from, o) && out == AsOptional(o, from, OffsetAt(tokens, from))
    case OneOrMore(j) => exists s :: MeansMany(t, tokens, j, from, s) && out == AsRepeat(s, tokens, from)
    case ZeroOrMore(j) =>
      exists s :: MeansMany(t, tokens, j, from, s) && out == AsOptional(AsRepeat(s, tokens, from), from, OffsetAt(tokens, from))
    case Either(options) => MeansFirst(t, tokens, options, 0, from, out)
  }

  least predicate MeansAll(t: Grammar, tokens: seq<Token>, items: seq<Item>, from: nat, out: Sequence) {
    if items == [] then out == Whole([], from)
    else
      exists o :: Means(t, tokens, items[0], from, o) &&
        if o.Fails? then out == Broken
        else exists s :: MeansAll(t, tokens, items[1..], o.to, s) && out == Joined(o, s)
  }

  least predicate MeansFirst(t: Grammar, tokens: seq<Token>, options: seq<Item>, k: nat, from: nat, out: Outcome) {
    if k >= |options| then out == Fails
    else
      exists o :: Means(t, tokens, options[k], from, o) &&
        if o.Reads? then out == Chosen(o, k, OffsetAt(tokens, from))
        else MeansFirst(t, tokens, options, k + 1, from, out)
  }

  /** The item once, and then as often as it can be read. */
  least predicate MeansMany(t: Grammar, tokens: seq<Token>, j: Item, from: nat, out: Sequence) {
    exists o :: Means(t, tokens, j, from, o) &&
      if o.Fails? then out == Broken
      else exists s :: MeansMore(t, tokens, j, o.to, s) && out == Joined(o, s)
  }

  least predicate MeansMore(t: Grammar, tokens: seq<Token>, j: Item, from: nat, out: Sequence) {
    exists o :: Means(t, tokens, j, from, o) &&
      if o.Fails? then out == Whole([], from)
      else exists s :: MeansMore(t, tokens, j, o.to, s) && out == Joined(o, s)
  }

  // ---------------------------------------------------------------- the compiled graph

  /** Keywords with a matcher of their own test as any keyword; cached rules are a given test or hold their tree. */
  ghost predicate Compiled(t: Grammar, env: Env, base: nat, g: Graph, cache: map<string, nat>) {
    && env.keyword == t.keyword
    && (forall text :: text in env.overrides ==> env.overrides[text] < |g| && g[env.overrides[text]] == Terminal(t.keyword(text)))
    && (forall name :: name in cache ==> CompiledRule(t, env, base, g, cache, name))
  }

  ghost predicate CompiledRule(t: Grammar, env: Env, base: nat, g: Graph, cache: map<string, nat>, name: string)
    requires name in cache
  {
    if name in t.given then cache[name] < |g| && g[cache[name]] == Terminal(t.given[name])
    else RuleDone(env, t.trees, base, g, cache, name)
  }

  ghost predicate OnlyMeaning(t: Grammar, tokens: seq<Token>, i: Item, from: nat, out: Outcome) {
    forall o :: Means(t, tokens, i, from, o) <==> o == out
  }

  ghost predicate OnlyAll(t: Grammar, tokens: seq<Token>, items: seq<Item>, from: nat, out: Sequence) {
    forall s :: MeansAll(t, tokens, items, from, s) <==> s == out
  }

  ghost predicate OnlyFirstMeaning(t: Grammar, tokens: seq<Token>, options: seq<Item>, k: nat, from: nat, out: Outcome) {
    forall o :: MeansFirst(t, tokens, options, k, from, o) <==> o == out
  }

  ghost predicate OnlyMany(t: Grammar, tokens: seq<Token>, j: Item, from: nat, out: Sequence) {
    forall s :: MeansMany(t, tokens, j, from, s) <==> s == out
  }

  ghost predicate OnlyMoreMeaning(t: Grammar, tokens: seq<Token>, j: Item, from: nat, out: Sequence) {
    forall s :: MeansMore(t, tokens, j, from, s) <==> s == out
  }

  lemma {:induction false} RunIsMeaning(t: Grammar, env: Env, base: nat, cache: map<string, nat>, g: Graph, c: Certificate,
                                        tokens: seq<Token>, id: nat, i: Item, from: nat)
    requires WellFormed(g, c) && Compiled(t, env, base, g, cache) && from <= |tokens|
    requires id < |g| && Holds(env, base, g, cache, id, i)
    ensures OnlyMeaning(t, tokens, i, from, Run(g, c, tokens, id, from))
    decreases |tokens| - from, c.rank[id], 1, 0
  {
    hide HoldsAll, OffsetAt, Below, Means, OnlyMeaning, OnlyAll, OnlyMany, OnlyFirstMeaning;
    assert NodeOk(g, c, id);
    match i
    case Word(text) =>
      WordMeans(t, tokens, text, from);
    case Rule(name) =>
      assert CompiledRule(t, env, base, g, cache, name);
      if name in t.given {
        GivenMeans(t, tokens, name, from);
      } else {
        AllIsMeaning(t, env, base, cache, g, c, tokens, id, t.trees[name], 0, from, from);
        WholeList(t, tokens, t.trees[name], from, RunAll(g, c, tokens, id, 0, from, from));
        RuleMeans(t, tokens, name, from, RunAll(g, c, tokens, id, 0, from, from));
      }
    case Group(items) =>
      AllIsMeaning(t, env, base, cache, g, c, tokens, id, items, 0, from, from);
      WholeList(t, tokens, items, from, RunAll(g, c, tokens, id, 0, from, from));
      GroupMeans(t, tokens, items, from, RunAll(g, c, tokens, id, 0, from, from));
    case ZeroOrOne(j) =>
      ChildBelow(g, c, id);
      RunIsMeaning(t, env, base, cache, g, c, tokens, g[id].child, j, from);
      OptionMeans(t, tokens, j, from, Run(g, c, tokens, g[id].child, from));
    case OneOrMore(j) =>
      RepeatIsMeaning(t, env, base, cache, g, c, tokens, id, j, from);
      ManyMeans(t, tokens, j, from, Elements(g, c, tokens, g[id].child, from));
    case ZeroOrMore(j) =>
      ChildBelow(g, c, id);
      var repeat := g[id].child;
      RepeatIsMeaning(t, env, base, cache, g, c, tokens, repeat, j, from);
      ManyMeans(t, tokens, j, from, Elements(g, c, tokens, g[repeat].child, from));
    case Either(options) =>
      FirstIsMeaning(t, env, base, cache, g, c, tokens, id, options, 0, from);
      EitherMeans(t, tokens, options, from, RunFirst(g, c, tokens, id, 0, from));
  }

  lemma WordMeans(t: Grammar, tokens: seq<Token>, text: string, from: nat)
    ensures OnlyMeaning(t, tokens, Word(text), from, ReadOne(t.keyword(text), tokens, from))
  {
  }

  lemma GivenMeans(t: Grammar, tokens: seq<Token>, name: string, from: nat)
    requires name in t.given
    ensures OnlyMeaning(t, tokens, Rule(name), from, ReadOne(t.given[name], tokens, from))
  {
  }

  lemma RuleMeans(t: Grammar, tokens: seq<Token>, name: string, from: nat, s: Sequence)
    requires name !in t.given && name in t.trees && OnlyAll(t, tokens, t.trees[name], from, s)
    ensures OnlyMeaning(t, tokens, Rule(name), from, AsList(s, OffsetAt(tokens, from)))
  {
    assert MeansAll(t, tokens, t.trees[name], from, s);
  }

  lemma GroupMeans(t: Grammar, tokens: seq<Token>, items: seq<Item>, from: nat, s: Sequence)
    requires OnlyAll(t, tokens, items, from, s)
    ensures OnlyMeaning(t, tokens, Group(items), from, AsList(s, OffsetAt(tokens, from)))
  {
    assert MeansAll(t, tokens, items, from, s);
  }

  lemma OptionMeans(t: Grammar, tokens: seq<Token>, j: Item, from: nat, o: Outcome)
    requires OnlyMeaning(t, tokens, j, from, o)
    ensures OnlyMeaning(t, tokens, ZeroOrOne(j), from, AsOptional(o, from, OffsetAt(tokens, from)))
  {
    assert Means(t, tokens, j, from, o);
  }

  lemma ManyMeans(t: Grammar, tokens: seq<Token>, j: Item, from: nat, s: Sequence)
    requires OnlyMany(t, tokens, j, from, s)
    ensures OnlyMeaning(t, tokens, OneOrMore(j), from, AsRepeat(s, tokens, from))
    ensures OnlyMeaning(t, tokens, ZeroOrMore(j), from, AsOptional(AsRepeat(s, tokens, from), from, OffsetAt(tokens, from)))
  {
    assert MeansMany(t, tokens, j, from, s);
  }

  lemma EitherMeans(t: Grammar, tokens: seq<Token>, options: seq<Item>, from: nat, o: Outcome)
    requires OnlyFirstMeaning(t, tokens, options, 0, from, o)
    ensures OnlyMeaning(t, tokens, Either(options), from, o)
  {
  }

  lemma ChildBelow(g: Graph, c: Certificate, id: nat)
    requires WellFormed(g, c) && id < |g| && (g[id].Optional? || g[id].Repeat?)
    ensures g[id].child < |g| && c.rank[g[id].child] < c.rank[id]
  {
    assert NodeOk(g, c, id);
  }

  lemma WholeList(t: Grammar, tokens: seq<Token>, items: seq<Item>, from: nat, s: Sequence)
    requires OnlyAll(t, tokens, items[0..], from, s)
    ensures OnlyAll(t, tokens, items, from, s)
  {
    assert items[0..] == items;
  }

  /** The elements of a repetition, the first one included. */
  ghost function Elements(g: Graph, c: Certificate, tokens: seq<Token>, child: nat, from: nat): Sequence
    requires WellFormed(g, c) && child < |g| && !c.Nullable(child) && from <= |tokens|
  {
    var o := Run(g, c, tokens, child, from);
    if o.Fails? then Broken else Joined(o, RunMore(g, c, tokens, child, o.to))
  }

  lemma RepeatRuns(g: Graph, c: Certificate, tokens: seq<Token>, id: nat, from: nat)
    requires WellFormed(g, c) && id < |g| && g[id].Repeat? && from <= |tokens|
    ensures g[id].child < |g| && !c.Nullable(g[id].child)
    ensures Run(g, c, tokens, id, from) == AsRepeat(Elements(g, c, tokens, g[id].child, from), tokens, from)
  {
    assert NodeOk(g, c, id);
  }

  lemma {:induction false} RepeatIsMeaning(t: Grammar, env: Env, base: nat, cache: map<string, nat>, g: Graph, c: Certificate,
                                           tokens: seq<Token>, id: nat, j: Item, from: nat)
    requires WellFormed(g, c) && Compiled(t, env, base, g, cache) && from <= |tokens|
    requires id < |g| && g[id].Repeat? && Holds(env, base, g, cache, g[id].child, j)
    ensures g[id].child < |g| && !c.Nullable(g[id].child)
    ensures Run(g, c, tokens, id, from) == AsRepeat(Elements(g, c, tokens, g[id].child, from), tokens, from)
    ensures OnlyMany(t, tokens, j, from, Elements(g, c, tokens, g[id].child, from))
    decreases |tokens| - from, c.rank[id], 0, 0
  {
    hide Holds, Compiled, AsRepeat, Means, MeansMore, OnlyMoreMeaning, OnlyMany;
    RepeatRuns(g, c, tokens, id, from);
    ChildBelow(g, c, id);
    var child := g[id].child;
    RunIsMeaning(t, env, base, cache, g, c, tokens, child, j, from);
    var o, rest := Run(g, c, tokens, child, from), Broken;
    if o.Reads? {
      MoreIsMeaning(t, env, base, cache, g, c, tokens, child, j, o.to);
      rest := RunMore(g, c, tokens, child, o.to);
    }
    ManyStep(t, tokens, j, from, o, rest);
  }

  lemma {:induction false} MoreIsMeaning(t: Grammar, env: Env, base: nat, cache: map<string, nat>, g: Graph, c: Certificate,
                                         tokens: seq<Token>, child: nat, j: Item, from: nat)
    requires WellFormed(g, c) && Compiled(t, env, base, g, cache) && from <= |tokens|
    requires child < |g| && !c.Nullable(child) && Holds(env, base, g, cache, child, j)
    ensures OnlyMoreMeaning(t, tokens, j, from, RunMore(g, c, tokens, child, from))
    decreases |tokens| - from, c.rank[child], 2, 0
  {
    hide Holds, Compiled, Means, MeansMore, OnlyMoreMeaning;
    RunIsMeaning(t, env, base, cache, g, c, tokens, child, j, from);
    var o, rest := Run(g, c, tokens, child, from), Broken;
    if o.Reads? {
      MoreIsMeaning(t, env, base, cache, g, c, tokens, child, j, o.to);
      rest := RunMore(g, c, tokens, child, o.to);
    }
    MoreStep(t, tokens, j, from, o, rest);
  }

  lemma MoreStep(t: Grammar, tokens: seq<Token>, j: Item, from: nat, o: Outcome, rest: Sequence)
    requires OnlyMeaning(t, tokens, j, from, o) && (o.Reads? ==> OnlyMoreMeaning(t, tokens, j, o.to, rest))
    ensures OnlyMoreMeaning(t, tokens, j, from, if o.Fails? then Whole([], from) else Joined(o, rest))
  {
    assert Means(t, tokens, j, from, o);
    assert o.Reads? ==> MeansMore(t, tokens, j, o.to, rest);
  }

  lemma ManyStep(t: Grammar, tokens: seq<Token>, j: Item, from: nat, o: Outcome, rest: Sequence)
    requires OnlyMeaning(t, tokens, j, from, o) && (o.Reads? ==> OnlyMoreMeaning(t, tokens, j, o.to, rest))
    ensures OnlyMany(t, tokens, j, from, if o.Fails? then Broken else Joined(o, rest))
  {
    assert Means(t, tokens, j, from, o);
    assert o.Reads? ==> MeansMore(t, tokens, j, o.to, rest);
  }

  lemma {:induction false} AllIsMeaning(t: Grammar, env: Env, base: nat, cache: map<string, nat>, g: Graph, c: Certificate,
                                        tokens: seq<Token>, id: nat, items: seq<Item>, k: nat, began: nat, from: nat)
    requires WellFormed(g, c) && Compiled(t, env, base, g, cache)
    requires id < |g| && g[id].List? && HoldsAll(env, base, g, cache, g[id].children, items) && k <= |g[id].children|
    requires began <= from <= |tokens| && (from == began ==> AllNullable(c, g[id].children, k))
    ensures k <= |items| && OnlyAll(t, tokens, items[k..], from, RunAll(g, c, tokens, id, k, began, from))
    decreases |tokens| - began, c.rank[id], 0, |g[id].children| - k
  {
    hide Holds, Compiled, Means, MeansAll, OnlyAll, Joined;
    var ids := g[id].children;
    if k == |ids| {
      assert items[k..] == [];
      NoItems(t, tokens, from);
    } else {
      assert NodeOk(g, c, id);
      RunIsMeaning(t, env, base, cache, g, c, tokens, ids[k], items[k], from);
      var o, rest := Run(g, c, tokens, ids[k], from), Broken;
      assert items[k..][0] == items[k] && items[k..][1..] == items[k + 1..];
      if o.Reads? {
        AllIsMeaning(t, env, base, cache, g, c, tokens, id, items, k + 1, began, o.to);
        rest := RunAll(g, c, tokens, id, k + 1, began, o.to);
      }
      ItemsStep(t, tokens, items[k..], from, o, rest);
    }
  }

  lemma NoItems(t: Grammar, tokens: seq<Token>, from: nat)
    ensures OnlyAll(t, tokens, [], from, Whole([], from))
  {
  }

  lemma ItemsStep(t: Grammar, tokens: seq<Token>, items: seq<Item>, from: nat, o: Outcome, rest: Sequence)
    requires items != [] && OnlyMeaning(t, tokens, items[0], from, o)
    requires o.Reads? ==> OnlyAll(t, tokens, items[1..], o.to, rest)
    ensures OnlyAll(t, tokens, items, from, if o.Fails? then Broken else Joined(o, rest))
  {
    assert Means(t, tokens, items[0], from, o);
    assert o.Reads? ==> MeansAll(t, tokens, items[1..], o.to, rest);
  }

  lemma {:induction false} FirstIsMeaning(t: Grammar, env: Env, base: nat, cache: map<string, nat>, g: Graph, c: Certificate,
                                          tokens: seq<Token>, id: nat, options: seq<Item>, k: nat, from: nat)
    requires WellFormed(g, c) && Compiled(t, env, base, g, cache) && from <= |tokens|
    requires id < |g| && g[id].Choice? && HoldsAll(env, base, g, cache, g[id].children, options) && k <= |g[id].children|
    ensures OnlyFirstMeaning(t, tokens, options, k, from, RunFirst(g, c, tokens, id, k, from))
    decreases |tokens| - from, c.rank[id], 0, |g[id].children| - k
  {
    hide Holds, Compiled, Means, OnlyFirstMeaning;
    var ids := g[id].children;
    if k == |ids| {
      NoOptions(t, tokens, options, from);
    } else {
      assert NodeOk(g, c, id);
      RunIsMeaning(t, env, base, cache, g, c, tokens, ids[k], options[k], from);
      var o, rest := Run(g, c, tokens, ids[k], from), Fails;
      if o.Fails? {
        FirstIsMeaning(t, env, base, cache, g, c, tokens, id, options, k + 1, from);
        rest := RunFirst(g, c, tokens, id, k + 1, from);
      }
      OptionStep(t, tokens, options, k, from, o, rest);
    }
  }

  lemma NoOptions(t: Grammar, tokens: seq<Token>, options: seq<Item>, from: nat)
    ensures OnlyFirstMeaning(t, tokens, options, |options|, from, Fails)
  {
  }

  lemma OptionStep(t: Grammar, tokens: seq<Token>, options: seq<Item>, k: nat, from: nat, o: Outcome, rest: Outcome)
    requires k < |options| && OnlyMeaning(t, tokens, options[k], from, o)
    requires o.Fails? ==> OnlyFirstMeaning(t, tokens, options, k + 1, from, rest)
    ensures OnlyFirstMeaning(t, tokens, options, k, from, if o.Reads? then Chosen(o, k, OffsetAt(tokens, from)) else rest)
  {
    assert Means(t, tokens, options[k], from, o);
    assert o.Fails? ==> MeansFirst(t, tokens, options, k + 1, from, rest);
  }

  // ---------------------------------------------------------------- the theorem

  /** Before compiling, every cached rule is a given test, and the keywords with a matcher test as keywords. */
  ghost predicate StartsWith(t: Grammar, env: Env, nodes: Graph, cache: map<string, nat>) {
    && env.keyword == t.keyword && cache.Keys == t.given.Keys
    && (forall name :: name in cache ==> cache[name] < |nodes| && nodes[cache[name]] == Terminal(t.given[name]))
    && (forall text :: text in env.overrides ==>
          env.overrides[text] < |nodes| && nodes[env.overrides[text]] == Terminal(t.keyword(text)))
  }

  /** On a compiled graph that is well-formed, the parsing expression rules allow exactly the outcomes that the
      rule trees have, and there is just one. */
  lemma GraphMeansTrees(t: Grammar, env: Env, nodes: Graph, cache: map<string, nat>, built: Graph, rules: map<string, nat>,
                        root: string, c: Certificate, tokens: seq<Token>, from: nat) returns (out: Outcome)
    requires StartsWith(t, env, nodes, cache) && nodes <= built && Extends(cache, rules) && root in rules
    requires forall n :: n in rules && n !in cache ==> RuleDone(env, t.trees, |nodes|, built, rules, n)
    requires WellFormed(built, c) && from <= |tokens|
    ensures forall o :: Parses(built, tokens, rules[root], from, o) <==> Means(t, tokens, Rule(root), from, o)
    ensures OnlyMeaning(t, tokens, Rule(root), from, out)
  {
    hide Parses, Means, WellFormed, RuleDone, StartsWith;
    EverythingCompiled(t, env, nodes, cache, built, rules);
    RuleExists(t, env, |nodes|, built, rules, root);
    RunIsPeg(built, c, tokens, rules[root], from);
    RunIsMeaning(t, env, |nodes|, rules, built, c, tokens, rules[root], Rule(root), from);
    out := Run(built, c, tokens, rules[root], from);
  }

  lemma EverythingCompiled(t: Grammar, env: Env, nodes: Graph, cache: map<string, nat>, built: Graph, rules: map<string, nat>)
    requires StartsWith(t, env, nodes, cache) && nodes <= built && Extends(cache, rules)
    requires forall n :: n in rules && n !in cache ==> RuleDone(env, t.trees, |nodes|, built, rules, n)
    ensures Compiled(t, env, |nodes|, built, rules)
  {
    hide HoldsAll;
  }

  lemma RuleExists(t: Grammar, env: Env, base: nat, g: Graph, cache: map<string, nat>, name: string)
    requires Compiled(t, env, base, g, cache) && name in cache
    ensures cache[name] < |g| && Holds(env, base, g, cache, cache[name], Rule(name))
  {
    assert CompiledRule(t, env, base, g, cache, name);
  }
}
