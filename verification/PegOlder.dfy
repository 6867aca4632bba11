/**
 Whatever the rules are, compiling one changes no matcher that was there before: the lists and choices that are
 filled in place were all made for rules that are being read.
 */
module PegOlder {
  import opened PegMatcher
  import opened PegBuilder
  import opened PegRebuildProof

  ghost predicate SameKind(m: Matcher, n: Matcher) { n == m || (m.List? && n.List?) || (m.Choice? && n.Choice?) }

  /** The matchers before `base` are the same, and lists and choices stay such. */
  ghost predicate Kept(base: nat, before: Graph, later: Graph) {
    && base <= |before| <= |later| && later[..base] == before[..base]
    && forall k :: 0 <= k < |before| ==> SameKind(before[k], later[k])
  }

  /** A list or choice from `base` on.  The children of a list exist, and those that are choices are from `base` on
      as well. */
  ghost predicate ChildrenOk(base: nat, nodes: Graph, id: nat) {
    && base <= id < |nodes| && (nodes[id].List? || nodes[id].Choice?)
    && forall k :: nodes[id].List? && 0 <= k < |nodes[id].children| ==>
         nodes[id].children[k] < |nodes| && (nodes[nodes[id].children[k]].Choice? ==> base <= nodes[id].children[k])
  }

  /** A build whose stack was made from `base` on. */
  ghost predicate Tidy(env: Env, base: nat, b: Build) {
    && b.Valid() && BaseOk(env, b.nodes, b.cache)
    && forall k :: 0 <= k < |b.stack| ==> ChildrenOk(base, b.nodes, b.stack[k])
  }

  lemma KeptIsTidy(env: Env, base: nat, b: Build, nodes: Graph, cache: map<string, nat>)
    requires Tidy(env, base, b) && b.nodes <= nodes && BaseOk(env, nodes, cache)
    ensures Tidy(env, base, Build(nodes, cache, b.stack)) && Kept(base, b.nodes, nodes)
  {
    assert ChildrenOk(base, b.nodes, b.Top());
    forall k | 0 <= k < |b.stack|
      ensures ChildrenOk(base, nodes, b.stack[k])
    {
      assert ChildrenOk(base, b.nodes, b.stack[k]);
    }
  }

  /** A matcher on the stack changes its children. */
  lemma ChangeIsTidy(env: Env, base: nat, b: Build, top: nat, m: Matcher)
    requires Tidy(env, base, b) && base <= top < |b.nodes| && SameKind(b.nodes[top], m) && (m.List? || m.Choice?)
    requires ChildrenOk(base, b.nodes[top := m], top)
    ensures Tidy(env, base, b.(nodes := b.nodes[top := m])) && Kept(base, b.nodes, b.nodes[top := m])
  {
    forall k | 0 <= k < |b.stack|
      ensures ChildrenOk(base, b.nodes[top := m], b.stack[k])
    {
      assert ChildrenOk(base, b.nodes, b.stack[k]);
    }
  }

  lemma AddingIsTidy(env: Env, base: nat, b: Build, id: nat)
    requires Tidy(env, base, b) && id < |b.nodes| && (b.nodes[id].Choice? ==> base <= id) && AddMatcher(b, id).Ok?
    ensures Tidy(env, base, AddMatcher(b, id).value) && Kept(base, b.nodes, AddMatcher(b, id).value.nodes)
  {
    hide BaseOk;
    assert ChildrenOk(base, b.nodes, b.Top());
    var m := WithChild(b.nodes[b.Top()], id);
    ChangeIsTidy(env, base, b, b.Top(), m);
    var stack := AddMatcher(b, id).value.stack;
    assert forall k :: 0 <= k < |stack| ==> stack[k] == b.stack[k];
  }

  /** New matchers are made, and the last child of the list on top is replaced by one of them. */
  lemma ReplacingIsTidy(env: Env, base: nat, b: Build, made: seq<Matcher>, id: nat)
    requires Tidy(env, base, b) && LastChild(b).Ok? && |b.nodes| <= id < |b.nodes| + |made|
    ensures Tidy(env, base, ReplaceLast(b, made, id)) && Kept(base, b.nodes, ReplaceLast(b, made, id).nodes)
  {
    hide Kept;
    var nodes, top, ids := b.nodes + made, b.Top(), b.nodes[b.Top()].children;
    assert ChildrenOk(base, b.nodes, top);
    GrownBaseOk(env, b.nodes, b.cache, made);
    KeptIsTidy(env, base, b, nodes, b.cache);
    var m := List(ids[..|ids| - 1] + [id]);
    ChangeIsTidy(env, base, b.(nodes := nodes), top, m);
    assert nodes[top := m] == b.nodes[top := m] + made;
    KeptFurther(base, b.nodes, nodes, nodes[top := m]);
  }

  lemma GrownBaseOk(env: Env, nodes: Graph, cache: map<string, nat>, made: seq<Matcher>)
    requires BaseOk(env, nodes, cache)
    ensures BaseOk(env, nodes + made, cache)
  {
  }

  lemma KeptFurther(base: nat, a: Graph, b: Graph, c: Graph)
    requires Kept(base, a, b) && Kept(base, b, c)
    ensures Kept(base, a, c)
  {
    assert forall k :: 0 <= k < |a| ==> SameKind(a[k], b[k]) && SameKind(b[k], c[k]);
  }

  lemma OrIsTidy(env: Env, base: nat, b: Build)
    requires Tidy(env, base, b) && Or(b).Ok?
    ensures Tidy(env, base, Or(b).value) && Kept(base, b.nodes, Or(b).value.nodes)
  {
    hide BaseOk;
    var last, n := LastChild(b).value, |b.nodes|;
    assert ChildrenOk(base, b.nodes, b.Top());
    if last >= n || !b.nodes[last].Choice? {
      ReplacingIsTidy(env, base, b, [Choice([last])], n);
    }
  }

  /** Compiling a rule keeps all older matchers as they are. */
  lemma {:induction false} CompilingKeepsOld(env: Env, nodes: Graph, cache: map<string, nat>, name: string)
    requires BaseOk(env, nodes, cache) && Compile(env, nodes, cache, name).Ok?
    ensures var (built, rules, id) := Compile(env, nodes, cache, name).value;
            nodes <= built && BaseOk(env, built, rules) && name in rules && rules[name] == id
    decreases Uncached(env, cache), 0, 0
  {
    hide Kept, Tidy, BuildTokens;
    if name !in cache {
      var id := |nodes|;
      var start := Build(nodes + [List([])], cache[name := id], [id]);
      assert name in Uncached(env, cache) && name !in Uncached(env, start.cache);
      StartIsTidy(env, nodes, cache, name);
      BuildingKeepsOld(env, id, start, env.rules[name]);
      DoneKeeps(env, id, start, BuildTokens(env, start, env.rules[name]).value);
      assert start.nodes[..id] == nodes;
    }
  }

  lemma StartIsTidy(env: Env, nodes: Graph, cache: map<string, nat>, name: string)
    requires BaseOk(env, nodes, cache)
    ensures Tidy(env, |nodes|, Build(nodes + [List([])], cache[name := |nodes|], [|nodes|]))
  {
  }

  lemma DoneKeeps(env: Env, base: nat, start: Build, done: Build)
    requires Tidy(env, base, done) && Kept(base, start.nodes, done.nodes)
    ensures done.nodes[..base] == start.nodes[..base] && BaseOk(env, done.nodes, done.cache)
  {
  }

  lemma {:induction false} BuildingKeepsOld(env: Env, base: nat, b: Build, tokens: seq<PegToken>)
    requires Tidy(env, base, b) && BuildTokens(env, b, tokens).Ok?
    ensures Tidy(env, base, BuildTokens(env, b, tokens).value)
    ensures Kept(base, b.nodes, BuildTokens(env, b, tokens).value.nodes)
    decreases Uncached(env, b.cache), 1, |tokens|
  {
    hide Kept, Tidy, BuildToken;
    TidyIsValid(env, base, b);
    if tokens == [] {
      NothingChanges(env, base, b);
    } else {
      var next := BuildToken(env, b, tokens[0]).value;
      StepKeepsOld(env, base, b, tokens[0]);
      TidyIsValid(env, base, next);
      UncachedShrinks(env, b.cache, next.cache);
      BuildingKeepsOld(env, base, next, tokens[1..]);
      KeptFurther(base, b.nodes, next.nodes, BuildTokens(env, b, tokens).value.nodes);
    }
  }

  lemma TidyIsValid(env: Env, base: nat, b: Build)
    requires Tidy(env, base, b)
    ensures b.Valid()
  {
  }

  lemma NothingChanges(env: Env, base: nat, b: Build)
    requires Tidy(env, base, b)
    ensures Kept(base, b.nodes, b.nodes)
  {
    assert ChildrenOk(base, b.nodes, b.Top());
  }

  /** One token keeps the matchers from before `base`, and lists and choices stay such. */
  lemma {:induction false} StepKeepsOld(env: Env, base: nat, b: Build, t: PegToken)
    requires Tidy(env, base, b) && BuildToken(env, b, t).Ok?
    ensures Tidy(env, base, BuildToken(env, b, t).value) && Kept(base, b.nodes, BuildToken(env, b, t).value.nodes)
    decreases Uncached(env, b.cache), 1, 0
  {
    hide Kept, Tidy, AddMatcher, Compile, BaseOk, ChildrenOk;
    TidyIsValid(env, base, b);
    match t
    case Literal(text) =>
      var (nodes, id) := Keyword(env, b.nodes, text);
      WordIsTidy(env, base, b, text);
      AddedKeeps(env, base, b, nodes, b.cache, id);
    case Reference(name) =>
      TidyBase(env, base, b);
      CompilingKeepsOld(env, b.nodes, b.cache, name);
      var (nodes, cache, id) := Compile(env, b.nodes, b.cache, name).value;
      RuleIsNoChoice(env, nodes, cache, name);
      AddedKeeps(env, base, b, nodes, cache, id);
    case Operator(op) => OperatorKeepsOld(env, base, b, op);
    case Regex =>
  }

  lemma TidyBase(env: Env, base: nat, b: Build)
    requires Tidy(env, base, b)
    ensures BaseOk(env, b.nodes, b.cache)
  {
  }

  lemma RuleIsNoChoice(env: Env, nodes: Graph, cache: map<string, nat>, name: string)
    requires BaseOk(env, nodes, cache) && name in cache
    ensures cache[name] < |nodes| && !nodes[cache[name]].Choice?
  {
  }

  lemma WordIsTidy(env: Env, base: nat, b: Build, text: string)
    requires Tidy(env, base, b)
    ensures var (nodes, id) := Keyword(env, b.nodes, text);
            b.nodes <= nodes && BaseOk(env, nodes, b.cache) && id < |nodes| && !nodes[id].Choice?
  {
  }

  lemma AddedKeeps(env: Env, base: nat, b: Build, nodes: Graph, cache: map<string, nat>, id: nat)
    requires Tidy(env, base, b) && b.nodes <= nodes && BaseOk(env, nodes, cache) && id < |nodes| && !nodes[id].Choice?
    requires Build(nodes, cache, b.stack).Valid() && AddMatcher(Build(nodes, cache, b.stack), id).Ok?
    ensures var r := AddMatcher(Build(nodes, cache, b.stack), id).value;
            Tidy(env, base, r) && Kept(base, b.nodes, r.nodes)
  {
    hide Kept, Tidy, BaseOk, AddMatcher;
    KeptIsTidy(env, base, b, nodes, cache);
    AddingIsTidy(env, base, Build(nodes, cache, b.stack), id);
    KeptFurther(base, b.nodes, nodes, AddMatcher(Build(nodes, cache, b.stack), id).value.nodes);
  }

  lemma OperatorKeepsOld(env: Env, base: nat, b: Build, op: char)
    requires Tidy(env, base, b) && b.Valid() && Operate(b, op).Ok?
    ensures Tidy(env, base, Operate(b, op).value) && Kept(base, b.nodes, Operate(b, op).value.nodes)
  {
    hide Kept, Tidy, BaseOk, AddMatcher, ReplaceLast, Or;
    var n := |b.nodes|;
    match op
    case '?' => ReplacingIsTidy(env, base, b, [Optional(LastChild(b).value)], n);
    case '*' => ReplacingIsTidy(env, base, b, [Repeat(LastChild(b).value), Optional(n)], n + 1);
    case '+' => ReplacingIsTidy(env, base, b, [Repeat(LastChild(b).value)], n);
    case '/' => OrIsTidy(env, base, b);
    case '(' => OpenIsTidy(env, base, b);
    case ')' => CloseIsTidy(env, base, b);
    case '!' => NothingChanges(env, base, b);
    case _ =>
  }

  lemma OpenIsTidy(env: Env, base: nat, b: Build)
    requires Tidy(env, base, b)
    ensures Tidy(env, base, Open(b)) && Kept(base, b.nodes, Open(b).nodes)
  {
    hide BaseOk;
    GrownBaseOk(env, b.nodes, b.cache, [List([])]);
    KeptIsTidy(env, base, b, Open(b).nodes, b.cache);
  }

  lemma CloseIsTidy(env: Env, base: nat, b: Build)
    requires Tidy(env, base, b) && CloseBracket(b).Ok?
    ensures Tidy(env, base, CloseBracket(b).value) && Kept(base, b.nodes, CloseBracket(b).value.nodes)
  {
    hide BaseOk, AddMatcher;
    assert ChildrenOk(base, b.nodes, b.Top());
    AddingIsTidy(env, base, b.(stack := b.stack[..|b.stack| - 1]), b.Top());
  }
}
