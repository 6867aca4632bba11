/**
 The builder that turns the tokens of a grammar rule into a matcher graph with a stack.  Lists and choices
 grow in place while they are on the stack; a rule's list is cached before its body is read, so that rules
 can refer to themselves.
 */
module PegBuilder {
  import opened PegMatcher

  datatype PegToken = Literal(text: string) | Reference(text: string) | Operator(op: char) | Regex

  datatype BuildError =
    | MissingRule(name: string) | ChoiceAtRoot | NotAContainer | NotAList | NothingBefore
    | TooManyBrackets | UnclosedBracket | UnknownOperator | RegexUnsupported

  datatype Result<+T> = Ok(value: T) | Err(error: BuildError)

  /** What a build does not change: the rules, the keywords that have a matcher of their own, and the test that
      a keyword matcher makes. */
  datatype Env = Env(rules: map<string, seq<PegToken>>, overrides: map<string, nat>, keyword: string -> (string -> bool))

  /** The matchers so far, the cached rules, and the stack of lists and choices being filled. */
  datatype Build = Build(nodes: Graph, cache: map<string, nat>, stack: seq<nat>)
  {
    predicate Valid() {
      && stack != []
      && (forall k :: 0 <= k < |stack| ==> stack[k] < |nodes|)
    }

    function Top(): nat
      requires Valid()
    {
      stack[|stack| - 1]
    }
  }

  ghost predicate Extends(before: map<string, nat>, cache: map<string, nat>) {
    forall n :: n in before ==> n in cache && cache[n] == before[n]
  }

  // ---------------------------------------------------------------- the steps, on values

  function WithChild(m: Matcher, id: nat): Matcher
    requires m.List? || m.Choice?
  {
    if m.List? then List(m.children + [id]) else Choice(m.children + [id])
  }

  /** A list grows; a choice grows and leaves the stack. */
  function AddMatcher(b: Build, id: nat): (r: Result<Build>)
    requires b.Valid()
    ensures r.Ok? ==> r.value.Valid() && |r.value.nodes| == |b.nodes| && r.value.cache == b.cache
  {
    var top := b.nodes[b.Top()];
    if top.List? then Ok(b.(nodes := b.nodes[b.Top() := WithChild(top, id)]))
    else if top.Choice? then
      if |b.stack| <= 1 then Err(ChoiceAtRoot)
      else Ok(b.(nodes := b.nodes[b.Top() := WithChild(top, id)], stack := b.stack[..|b.stack| - 1]))
    else Err(NotAContainer)
  }

  /** New matchers are made, and the last child of the list on top is replaced. */
  function ReplaceLast(b: Build, made: seq<Matcher>, id: nat): (r: Build)
    requires b.Valid() && b.nodes[b.Top()].List? && b.nodes[b.Top()].children != []
    ensures r.Valid() && |r.nodes| == |b.nodes| + |made| && r.cache == b.cache && r.stack == b.stack
  {
    var ids := b.nodes[b.Top()].children;
    b.(nodes := b.nodes[b.Top() := List(ids[..|ids| - 1] + [id])] + made)
  }

  function LastChild(b: Build): (r: Result<nat>)
    requires b.Valid()
    ensures r.Ok? ==> b.nodes[b.Top()].List? && b.nodes[b.Top()].children != []
  {
    if !b.nodes[b.Top()].List? then Err(NotAList)
    else if b.nodes[b.Top()].children == [] then Err(NothingBefore)
    else Ok(b.nodes[b.Top()].children[|b.nodes[b.Top()].children| - 1])
  }

  function Postfix(b: Build, op: char): (r: Result<Build>)
    requires b.Valid() && op in {'?', '*', '+'}
    ensures r.Ok? ==> r.value.Valid() && |b.nodes| <= |r.value.nodes| && r.value.cache == b.cache
  {
    var last := LastChild(b);
    var n := |b.nodes|;
    if last.Err? then Err(last.error)
    else if op == '?' then Ok(ReplaceLast(b, [Optional(last.value)], n))
    else if op == '*' then Ok(ReplaceLast(b, [Repeat(last.value), Optional(n)], n + 1))
    else Ok(ReplaceLast(b, [Repeat(last.value)], n))
  }

  /** The last child becomes the first alternative of a choice, unless it is a choice already; the choice goes
      on the stack for the next matcher. */
  function Or(b: Build): (r: Result<Build>)
    requires b.Valid()
    ensures r.Ok? ==> r.value.Valid() && |b.nodes| <= |r.value.nodes| && r.value.cache == b.cache
  {
    var last := LastChild(b);
    var n := |b.nodes|;
    if last.Err? then Err(last.error)
    else if last.value < n && b.nodes[last.value].Choice? then Ok(b.(stack := b.stack + [last.value]))
    else
      var r := ReplaceLast(b, [Choice([last.value])], n);
      Ok(r.(stack := r.stack + [n]))
  }

  function Open(b: Build): (r: Build)
    requires b.Valid()
    ensures r.Valid() && |b.nodes| <= |r.nodes| && r.cache == b.cache
  {
    b.(nodes := b.nodes + [List([])], stack := b.stack + [|b.nodes|])
  }

  function CloseBracket(b: Build): (r: Result<Build>)
    requires b.Valid()
    ensures r.Ok? ==> r.value.Valid() && |b.nodes| <= |r.value.nodes| && r.value.cache == b.cache
  {
    if |b.stack| <= 1 then Err(TooManyBrackets)
    else AddMatcher(b.(stack := b.stack[..|b.stack| - 1]), b.Top())
  }

  function Operate(b: Build, op: char): (r: Result<Build>)
    requires b.Valid()
    ensures r.Ok? ==> r.value.Valid() && |b.nodes| <= |r.value.nodes| && r.value.cache == b.cache
  {
    match op
    case '?' => Postfix(b, op)
    case '*' => Postfix(b, op)
    case '+' => Postfix(b, op)
    case '/' => Or(b)
    case '(' => Ok(Open(b))
    case ')' => CloseBracket(b)
    case '!' => Ok(b)
    case _ => Err(UnknownOperator)
  }

  /** The matcher of a keyword: its override, or a new one. */
  function Keyword(env: Env, nodes: Graph, text: string): (r: (Graph, nat))
    ensures |nodes| <= |r.0|
  {
    if text in env.overrides then (nodes, env.overrides[text])
    else (nodes + [Terminal(env.keyword(text))], |nodes|)
  }

  // ---------------------------------------------------------------- rules

  ghost function Uncached(env: Env, cache: map<string, nat>): set<string> {
    env.rules.Keys - cache.Keys
  }

  /** Compiles a rule into the graph: its matcher, unless it is cached. */
  ghost function Compile(env: Env, nodes: Graph, cache: map<string, nat>, name: string): (r: Result<(Graph, map<string, nat>, nat)>)
    ensures r.Ok? ==> |nodes| <= |r.value.0| && Extends(cache, r.value.1) && r.value.1.Keys <= cache.Keys + env.rules.Keys
    decreases Uncached(env, cache), 0, 0
  {
    if name in cache then Ok((nodes, cache, cache[name]))
    else if name !in env.rules then Err(MissingRule(name))
    else
      var id := |nodes|;
      var start := Build(nodes + [List([])], cache[name := id], [id]);
      assert name in Uncached(env, cache) && name !in Uncached(env, start.cache);
      var done := BuildTokens(env, start, env.rules[name]);
      if done.Err? then Err(done.error)
      else if |done.value.stack| != 1 then Err(UnclosedBracket)
      else Ok((done.value.nodes, done.value.cache, id))
  }

  ghost function BuildTokens(env: Env, b: Build, tokens: seq<PegToken>): (r: Result<Build>)
    requires b.Valid()
    ensures r.Ok? ==> r.value.Valid() && |b.nodes| <= |r.value.nodes| && Extends(b.cache, r.value.cache)
    ensures r.Ok? ==> r.value.cache.Keys <= b.cache.Keys + env.rules.Keys
    decreases Uncached(env, b.cache), 1, |tokens|
  {
    if tokens == [] then Ok(b)
    else
      var next := BuildToken(env, b, tokens[0]);
      if next.Err? then next
      else
        assert Uncached(env, next.value.cache) <= Uncached(env, b.cache);
        assert Uncached(env, next.value.cache) == Uncached(env, b.cache) || Uncached(env, next.value.cache) < Uncached(env, b.cache);
        BuildTokens(env, next.value, tokens[1..])
  }

  ghost function BuildToken(env: Env, b: Build, token: PegToken): (r: Result<Build>)
    requires b.Valid()
    ensures r.Ok? ==> r.value.Valid() && |b.nodes| <= |r.value.nodes| && Extends(b.cache, r.value.cache)
    ensures r.Ok? ==> r.value.cache.Keys <= b.cache.Keys + env.rules.Keys
    decreases Uncached(env, b.cache), 1, 0
  {
    match token
    case Literal(text) =>
      var (nodes, id) := Keyword(env, b.nodes, text);
      AddMatcher(b.(nodes := nodes), id)
    case Reference(name) =>
      var compiled := Compile(env, b.nodes, b.cache, name);
      if compiled.Err? then Err(compiled.error)
      else
        var (nodes, cache, id) := compiled.value;
        AddMatcher(Build(nodes, cache, b.stack), id)
    case Operator(op) => Operate(b, op)
    case Regex => Err(RegexUnsupported)
  }
}
