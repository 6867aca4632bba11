/**
 The builder itself: a factory that owns the matchers and the cache, and a stack of matchers that are changed
 in place while a rule is read.
 */
module PegFactory {
  import opened Options
  import opened PegMatcher
  import opened PegBuilder

  class MatcherFactory {
    const env: Env
    var nodes: Graph
    var cache: map<string, nat>

    constructor (env: Env, nodes: Graph, cache: map<string, nat>)
      ensures this.env == env && this.nodes == nodes && this.cache == cache
    {
      this.env, this.nodes, this.cache := env, nodes, cache;
    }

    method Allocate(m: Matcher) returns (id: nat)
      modifies this`nodes
      ensures id == |old(nodes)| && nodes == old(nodes) + [m]
    {
      id := |nodes|;
      nodes := nodes + [m];
    }

    /** The matcher of a rule.  The rule is cached before its tokens are read. */
    method CreateMatcher(name: string) returns (r: Result<nat>)
      modifies this
      ensures match Compile(env, old(nodes), old(cache), name)
              case Ok(v) => r == Ok(v.2) && nodes == v.0 && cache == v.1
              case Err(e) => r == Err(e)
      decreases Uncached(env, cache), 0, 0
    {
      if name in cache {
        return Ok(cache[name]);
      }
      if name !in env.rules {
        return Err(MissingRule(name));
      }
      ghost var before := cache;
      var id := Allocate(List([]));
      cache := cache[name := id];
      assert name in Uncached(env, before) && name !in Uncached(env, cache);
      var list := new MatcherList(this, id);
      var error := list.ReadTokens(env.rules[name]);
      if error.Some? {
        return Err(error.value);
      }
      if list.GetRootMatcherCount() != 1 {
        return Err(UnclosedBracket);
      }
      r := Ok(id);
    }
  }

  class MatcherList {
    const factory: MatcherFactory
    var stack: seq<nat>

    constructor (factory: MatcherFactory, root: nat)
      ensures this.factory == factory && stack == [root]
    {
      this.factory := factory;
      stack := [root];
    }

    function State(): Build
      reads this, factory
    {
      Build(factory.nodes, factory.cache, stack)
    }

    /** The outcome of a step, as the step on values has it. */
    ghost predicate Agrees(error: Option<BuildError>, r: Result<Build>)
      reads this, factory
    {
      if r.Ok? then error == None && State() == r.value else error == Some(r.error)
    }

    function GetRootMatcherCount(): nat
      reads this
    {
      |stack|
    }

    method AddRootMatcher(id: nat)
      modifies this
      ensures stack == old(stack) + [id]
    {
      stack := stack + [id];
    }

    method AddMatcher(id: nat) returns (error: Option<BuildError>)
      requires State().Valid()
      modifies this, factory`nodes
      ensures Agrees(error, PegBuilder.AddMatcher(old(State()), id))
    {
      var top := stack[|stack| - 1];
      error := None;
      match factory.nodes[top]
      case List(ids) =>
        factory.nodes := factory.nodes[top := List(ids + [id])];
      case Choice(ids) =>
        if |stack| <= 1 {
          return Some(ChoiceAtRoot);
        }
        factory.nodes := factory.nodes[top := Choice(ids + [id])];
        stack := stack[..|stack| - 1];
      case _ =>
        error := Some(NotAContainer);
    }

    method CloseBracket() returns (error: Option<BuildError>)
      requires State().Valid()
      modifies this, factory`nodes
      ensures Agrees(error, PegBuilder.CloseBracket(old(State())))
    {
      if |stack| <= 1 {
        return Some(TooManyBrackets);
      }
      var bracket := stack[|stack| - 1];
      stack := stack[..|stack| - 1];
      error := AddMatcher(bracket);
    }

    /** Puts another matcher in the place of the last child of the list on top. */
    method SetLastChild(id: nat)
      requires State().Valid() && LastChild(State()).Ok?
      modifies factory`nodes
      ensures State() == ReplaceLast(old(State()), [], id)
    {
      var top := stack[|stack| - 1];
      var ids := factory.nodes[top].children;
      factory.nodes := factory.nodes[top := List(ids[..|ids| - 1] + [id])];
    }

    method ApplyPostfix(op: char) returns (error: Option<BuildError>)
      requires State().Valid() && op in {'?', '*', '+'}
      modifies this, factory`nodes
      ensures Agrees(error, Postfix(old(State()), op))
    {
      var last := LastChild(State());
      if last.Err? {
        return Some(last.error);
      }
      error := None;
      var final := last.value;
      ghost var b := State();
      if op == '+' {
        final := factory.Allocate(Repeat(final));
        SetLastChild(final);
        assert State() == ReplaceLast(b, [Repeat(last.value)], final);
      } else {
        if op == '*' {
          final := factory.Allocate(Repeat(final));
        }
        final := factory.Allocate(Optional(final));
        SetLastChild(final);
        assert op == '?' ==> State() == ReplaceLast(b, [Optional(last.value)], final);
        assert op == '*' ==> State() == ReplaceLast(b, [Repeat(last.value), Optional(final - 1)], final);
      }
    }

    method ApplyOr() returns (error: Option<BuildError>)
      requires State().Valid()
      modifies this, factory`nodes
      ensures Agrees(error, Or(old(State())))
    {
      var last := LastChild(State());
      if last.Err? {
        return Some(last.error);
      }
      if last.value < |factory.nodes| && factory.nodes[last.value].Choice? {
        AddRootMatcher(last.value);
      } else {
        var choice := factory.Allocate(Choice([last.value]));
        SetLastChild(choice);
        AddRootMatcher(choice);
      }
      error := None;
    }

    method ReadToken(token: PegToken) returns (error: Option<BuildError>)
      requires State().Valid()
      modifies this, factory
      ensures Agrees(error, BuildToken(factory.env, old(State()), token))
      decreases Uncached(factory.env, factory.cache), 1, 0
    {
      error := None;
      match token
      case Literal(text) =>
        var id;
        if text in factory.env.overrides {
          id := factory.env.overrides[text];
        } else {
          id := factory.Allocate(Terminal(factory.env.keyword(text)));
        }
        error := AddMatcher(id);
      case Reference(name) =>
        var rule := factory.CreateMatcher(name);
        if rule.Err? {
          return Some(rule.error);
        }
        error := AddMatcher(rule.value);
      case Regex =>
        error := Some(RegexUnsupported);
      case Operator(op) =>
        match op {
          case '/' => error := ApplyOr();
          case '(' =>
            var bracket := factory.Allocate(List([]));
            AddRootMatcher(bracket);
          case ')' => error := CloseBracket();
          case '!' =>
          case _ =>
            if op in {'?', '*', '+'} {
              error := ApplyPostfix(op);
            } else {
              error := Some(UnknownOperator);
            }
        }
    }

    method ReadTokens(tokens: seq<PegToken>) returns (error: Option<BuildError>)
      requires State().Valid()
      modifies this, factory
      ensures Agrees(error, BuildTokens(factory.env, old(State()), tokens))
      decreases Uncached(factory.env, factory.cache), 2, 0
    {
      ghost var env, all := factory.env, BuildTokens(factory.env, State(), tokens);
      ghost var cache := factory.cache;
      for i := 0 to |tokens|
        invariant State().Valid() && Extends(cache, factory.cache)
        invariant all == BuildTokens(env, State(), tokens[i..])
      {
        assert tokens[i..] != [] && tokens[i..][0] == tokens[i] && tokens[i..][1..] == tokens[i + 1..];
        assert Uncached(env, factory.cache) == Uncached(env, cache) || Uncached(env, factory.cache) < Uncached(env, cache);
        error := ReadToken(tokens[i]);
        if error.Some? {
          return;
        }
      }
      error := None;
    }
  }
}
