/**
 Why a rule table fails to compile: which error each token draws where it cannot go on, told on the lists and open
 choices that the tokens before it leave, and that compiling fails for no other reason.
 */
module PegBuildErrors {
  import opened Options
  import opened PegMatcher
  import opened PegBuilder
  import opened PegRebuild
  import opened PegRebuildProof
  import opened PegOlder
  import opened PegTrees
  import opened PegShapes

  /** The token cannot go on: an operator on the last item where a choice waits for its next option, or where there is
      no item; a bracket that was never opened; an operator that is none; a regular expression. */
  predicate IsErrorHere(frames: seq<Frame>, t: PegToken, e: BuildError)
    requires frames != []
  {
    var top := frames[|frames| - 1];
    || (t == Regex && e == RegexUnsupported)
    || (t == Operator(')') && |frames| == 1 && e == TooManyBrackets)
    || (t in {Operator('?'), Operator('*'), Operator('+'), Operator('/')}
        && ((top.choosing != [] && e == NotAList) || (top.choosing == [] && top.items == [] && e == NothingBefore)))
    || (t.Operator? && t.op !in {'?', '*', '+', '/', '(', ')', '!'} && e == UnknownOperator)
  }

  // ---------------------------------------------------------------- one token

  /** A list or open choice takes any matcher. */
  lemma AddingSucceeds(b: Build, below: seq<Frame>, top: Frame, id: nat)
    requires b.Valid() && Shape(b.nodes, b.stack, below + [top])
    ensures AddMatcher(b, id).Ok?
  {
    hide Shape;
    ShapeOf(b.nodes, b.stack, below, top);
  }

  lemma LastFails(b: Build, top: Frame, op: char)
    requires b.Valid() && Level(b.nodes, b.stack, top) && op in {'?', '*', '+', '/'}
    ensures var r := if op == '/' then Or(b) else Postfix(b, op);
            && (top.choosing != [] ==> r == Err(NotAList))
            && (top.choosing == [] && top.items == [] ==> r == Err(NothingBefore))
            && (top.choosing == [] && top.items != [] ==> r.Ok?)
  {
    hide ReplaceLast;
  }

  lemma CloseFails(b: Build, below: seq<Frame>, top: Frame)
    requires b.Valid() && Shape(b.nodes, b.stack, below + [top]) && top.choosing == []
    ensures below == [] ==> CloseBracket(b) == Err(TooManyBrackets)
    ensures below != [] ==> CloseBracket(b).Ok?
  {
    hide AddMatcher, Shape, Level;
    ShapeOf(b.nodes, b.stack, below, top);
    NoFrames(b.nodes, b.stack[..|b.stack| - 1], below);
    if below != [] {
      var rest, outer := below[..|below| - 1], below[|below| - 1];
      assert below == rest + [outer];
      AddingSucceeds(b.(stack := b.stack[..|b.stack| - 1]), rest, outer, b.Top());
    }
  }

  lemma OperatorFails(b: Build, below: seq<Frame>, top: Frame, op: char, e: BuildError)
    requires b.Valid() && Shape(b.nodes, b.stack, below + [top]) && (op == ')' ==> top.choosing == [])
    ensures Operate(b, op) == Err(e) <==> IsErrorHere(below + [top], Operator(op), e)
  {
    hide Shape, Level, CloseBracket, Postfix, Or, Open;
    ShapeOf(b.nodes, b.stack, below, top);
    if op in {'?', '*', '+', '/'} {
      LastFails(b, top, op);
    } else if op == ')' {
      CloseFails(b, below, top);
    }
  }

  /** Where the builder fails on a token, and with which error. */
  lemma TokenFailsExactly(env: Env, base: nat, b: Build, frames: seq<Frame>, t: PegToken, e: BuildError)
    requires frames != [] && Tidy(env, base, b) && Shape(b.nodes, b.stack, frames)
    requires t == Operator(')') ==> frames[|frames| - 1].choosing == []
    ensures b.Valid()
    ensures BuildToken(env, b, t) == Err(e)
       <==> IsErrorHere(frames, t, e) || (t.Reference? && Compile(env, b.nodes, b.cache, t.text) == Err(e))
  {
    hide Shape, Level, AddMatcher, Compile, Tidy, BaseOk, IsErrorHere, Operate, Keyword;
    TidyIsValid(env, base, b);
    var below, top := frames[..|frames| - 1], frames[|frames| - 1];
    assert frames == below + [top];
    match t
    case Literal(text) =>
      WordIsTidy(env, base, b, text);
      var (nodes, id) := Keyword(env, b.nodes, text);
      GrownShapes(b, frames, nodes);
      AddingSucceeds(b.(nodes := nodes), below, top, id);
      NoErrorHere(frames, t, e);
    case Reference(name) =>
      NoErrorHere(frames, t, e);
      if Compile(env, b.nodes, b.cache, name).Ok? {
        TidyBase(env, base, b);
        CompilingKeepsOld(env, b.nodes, b.cache, name);
        var (nodes, cache, id) := Compile(env, b.nodes, b.cache, name).value;
        GrownShapes(b, frames, nodes);
        AddingSucceeds(Build(nodes, cache, b.stack), below, top, id);
      }
    case Operator(op) => OperatorFails(b, below, top, op, e);
    case Regex => RegexFails(frames, e);
  }

  lemma NoErrorHere(frames: seq<Frame>, t: PegToken, e: BuildError)
    requires frames != [] && (t.Literal? || t.Reference?)
    ensures !IsErrorHere(frames, t, e)
  {
  }

  lemma RegexFails(frames: seq<Frame>, e: BuildError)
    requires frames != []
    ensures IsErrorHere(frames, Regex, e) <==> e == RegexUnsupported
  {
  }

  // ---------------------------------------------------------------- rule tables

  type Rules = map<string, seq<PegToken>>

  /** The error has a reason in the rules: the rule is missing; or some token of it cannot go on behind the tokens before
      it, or refers to a rule with this error; or a bracket or choice is open at its end. */
  least predicate HasError(rules: Rules, name: string, e: BuildError) {
    if name !in rules then e == MissingRule(name)
    else
      || EndsOpen([Frame([], [])], rules[name], e)
      || (exists n :: 0 <= n < |rules[name]| && StopsAt([Frame([], [])], rules[name], n, e))
      || (exists n :: 0 <= n < |rules[name]| && rules[name][n].Reference? && HasError(rules, rules[name][n].text, e))
  }

  predicate StopsAt(frames: seq<Frame>, tokens: seq<PegToken>, n: nat, e: BuildError)
    requires frames != [] && n < |tokens|
  {
    var before := ReadTokens(frames, tokens[..n]);
    before.Some? && IsErrorHere(before.value, tokens[n], e)
  }

  predicate EndsOpen(frames: seq<Frame>, tokens: seq<PegToken>, e: BuildError)
    requires frames != []
  {
    var after := ReadTokens(frames, tokens);
    e == UnclosedBracket && after.Some? && (|after.value| > 1 || after.value[0].choosing != [])
  }

  ghost predicate NoneDangles(env: Env) {
    forall name :: name in env.rules ==> !Dangles(Bare(env.rules[name]))
  }

  /** Some token stops the reading, or refers to a rule that has the error. */
  ghost predicate FailsIn(rules: Rules, frames: seq<Frame>, tokens: seq<PegToken>, e: BuildError)
    requires frames != []
  {
    || (exists n :: 0 <= n < |tokens| && StopsAt(frames, tokens, n, e))
    || (exists n :: 0 <= n < |tokens| && tokens[n].Reference? && HasError(rules, tokens[n].text, e))
  }

  lemma FailsHere(rules: Rules, frames: seq<Frame>, tokens: seq<PegToken>, e: BuildError)
    requires frames != [] && tokens != []
    requires IsErrorHere(frames, tokens[0], e) || (tokens[0].Reference? && HasError(rules, tokens[0].text, e))
    ensures FailsIn(rules, frames, tokens, e)
  {
    hide IsErrorHere, HasError;
    assert tokens[..0] == [];
    if IsErrorHere(frames, tokens[0], e) {
      assert StopsAt(frames, tokens, 0, e);
    }
  }

  lemma FailsLater(rules: Rules, frames: seq<Frame>, t: PegToken, rest: seq<PegToken>, e: BuildError)
    requires frames != [] && Step(frames, t).Some? && FailsIn(rules, Step(frames, t).value, rest, e)
    ensures FailsIn(rules, frames, [t] + rest, e)
  {
    hide IsErrorHere, HasError, Step;
    var tokens, next := [t] + rest, Step(frames, t).value;
    if n :| 0 <= n < |rest| && StopsAt(next, rest, n, e) {
      assert tokens[..n + 1] == [t] + rest[..n] && tokens[..n + 1][1..] == rest[..n];
      assert StopsAt(frames, tokens, n + 1, e);
    } else {
      var n :| 0 <= n < |rest| && rest[n].Reference? && HasError(rules, rest[n].text, e);
      assert tokens[n + 1] == rest[n];
    }
  }

  lemma {:induction false} TokensFail(env: Env, base: nat, b: Build, frames: seq<Frame>, tokens: seq<PegToken>, e: BuildError)
    requires frames != [] && FramesOk(frames) && Tidy(env, base, b) && Shape(b.nodes, b.stack, frames) && NoneDangles(env)
    requires b.Valid() && BuildTokens(env, b, tokens) == Err(e) && GoesOn(frames, Bare(tokens))
    ensures FailsIn(env.rules, frames, tokens, e)
    decreases Uncached(env, b.cache), 1, |tokens|
  {
    hide Shape, Tidy, FramesOk, Step, BuildToken, Dangles, NoneDangles, FailsIn, IsErrorHere, HasError;
    var t, rest := tokens[0], tokens[1..];
    assert tokens == [t] + rest;
    ClosesNoChoice(frames, t, rest);
    var next := BuildToken(env, b, t);
    if next.Err? {
      TokenFailsExactly(env, base, b, frames, t, e);
      if !IsErrorHere(frames, t, e) {
        TidyBase(env, base, b);
        CompilingFails(env, b.nodes, b.cache, t.text, e);
      }
      FailsHere(env.rules, frames, tokens, e);
    } else {
      StepFollows(env, base, b, frames, t);
      StepShows(frames, t);
      StepKeepsOld(env, base, b, t);
      StillGoesOn(frames, t, rest);
      assert Uncached(env, next.value.cache) <= Uncached(env, b.cache);
      assert Uncached(env, next.value.cache) == Uncached(env, b.cache) || Uncached(env, next.value.cache) < Uncached(env, b.cache);
      TokensFail(env, base, next.value, Step(frames, t).value, rest, e);
      FailsLater(env.rules, frames, t, rest, e);
    }
  }

  lemma ClosesNoChoice(frames: seq<Frame>, t: PegToken, rest: seq<PegToken>)
    requires frames != [] && GoesOn(frames, Bare([t] + rest))
    ensures t == Operator(')') ==> frames[|frames| - 1].choosing == []
  {
  }

  /** Compiling fails for no other reason. */
  lemma {:induction false} CompilingFails(env: Env, nodes: Graph, cache: map<string, nat>, name: string, e: BuildError)
    requires BaseOk(env, nodes, cache) && NoneDangles(env) && Compile(env, nodes, cache, name) == Err(e)
    ensures HasError(env.rules, name, e)
    decreases Uncached(env, cache), 0, 0
  {
    hide BaseOk, Tidy, BuildTokens, Dangles, FramesOk, Shape, ReadTokens, StopsAt;
    if name in env.rules {
      var tokens, frames := env.rules[name], [Frame([], [])];
      var start := Build(nodes + [List([])], cache[name := |nodes|], [|nodes|]);
      assert name in Uncached(env, cache) && name !in Uncached(env, start.cache);
      StartIsTidy(env, nodes, cache, name);
      FirstFrame(nodes);
      var done := BuildTokens(env, start, tokens);
      if done.Err? {
        TokensFail(env, |nodes|, start, frames, tokens, e);
      } else {
        ReadingFollows(env, |nodes|, start, frames, tokens);
        OpenAtEnd(done.value.nodes, done.value.stack, ReadTokens(frames, tokens).value);
      }
    }
  }

  lemma OpenAtEnd(nodes: Graph, stack: seq<nat>, frames: seq<Frame>)
    requires frames != [] && Shape(nodes, stack, frames)
    ensures |frames| == 1 && frames[0].choosing == [] ==> |stack| == 1
  {
    if |frames| == 1 && frames[0].choosing == [] {
      assert frames == [frames[0]];
      OneLevel(nodes, stack, frames[0]);
    }
  }

  lemma OneLevel(nodes: Graph, stack: seq<nat>, f: Frame)
    requires Shape(nodes, stack, [f]) && f.choosing == []
    ensures |stack| == 1
  {
    NoFrames(nodes, stack[..|stack| - 1], [f][..0]);
  }
}
