/**
 The builder's stack follows the reading of the rule's tokens as a tree.  So every rule that is built without
 an error is the printed form of a tree, exactly when no `/` stands right before a `)`.
 */
module PegShapes {
  import opened Options
  import opened PegMatcher
  import opened PegBuilder
  import opened PegRebuild
  import opened PegRebuildProof
  import opened PegOlder
  import opened PegTrees

  /** The last child of a list exists, and is a choice, younger than the list, when its item is one. */
  ghost predicate LastOk(nodes: Graph, list: nat, id: nat, either: bool) {
    && id < |nodes| && (nodes[id].Choice? <==> either) && (either ==> list < id)
  }

  /** How many matchers of the stack a frame stands for. */
  function Depth(f: Frame): nat { if f.choosing == [] then 1 else 2 }

  /** The top of the stack is the frame's list, with the choice that waits above it. */
  ghost predicate Level(nodes: Graph, stack: seq<nat>, f: Frame) {
    && |stack| >= Depth(f)
    && var list := stack[|stack| - Depth(f)];
       && list < |nodes| && nodes[list].List? && (forall k :: 0 <= k < |stack| - Depth(f) ==> stack[k] < list)
       && var ids := nodes[list].children;
          if f.choosing == [] then
            |ids| == |f.items| && (ids != [] ==> LastOk(nodes, list, ids[|ids| - 1], f.items[|ids| - 1].Either?))
          else
            |ids| == |f.items| + 1 && stack[|stack| - 1] == ids[|ids| - 1] && LastOk(nodes, list, ids[|ids| - 1], true)
  }

  ghost predicate Shape(nodes: Graph, stack: seq<nat>, frames: seq<Frame>)
    decreases |frames|
  {
    if frames == [] then stack == []
    else
      var f := frames[|frames| - 1];
      Level(nodes, stack, f) && Shape(nodes, stack[..|stack| - Depth(f)], frames[..|frames| - 1])
  }

  /** Other matchers may change, as long as lists and choices stay such. */
  lemma {:induction false} ShapeLater(nodes: Graph, stack: seq<nat>, frames: seq<Frame>, later: Graph)
    requires Shape(nodes, stack, frames) && |nodes| <= |later|
    requires forall k :: 0 <= k < |nodes| ==> SameKind(nodes[k], later[k])
    requires forall k :: 0 <= k < |stack| ==> stack[k] < |nodes| && later[stack[k]] == nodes[stack[k]]
    ensures Shape(later, stack, frames)
    decreases |frames|
  {
    if frames != [] {
      var f := frames[|frames| - 1];
      assert Level(later, stack, f);
      ShapeLater(nodes, stack[..|stack| - Depth(f)], frames[..|frames| - 1], later);
    }
  }

  lemma ShapeOf(nodes: Graph, stack: seq<nat>, below: seq<Frame>, top: Frame)
    ensures Shape(nodes, stack, below + [top]) <==>
            Level(nodes, stack, top) && |stack| >= Depth(top) && Shape(nodes, stack[..|stack| - Depth(top)], below)
  {
    assert (below + [top])[..|below|] == below;
  }

  // ---------------------------------------------------------------- one token

  /** Above `rest` the top of the stack may change; nothing else does. */
  ghost predicate OnlyAbove(b: Build, r: Build, rest: seq<nat>) {
    && |b.nodes| <= |r.nodes| && (forall k :: 0 <= k < |b.nodes| ==> SameKind(b.nodes[k], r.nodes[k]))
    && forall k :: 0 <= k < |rest| ==> rest[k] < |b.nodes| && r.nodes[rest[k]] == b.nodes[rest[k]]
  }

  lemma AddingLevel(b: Build, top: Frame, id: nat, i: Item)
    requires b.Valid() && Level(b.nodes, b.stack, top) && AddMatcher(b, id).Ok?
    requires id < |b.nodes| && !b.nodes[id].Choice? && !i.Either?
    ensures var r, rest := AddMatcher(b, id).value, b.stack[..|b.stack| - Depth(top)];
            Level(r.nodes, r.stack, Put(top, i)) && r.stack[..|r.stack| - 1] == rest && OnlyAbove(b, r, rest)
  {
    var r, rest := AddMatcher(b, id).value, b.stack[..|b.stack| - Depth(top)];
    if top.choosing == [] {
      assert r.stack == b.stack;
    } else {
      assert r.stack == b.stack[..|b.stack| - 1];
    }
    assert r.stack[..|r.stack| - 1] == rest;
  }

  /** The top of the stack changed as its frame did. */
  ghost predicate TopChanged(b: Build, top: Frame, r: Build, f: Frame) {
    && |b.stack| >= Depth(top) && |r.stack| >= Depth(f) && Level(r.nodes, r.stack, f)
    && r.stack[..|r.stack| - Depth(f)] == b.stack[..|b.stack| - Depth(top)]
    && OnlyAbove(b, r, b.stack[..|b.stack| - Depth(top)])
  }

  lemma TopShapes(b: Build, below: seq<Frame>, top: Frame, r: Build, f: Frame)
    requires Shape(b.nodes, b.stack, below + [top]) && TopChanged(b, top, r, f)
    ensures Shape(r.nodes, r.stack, below + [f])
  {
    hide Level, Shape, SameKind;
    ShapeOf(b.nodes, b.stack, below, top);
    ShapeOf(r.nodes, r.stack, below, f);
    ShapeLater(b.nodes, b.stack[..|b.stack| - Depth(top)], below, r.nodes);
  }

  /** The container on top takes a matcher for an item that is no choice. */
  lemma AddingShapes(b: Build, below: seq<Frame>, top: Frame, id: nat, i: Item)
    requires b.Valid() && Shape(b.nodes, b.stack, below + [top]) && AddMatcher(b, id).Ok?
    requires id < |b.nodes| && !b.nodes[id].Choice? && !i.Either?
    ensures var r := AddMatcher(b, id).value; Shape(r.nodes, r.stack, below + [Put(top, i)])
  {
    hide Level, Shape, AddMatcher, OnlyAbove;
    ShapeOf(b.nodes, b.stack, below, top);
    AddingLevel(b, top, id, i);
    TopShapes(b, below, top, AddMatcher(b, id).value, Put(top, i));
  }

  /** A postfix operator wraps the last child of the list on top. */
  lemma PostfixLevel(b: Build, top: Frame, op: char)
    requires b.Valid() && Level(b.nodes, b.stack, top) && op in {'?', '*', '+'} && Postfix(b, op).Ok?
    ensures top.choosing == [] && top.items != []
    ensures TopChanged(b, top, Postfix(b, op).value, Frame(top.items[..|top.items| - 1] + [Wrap(op, top.items[|top.items| - 1])], []))
  {
    var r, rest := Postfix(b, op).value, b.stack[..|b.stack| - 1];
    assert r.stack == b.stack;
  }

  /** A `/` opens the choice that the last child of the list on top is, or makes it the first option of a new one. */
  lemma OrLevel(b: Build, top: Frame)
    requires b.Valid() && Level(b.nodes, b.stack, top) && FrameOk(top) && Or(b).Ok?
    ensures top.choosing == [] && top.items != []
    ensures TopChanged(b, top, Or(b).value, Frame(top.items[..|top.items| - 1], Opened(top.items[|top.items| - 1])))
  {
    assert Printable(top.items[|top.items| - 1]);
    var r, rest, last := Or(b).value, b.stack[..|b.stack| - 1], top.items[|top.items| - 1];
    assert r.stack[..|r.stack| - 2] == rest;
  }

  lemma GrownShapes(b: Build, frames: seq<Frame>, nodes: Graph)
    requires b.Valid() && Shape(b.nodes, b.stack, frames) && b.nodes <= nodes
    ensures Shape(nodes, b.stack, frames)
  {
    ShapeLater(b.nodes, b.stack, frames, nodes);
  }

  lemma OpenShapes(b: Build, frames: seq<Frame>)
    requires b.Valid() && Shape(b.nodes, b.stack, frames)
    ensures Shape(Open(b).nodes, Open(b).stack, frames + [Frame([], [])])
  {
    hide Shape;
    GrownShapes(b, frames, Open(b).nodes);
    assert Open(b).stack[..|b.stack|] == b.stack;
    ShapeOf(Open(b).nodes, Open(b).stack, frames, Frame([], []));
  }

  lemma NoFrames(nodes: Graph, stack: seq<nat>, frames: seq<Frame>)
    requires Shape(nodes, stack, frames)
    ensures frames == [] <==> stack == []
  {
  }

  lemma TopIsList(nodes: Graph, stack: seq<nat>, top: Frame)
    requires Level(nodes, stack, top) && top.choosing == []
    ensures stack != [] && stack[|stack| - 1] < |nodes| && nodes[stack[|stack| - 1]].List?
  {
  }

  lemma CloseShapes(b: Build, below: seq<Frame>, top: Frame)
    requires b.Valid() && Shape(b.nodes, b.stack, below + [top]) && top.choosing == [] && CloseBracket(b).Ok?
    ensures below != []
    ensures var r := CloseBracket(b).value;
            Shape(r.nodes, r.stack, below[..|below| - 1] + [Put(below[|below| - 1], Group(top.items))])
  {
    hide AddMatcher, Put, Shape, Level;
    ShapeOf(b.nodes, b.stack, below, top);
    NoFrames(b.nodes, b.stack[..|b.stack| - 1], below);
    TopIsList(b.nodes, b.stack, top);
    var rest, outer := below[..|below| - 1], below[|below| - 1];
    assert below == rest + [outer];
    AddingShapes(b.(stack := b.stack[..|b.stack| - 1]), rest, outer, b.Top(), Group(top.items));
  }

  /** The frames can take the token when the builder can, and still go with its stack. */
  lemma StepFollows(env: Env, base: nat, b: Build, frames: seq<Frame>, t: PegToken)
    requires frames != [] && FramesOk(frames) && Tidy(env, base, b) && Shape(b.nodes, b.stack, frames)
    requires BuildToken(env, b, t).Ok? && (t == Operator(')') ==> frames[|frames| - 1].choosing == [])
    ensures Step(frames, t).Some?
    ensures var r := BuildToken(env, b, t).value; Shape(r.nodes, r.stack, Step(frames, t).value)
  {
    hide Shape, Level, AddMatcher, Compile, Tidy, FrameOk, Put, BaseOk, CloseBracket, Postfix, Or, Open, TopChanged;
    TidyIsValid(env, base, b);
    var below, top := frames[..|frames| - 1], frames[|frames| - 1];
    assert frames == below + [top] && FrameOk(top);
    ShapeOf(b.nodes, b.stack, below, top);
    match t
    case Literal(text) =>
      WordIsTidy(env, base, b, text);
      var (nodes, id) := Keyword(env, b.nodes, text);
      GrownShapes(b, frames, nodes);
      AddingShapes(b.(nodes := nodes), below, top, id, Word(text));
    case Reference(name) =>
      TidyBase(env, base, b);
      CompilingKeepsOld(env, b.nodes, b.cache, name);
      var (nodes, cache, id) := Compile(env, b.nodes, b.cache, name).value;
      RuleIsNoChoice(env, nodes, cache, name);
      GrownShapes(b, frames, nodes);
      AddingShapes(Build(nodes, cache, b.stack), below, top, id, Rule(name));
    case Operator(op) => OperatorFollows(b, below, top, op);
    case Regex =>
  }

  lemma OperatorFollows(b: Build, below: seq<Frame>, top: Frame, op: char)
    requires b.Valid() && FrameOk(top) && Shape(b.nodes, b.stack, below + [top])
    requires Operate(b, op).Ok? && (op == ')' ==> top.choosing == [])
    ensures Step(below + [top], Operator(op)).Some?
    ensures Shape(Operate(b, op).value.nodes, Operate(b, op).value.stack, Step(below + [top], Operator(op)).value)
  {
    hide Shape, Level, FrameOk, Put, CloseBracket, Postfix, Or, Open, TopChanged, Wrap, Opened;
    var frames := below + [top];
    assert frames[..|frames| - 1] == below;
    ShapeOf(b.nodes, b.stack, below, top);
    if op in {'?', '*', '+'} {
      PostfixLevel(b, top, op);
      var f := Frame(top.items[..|top.items| - 1] + [Wrap(op, top.items[|top.items| - 1])], []);
      TopShapes(b, below, top, Postfix(b, op).value, f);
    } else if op == '/' {
      OrLevel(b, top);
      TopShapes(b, below, top, Or(b).value, Frame(top.items[..|top.items| - 1], Opened(top.items[|top.items| - 1])));
    } else if op == '(' {
      OpenShapes(b, frames);
    } else if op == ')' {
      CloseShapes(b, below, top);
    }
  }

  // ---------------------------------------------------------------- whole rules

  lemma OnlySlashWaits(frames: seq<Frame>, t: PegToken)
    requires frames != [] && Step(frames, t).Some? && t != Operator('!') && t != Operator('/')
    ensures var next := Step(frames, t).value; next[|next| - 1].choosing == []
  {
  }

  /** No `)` comes where a choice waits for its next option. */
  predicate GoesOn(frames: seq<Frame>, tokens: seq<PegToken>)
    requires frames != []
  {
    !Dangles(tokens) && (frames[|frames| - 1].choosing != [] ==> tokens == [] || tokens[0] != Operator(')'))
  }

  lemma StillGoesOn(frames: seq<Frame>, t: PegToken, rest: seq<PegToken>)
    requires frames != [] && Step(frames, t).Some? && GoesOn(frames, Bare([t] + rest))
    ensures GoesOn(Step(frames, t).value, Bare(rest))
  {
    hide Step;
    assert ([t] + rest)[1..] == rest;
    if t == Operator('!') {
      BangKeeps(frames);
    } else {
      var bare := Bare(rest);
      assert forall k :: 0 <= k < |bare| - 1 && IsDangling(bare, k) ==> IsDangling([t] + bare, k + 1);
      if t != Operator('/') {
        OnlySlashWaits(frames, t);
      } else if bare != [] {
        assert !IsDangling([t] + bare, 0);
      }
    }
  }

  lemma BangKeeps(frames: seq<Frame>)
    requires frames != []
    ensures Step(frames, Operator('!')) == Some(frames)
  {
  }

  lemma {:induction false} ReadingFollows(env: Env, base: nat, b: Build, frames: seq<Frame>, tokens: seq<PegToken>)
    requires frames != [] && FramesOk(frames) && Tidy(env, base, b) && Shape(b.nodes, b.stack, frames)
    requires BuildTokens(env, b, tokens).Ok? && GoesOn(frames, Bare(tokens))
    ensures ReadTokens(frames, tokens).Some?
    ensures var r := BuildTokens(env, b, tokens).value; Shape(r.nodes, r.stack, ReadTokens(frames, tokens).value)
    decreases |tokens|
  {
    hide Shape, Tidy, FramesOk, Step, BuildToken, Dangles;
    TidyIsValid(env, base, b);
    if tokens != [] {
      var t, rest := tokens[0], tokens[1..];
      assert tokens == [t] + rest;
      StepFollows(env, base, b, frames, t);
      StepShows(frames, t);
      StepKeepsOld(env, base, b, t);
      StillGoesOn(frames, t, rest);
      ReadingFollows(env, base, BuildToken(env, b, t).value, Step(frames, t).value, rest);
    }
  }

  /** A rule that compiles reads as a tree exactly when no `/` stands right before a `)`. */
  lemma CompiledRuleIsTree(env: Env, nodes: Graph, cache: map<string, nat>, name: string)
    requires BaseOk(env, nodes, cache) && name !in cache && Compile(env, nodes, cache, name).Ok?
    ensures ReadRule(env.rules[name]).Some? <==> !Dangles(Bare(env.rules[name]))
  {
    hide BaseOk, BuildTokens, Dangles, FramesOk, Tidy;
    var tokens, frames := env.rules[name], [Frame([], [])];
    FirstFrame(nodes);
    if !Dangles(Bare(tokens)) {
      StartIsTidy(env, nodes, cache, name);
      var start := Build(nodes + [List([])], cache[name := |nodes|], [|nodes|]);
      ReadingFollows(env, |nodes|, start, frames, tokens);
      var done := BuildTokens(env, start, tokens).value;
      OneFrame(done.nodes, done.stack, ReadTokens(frames, tokens).value);
    }
    if ReadRule(tokens).Some? {
      BareIsReadAlike(frames, tokens);
      ReadNeverDangles(frames, Bare(tokens));
    }
  }

  lemma FirstFrame(nodes: Graph)
    ensures FramesOk([Frame([], [])]) && Shape(nodes + [List([])], [|nodes|], [Frame([], [])])
  {
  }

  lemma OneFrame(nodes: Graph, stack: seq<nat>, frames: seq<Frame>)
    requires Shape(nodes, stack, frames) && |stack| == 1
    ensures |frames| == 1 && frames[0].choosing == []
  {
    NoFrames(nodes, stack, frames);
    NoFrames(nodes, stack[..|stack| - Depth(frames[|frames| - 1])], frames[..|frames| - 1]);
  }
}
