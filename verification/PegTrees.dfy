/**
 The tree of a rule's tokens, read without building matchers, and the proof that it is exactly the tree whose
 printed form the tokens are.
 */
module PegTrees {
  import opened Options
  import opened PegBuilder
  import opened PegRebuild

  /** A list that is being filled: its items, and the options so far of a choice that waits for its next one. */
  datatype Frame = Frame(items: seq<Item>, choosing: seq<Item>)

  function Put(f: Frame, i: Item): Frame {
    if f.choosing == [] then Frame(f.items + [i], []) else Frame(f.items + [Either(f.choosing + [i])], [])
  }

  function Wrap(op: char, i: Item): Item {
    if op == '?' then ZeroOrOne(i) else if op == '*' then ZeroOrMore(i) else OneOrMore(i)
  }

  /** One more token; None where no tree can go on. */
  function Step(frames: seq<Frame>, t: PegToken): (r: Option<seq<Frame>>)
    requires frames != []
    ensures r.Some? ==> r.value != []
  {
    var below, top := frames[..|frames| - 1], frames[|frames| - 1];
    var n := |top.items|;
    match t
    case Literal(text) => Some(below + [Put(top, Word(text))])
    case Reference(name) => Some(below + [Put(top, Rule(name))])
    case Regex => None
    case Operator(op) =>
      if op == '(' then Some(frames + [Frame([], [])])
      else if op == '!' then Some(frames)
      else if top.choosing != [] then None
      else if op == ')' then
        if below == [] then None else Some(below[..|below| - 1] + [Put(below[|below| - 1], Group(top.items))])
      else if n == 0 then None
      else if op in {'?', '*', '+'} then Some(below + [Frame(top.items[..n - 1] + [Wrap(op, top.items[n - 1])], [])])
      else if op == '/' then Some(below + [Frame(top.items[..n - 1], Opened(top.items[n - 1]))])
      else None
  }

  /** The options a `/` continues. */
  function Opened(i: Item): seq<Item> { if i.Either? then i.options else [i] }

  function ReadTokens(frames: seq<Frame>, tokens: seq<PegToken>): (r: Option<seq<Frame>>)
    requires frames != []
    ensures r.Some? ==> r.value != []
    decreases |tokens|
  {
    if tokens == [] then Some(frames)
    else
      var next := Step(frames, tokens[0]);
      if next.None? then None else ReadTokens(next.value, tokens[1..])
  }

  /** The items of a whole rule. */
  function ReadRule(tokens: seq<PegToken>): Option<seq<Item>> {
    var r := ReadTokens([Frame([], [])], tokens);
    if r.Some? && |r.value| == 1 && r.value[0].choosing == [] then Some(r.value[0].items) else None
  }

  /** The builder reads a `!` as nothing. */
  function Bare(tokens: seq<PegToken>): seq<PegToken> {
    if tokens == [] then []
    else if tokens[0] == Operator('!') then Bare(tokens[1..])
    else [tokens[0]] + Bare(tokens[1..])
  }

  // ---------------------------------------------------------------- what was read is what was printed

  predicate OptionsOk(options: seq<Item>) {
    options != [] ==> !options[0].Either? && AllPrintable(options) && forall k :: 1 <= k < |options| ==> IsAtom(options[k])
  }

  predicate FrameOk(f: Frame) { AllPrintable(f.items) && OptionsOk(f.choosing) }

  predicate FramesOk(frames: seq<Frame>) { forall k :: 0 <= k < |frames| ==> FrameOk(frames[k]) }

  function Shown(f: Frame): seq<PegToken> {
    PrintAll(f.items) + if f.choosing == [] then [] else Print(Either(f.choosing)) + [Operator('/')]
  }

  /** The tokens that lead to the frames. */
  function ShownAll(frames: seq<Frame>): seq<PegToken> {
    if frames == [] then []
    else if |frames| == 1 then Shown(frames[0])
    else ShownAll(frames[..|frames| - 1]) + [Operator('(')] + Shown(frames[|frames| - 1])
  }

  lemma {:induction false} PrintAllMore(items: seq<Item>, i: Item)
    ensures PrintAll(items + [i]) == PrintAll(items) + Print(i)
  {
    hide Print;
    if items == [] {
      assert [i][1..] == [];
    } else {
      PrintAllMore(items[1..], i);
      assert (items + [i])[1..] == items[1..] + [i];
    }
  }

  lemma {:induction false} PrintOthersMore(options: seq<Item>, i: Item)
    ensures PrintOthers(options + [i]) == PrintOthers(options) + [Operator('/')] + Print(i)
  {
    hide Print;
    if options == [] {
      assert [i][1..] == [];
    } else {
      PrintOthersMore(options[1..], i);
      assert (options + [i])[1..] == options[1..] + [i];
    }
  }

  lemma PrintEitherMore(options: seq<Item>, i: Item)
    requires options != []
    ensures Print(Either(options + [i])) == Print(Either(options)) + [Operator('/')] + Print(i)
  {
    hide PrintOthers;
    PrintOthersMore(options[1..], i);
    assert (options + [i])[1..] == options[1..] + [i];
  }

  lemma PutShows(f: Frame, i: Item)
    requires FrameOk(f) && Printable(i) && IsAtom(i)
    ensures FrameOk(Put(f, i)) && Shown(Put(f, i)) == Shown(f) + Print(i)
  {
    hide Print, PrintAll;
    if f.choosing == [] {
      PrintAllMore(f.items, i);
    } else {
      assert Printable(Either(f.choosing + [i]));
      PrintEitherMore(f.choosing, i);
      PrintAllMore(f.items, Either(f.choosing + [i]));
    }
  }

  /** The top frame is replaced. */
  lemma TopShows(below: seq<Frame>, top: Frame, g: Frame, more: seq<PegToken>)
    requires Shown(g) == Shown(top) + more
    ensures ShownAll(below + [g]) == ShownAll(below + [top]) + more
  {
    assert (below + [g])[..|below|] == below == (below + [top])[..|below|];
  }

  /** A postfix operator changes the last item of a list. */
  lemma WrapShows(f: Frame, op: char)
    requires FrameOk(f) && f.choosing == [] && f.items != [] && op in {'?', '*', '+'}
    ensures var n := |f.items| - 1;
            var g := Frame(f.items[..n] + [Wrap(op, f.items[n])], []);
            FrameOk(g) && Shown(g) == Shown(f) + [Operator(op)]
  {
    var n := |f.items| - 1;
    assert f.items == f.items[..n] + [f.items[n]];
    PrintAllMore(f.items[..n], f.items[n]);
    PrintAllMore(f.items[..n], Wrap(op, f.items[n]));
  }

  /** A `/` takes the last item of a list as a choice to go on with. */
  lemma OpenedShows(f: Frame)
    requires FrameOk(f) && f.choosing == [] && f.items != []
    ensures var n := |f.items| - 1;
            var g := Frame(f.items[..n], Opened(f.items[n]));
            FrameOk(g) && g.choosing != [] && Shown(g) == Shown(f) + [Operator('/')]
  {
    hide PrintAll;
    var n := |f.items| - 1;
    var last := f.items[n];
    assert f.items == f.items[..n] + [last];
    PrintAllMore(f.items[..n], last);
    assert Printable(last);
    if !last.Either? {
      OneOption(last);
    }
  }

  lemma OneOption(i: Item)
    ensures Print(Either([i])) == Print(i)
  {
    assert [i][1..] == [];
  }

  /** A step shows one token more, unless that is a `!`. */
  lemma StepShows(frames: seq<Frame>, t: PegToken)
    requires frames != [] && FramesOk(frames) && Step(frames, t).Some?
    ensures var next := Step(frames, t).value;
            FramesOk(next) && ShownAll(next) == ShownAll(frames) + if t == Operator('!') then [] else [t]
  {
    hide FrameOk, Shown, Put, Print, PrintAll, Opened;
    var below, top := frames[..|frames| - 1], frames[|frames| - 1];
    assert frames == below + [top];
    match t
    case Literal(text) => PutInTop(below, top, Word(text)); AtomShows(Word(text));
    case Reference(name) => PutInTop(below, top, Rule(name)); AtomShows(Rule(name));
    case Operator(op) =>
      if op == '(' {
        EntersBracket(frames);
      } else if op == ')' {
        LeavesBracket(below, top);
      } else if op in {'?', '*', '+'} {
        WrapShows(top, op);
        TopShows(below, top, Frame(top.items[..|top.items| - 1] + [Wrap(op, top.items[|top.items| - 1])], []), [t]);
      } else if op == '/' {
        OpenedShows(top);
        TopShows(below, top, Frame(top.items[..|top.items| - 1], Opened(top.items[|top.items| - 1])), [t]);
      }
    case Regex =>
  }

  lemma AtomShows(i: Item)
    requires i.Word? || i.Rule?
    ensures Print(i) == [if i.Word? then Literal(i.text) else Reference(i.name)]
  {
  }

  lemma PutInTop(below: seq<Frame>, top: Frame, i: Item)
    requires FramesOk(below + [top]) && Printable(i) && IsAtom(i)
    ensures FramesOk(below + [Put(top, i)]) && ShownAll(below + [Put(top, i)]) == ShownAll(below + [top]) + Print(i)
  {
    hide FrameOk, Shown, Put, Print, PrintAll;
    assert FrameOk((below + [top])[|below|]);
    assert forall k :: 0 <= k < |below| ==> (below + [top])[k] == below[k];
    PutShows(top, i);
    TopShows(below, top, Put(top, i), Print(i));
  }

  lemma EntersBracket(frames: seq<Frame>)
    requires frames != [] && FramesOk(frames)
    ensures FramesOk(frames + [Frame([], [])]) && ShownAll(frames + [Frame([], [])]) == ShownAll(frames) + [Operator('(')]
  {
    assert (frames + [Frame([], [])])[..|frames|] == frames;
  }

  lemma BracketShows(below: seq<Frame>, top: Frame)
    requires below != [] && top.choosing == []
    ensures ShownAll(below + [top]) + [Operator(')')] == ShownAll(below) + Print(Group(top.items))
  {
    hide PrintAll;
    assert (below + [top])[..|below|] == below;
  }

  lemma FramesBelow(below: seq<Frame>, top: Frame)
    requires FramesOk(below + [top])
    ensures FramesOk(below) && AllPrintable(top.items)
  {
    hide AllPrintable, OptionsOk;
    assert FrameOk((below + [top])[|below|]);
    forall k | 0 <= k < |below|
      ensures FrameOk(below[k])
    {
      assert FrameOk((below + [top])[k]);
    }
  }

  lemma LeavesBracket(below: seq<Frame>, top: Frame)
    requires FramesOk(below + [top]) && below != [] && top.choosing == []
    ensures var next := below[..|below| - 1] + [Put(below[|below| - 1], Group(top.items))];
            FramesOk(next) && ShownAll(next) == ShownAll(below + [top]) + [Operator(')')]
  {
    hide Put, Print, PrintAll, ShownAll, Shown, FramesOk, AllPrintable;
    var rest, outer := below[..|below| - 1], below[|below| - 1];
    assert below == rest + [outer];
    FramesBelow(below, top);
    PutInTop(rest, outer, Group(top.items));
    BracketShows(below, top);
  }

  lemma {:induction false} ReadingShows(frames: seq<Frame>, tokens: seq<PegToken>)
    requires frames != [] && FramesOk(frames) && ReadTokens(frames, tokens).Some?
    ensures var done := ReadTokens(frames, tokens).value;
            FramesOk(done) && ShownAll(done) == ShownAll(frames) + Bare(tokens)
    decreases |tokens|
  {
    hide FramesOk, ShownAll, Step;
    if tokens != [] {
      StepShows(frames, tokens[0]);
      ReadingShows(Step(frames, tokens[0]).value, tokens[1..]);
    }
  }

  /** What is read from tokens prints as the tokens without any `!`. */
  lemma ReadRuleIsPrinted(tokens: seq<PegToken>)
    requires ReadRule(tokens).Some?
    ensures AllPrintable(ReadRule(tokens).value) && PrintAll(ReadRule(tokens).value) == Bare(tokens)
  {
    assert FramesOk([Frame([], [])]) && ShownAll([Frame([], [])]) == [];
    ReadingShows([Frame([], [])], tokens);
    assert [] + Bare(tokens) == Bare(tokens);
    var done := ReadTokens([Frame([], [])], tokens).value;
    assert FrameOk(done[0]) && ShownAll(done) == Shown(done[0]) == PrintAll(done[0].items) + [];
  }

  // ---------------------------------------------------------------- what was printed is read

  lemma ReadStep(frames: seq<Frame>, t: PegToken, rest: seq<PegToken>)
    requires frames != [] && Step(frames, t).Some?
    ensures ReadTokens(frames, [t] + rest) == ReadTokens(Step(frames, t).value, rest)
  {
    assert ([t] + rest)[1..] == rest;
  }

  /** Reading a printed item, whatever follows, puts the item where it belongs. */
  lemma {:induction false} ItemIsRead(below: seq<Frame>, top: Frame, i: Item, rest: seq<PegToken>)
    requires Printable(i) && (top.choosing == [] || IsAtom(i))
    ensures ReadTokens(below + [top], Print(i) + rest) == ReadTokens(below + [Put(top, i)], rest)
    decreases i, 0
  {
    hide Step, ReadTokens, PrintAll, PrintOthers;
    match i
    case Word(text) => AtomIsRead(below, top, i, rest);
    case Rule(name) => AtomIsRead(below, top, i, rest);
    case Group(items) =>
      var frames := below + [top];
      EnterStep(below, top, items);
      var tokens := PrintAll(items) + ([Operator(')')] + rest);
      assert Print(i) + rest == [Operator('(')] + tokens;
      ReadStep(frames, Operator('('), tokens);
      ItemsAreRead(frames, Frame([], []), items, [Operator(')')] + rest);
      assert [] + items == items;
      ReadStep(frames + [Frame(items, [])], Operator(')'), rest);
    case ZeroOrOne(j) => PostfixIsRead(below, top, j, '?', rest);
    case ZeroOrMore(j) => PostfixIsRead(below, top, j, '*', rest);
    case OneOrMore(j) => PostfixIsRead(below, top, j, '+', rest);
    case Either(options) =>
      var tokens := PrintOthers(options[1..]) + rest;
      assert Print(i) + rest == Print(options[0]) + tokens;
      ItemIsRead(below, top, options[0], tokens);
      OthersAreRead(below, top, options[0], [options[0]], options[1..], rest);
      assert [options[0]] + options[1..] == options;
  }

  lemma AtomIsRead(below: seq<Frame>, top: Frame, i: Item, rest: seq<PegToken>)
    requires i.Word? || i.Rule?
    ensures ReadTokens(below + [top], Print(i) + rest) == ReadTokens(below + [Put(top, i)], rest)
  {
    hide ReadTokens;
    assert (below + [top])[..|below|] == below;
    ReadStep(below + [top], Print(i)[0], rest);
  }

  lemma EnterStep(below: seq<Frame>, top: Frame, items: seq<Item>)
    ensures Step(below + [top], Operator('(')) == Some(below + [top] + [Frame([], [])])
    ensures Step(below + [top] + [Frame(items, [])], Operator(')')) == Some(below + [Put(top, Group(items))])
  {
    assert (below + [top] + [Frame(items, [])])[..|below| + 1] == below + [top];
    assert (below + [top])[..|below|] == below;
  }

  lemma {:induction false} ItemsAreRead(below: seq<Frame>, top: Frame, items: seq<Item>, rest: seq<PegToken>)
    requires AllPrintable(items) && top.choosing == []
    ensures ReadTokens(below + [top], PrintAll(items) + rest) == ReadTokens(below + [Frame(top.items + items, [])], rest)
    decreases items, 1
  {
    hide Step, ReadTokens, Print;
    if items == [] {
      assert top.items + items == top.items && PrintAll(items) + rest == rest;
    } else {
      assert PrintAll(items) + rest == Print(items[0]) + (PrintAll(items[1..]) + rest);
      ItemIsRead(below, top, items[0], PrintAll(items[1..]) + rest);
      ItemsAreRead(below, Put(top, items[0]), items[1..], rest);
      assert top.items + [items[0]] + items[1..] == top.items + items;
    }
  }

  lemma {:induction false} PostfixIsRead(below: seq<Frame>, top: Frame, j: Item, op: char, rest: seq<PegToken>)
    requires Printable(j) && top.choosing == [] && op in {'?', '*', '+'}
    ensures ReadTokens(below + [top], Print(j) + [Operator(op)] + rest) == ReadTokens(below + [Put(top, Wrap(op, j))], rest)
    decreases j, 1
  {
    hide ReadTokens, Print, Printable;
    assert Print(j) + [Operator(op)] + rest == Print(j) + ([Operator(op)] + rest);
    ItemIsRead(below, top, j, [Operator(op)] + rest);
    var f := Put(top, j);
    assert (below + [f])[..|below|] == below && f.items[..|top.items|] == top.items;
    ReadStep(below + [f], Operator(op), rest);
  }

  /** The last item after some options have been read. */
  function Choosable(options: seq<Item>): Item
    requires options != []
  {
    if |options| == 1 then options[0] else Either(options)
  }

  lemma {:induction false} OthersAreRead(below: seq<Frame>, top: Frame, first: Item, options: seq<Item>, todo: seq<Item>,
                                         rest: seq<PegToken>)
    requires top.choosing == [] && options != [] && options[0] == first && !first.Either?
    requires AllPrintable(todo) && forall k :: 0 <= k < |todo| ==> IsAtom(todo[k])
    ensures ReadTokens(below + [Put(top, Choosable(options))], PrintOthers(todo) + rest)
         == ReadTokens(below + [Put(top, Choosable(options + todo))], rest)
    decreases todo, 1
  {
    hide Step, ReadTokens, Print;
    if todo == [] {
      assert options + todo == options && PrintOthers(todo) + rest == rest;
    } else {
      var tokens := PrintOthers(todo[1..]) + rest;
      assert PrintOthers(todo) + rest == [Operator('/')] + (Print(todo[0]) + tokens);
      OpenStep(below, top, options);
      ReadStep(below + [Put(top, Choosable(options))], Operator('/'), Print(todo[0]) + tokens);
      ItemIsRead(below, Frame(top.items, options), todo[0], tokens);
      OthersAreRead(below, top, first, options + [todo[0]], todo[1..], rest);
      assert options + [todo[0]] + todo[1..] == options + todo;
    }
  }

  lemma OpenStep(below: seq<Frame>, top: Frame, options: seq<Item>)
    requires top.choosing == [] && options != [] && !options[0].Either?
    ensures Step(below + [Put(top, Choosable(options))], Operator('/')) == Some(below + [Frame(top.items, options)])
  {
    var f := Put(top, Choosable(options));
    assert (below + [f])[..|below|] == below && f.items[..|top.items|] == top.items;
    assert |options| == 1 ==> options == [options[0]];
  }

  lemma {:induction false} BareIsReadAlike(frames: seq<Frame>, tokens: seq<PegToken>)
    requires frames != []
    ensures ReadTokens(frames, Bare(tokens)) == ReadTokens(frames, tokens)
    decreases |tokens|
  {
    if tokens != [] {
      var next := Step(frames, tokens[0]);
      if next.Some? {
        BareIsReadAlike(next.value, tokens[1..]);
      }
      assert tokens[0] != Operator('!') ==> Bare(tokens)[0] == tokens[0] && Bare(tokens)[1..] == Bare(tokens[1..]);
    }
  }

  /** A rule reads as a tree exactly when the tree can be printed and its printed form is the rule without `!`; so
      no tokens have two trees. */
  lemma ReadRuleExactly(tokens: seq<PegToken>, items: seq<Item>)
    ensures ReadRule(tokens) == Some(items) <==> AllPrintable(items) && PrintAll(items) == Bare(tokens)
  {
    hide ReadTokens, PrintAll, AllPrintable;
    if ReadRule(tokens).Some? {
      ReadRuleIsPrinted(tokens);
    }
    if AllPrintable(items) && PrintAll(items) == Bare(tokens) {
      ItemsAreRead([], Frame([], []), items, []);
      assert [] + items == items && [] + [Frame([], [])] == [Frame([], [])] && [] + [Frame(items, [])] == [Frame(items, [])];
      assert PrintAll(items) + [] == Bare(tokens);
      BareIsReadAlike([Frame([], [])], tokens);
      NothingIsRead([Frame(items, [])]);
    }
  }

  lemma NothingIsRead(frames: seq<Frame>)
    requires frames != []
    ensures ReadTokens(frames, []) == Some(frames)
  {
  }

  /** A `/` right before a `)`. */
  predicate Dangles(tokens: seq<PegToken>) {
    exists k :: 0 <= k < |tokens| - 1 && IsDangling(tokens, k)
  }

  predicate IsDangling(tokens: seq<PegToken>, k: nat)
    requires k < |tokens| - 1
  {
    tokens[k] == Operator('/') && tokens[k + 1] == Operator(')')
  }

  lemma {:induction false} ReadNeverDangles(frames: seq<Frame>, tokens: seq<PegToken>)
    requires frames != [] && FramesOk(frames) && ReadTokens(frames, tokens).Some?
    ensures !Dangles(tokens)
    decreases |tokens|
  {
    hide FrameOk, Put;
    if tokens != [] {
      StepShows(frames, tokens[0]);
      var next := Step(frames, tokens[0]).value;
      ReadNeverDangles(next, tokens[1..]);
      if |tokens| > 1 {
        SlashOpens(frames, tokens[0]);
        assert Step(next, tokens[1]).Some?;
      }
      forall k | 0 <= k < |tokens| - 1
        ensures !IsDangling(tokens, k)
      {
        assert k > 0 ==> !IsDangling(tokens[1..], k - 1);
      }
    }
  }

  lemma SlashOpens(frames: seq<Frame>, t: PegToken)
    requires frames != [] && FramesOk(frames) && Step(frames, t).Some?
    ensures var next := Step(frames, t).value; t == Operator('/') ==> next[|next| - 1].choosing != []
  {
    assert FrameOk(frames[|frames| - 1]);
    if t == Operator('/') {
      OpenedShows(frames[|frames| - 1]);
    }
  }

  // ---------------------------------------------------------------- token by token

  lemma {:induction false} ReadOn(frames: seq<Frame>, first: seq<PegToken>, rest: seq<PegToken>)
    requires frames != []
    ensures ReadTokens(frames, first + rest)
         == match ReadTokens(frames, first) case None => None case Some(next) => ReadTokens(next, rest)
    decreases |first|
  {
    hide Step;
    if first == [] {
      assert first + rest == rest;
    } else {
      assert (first + rest)[0] == first[0] && (first + rest)[1..] == first[1..] + rest;
      var next := Step(frames, first[0]);
      if next.Some? {
        ReadOn(next.value, first[1..], rest);
      }
    }
  }

  /** What is read on top of other frames leaves these alone. */
  lemma {:induction false} ReadAbove(below: seq<Frame>, frames: seq<Frame>, tokens: seq<PegToken>)
    requires frames != [] && ReadTokens(frames, tokens).Some?
    ensures ReadTokens(below + frames, tokens) == Some(below + ReadTokens(frames, tokens).value)
    decreases |tokens|
  {
    hide Step;
    if tokens != [] {
      StepAbove(below, frames, tokens[0]);
      ReadAbove(below, Step(frames, tokens[0]).value, tokens[1..]);
    }
  }

  lemma StepAbove(below: seq<Frame>, frames: seq<Frame>, t: PegToken)
    requires frames != [] && Step(frames, t).Some?
    ensures Step(below + frames, t) == Some(below + Step(frames, t).value)
  {
    var n := |frames| - 1;
    assert (below + frames)[..|below + frames| - 1] == below + frames[..n];
    assert (below + frames)[|below + frames| - 1] == frames[n];
    var top, under := frames[n], frames[..n];
    assert forall f: Frame :: below + under + [f] == below + (under + [f]);
    if t == Operator(')') {
      assert (below + under)[..|below + under| - 1] == below + under[..n - 1];
      assert (below + under)[|below + under| - 1] == under[n - 1];
      var put := Put(under[n - 1], Group(top.items));
      assert below + under[..n - 1] + [put] == below + (under[..n - 1] + [put]);
    } else if t == Operator('(') {
      assert below + frames + [Frame([], [])] == below + (frames + [Frame([], [])]);
    }
  }

  lemma RuleFrames(tokens: seq<PegToken>)
    requires ReadRule(tokens).Some?
    ensures ReadTokens([Frame([], [])], tokens) == Some([Frame(ReadRule(tokens).value, [])])
  {
    var r := ReadTokens([Frame([], [])], tokens);
    assert r.value == [r.value[0]];
  }

  lemma OneToken(frames: seq<Frame>, t: PegToken)
    requires frames != []
    ensures ReadTokens(frames, [t]) == Step(frames, t)
  {
    hide Step;
    var next := Step(frames, t);
    assert [t][1..] == [];
    if next.Some? {
      NothingIsRead(next.value);
    }
  }

  /** An item that is put behind others: after a `/` it becomes one more option of the last item. */
  function PutBehind(items: seq<Item>, i: Item, slash: bool): seq<Item>
    requires slash ==> items != []
  {
    if !slash then items + [i]
    else
      var last := items[|items| - 1];
      items[..|items| - 1] + [Either((if last.Either? then last.options else [last]) + [i])]
  }

  lemma PutIsBehind(items: seq<Item>, i: Item, slash: bool)
    requires slash ==> items != [] && Printable(items[|items| - 1])
    ensures Put(Frame(if slash then items[..|items| - 1] else items, if slash then Opened(items[|items| - 1]) else []), i)
         == Frame(PutBehind(items, i, slash), [])
  {
  }

  /** How a rule reads, token by token: a word, a reference or a bracket is one more item, or one more option of the
      last item after a `/`; `?`, `*` and `+` take the last item alone; a `!` is passed over. */
  lemma TokensReadAs(tokens: seq<PegToken>, items: seq<Item>, text: string, slash: bool)
    requires ReadRule(tokens) == Some(items) && (slash ==> items != [])
    ensures ReadRule([]) == Some([])
    ensures var front := tokens + if slash then [Operator('/')] else [];
            && ReadRule(front + [Literal(text)]) == Some(PutBehind(items, Word(text), slash))
            && ReadRule(front + [Reference(text)]) == Some(PutBehind(items, Rule(text), slash))
    ensures items != [] ==>
              var before, last := items[..|items| - 1], items[|items| - 1];
              && ReadRule(tokens + [Operator('?')]) == Some(before + [ZeroOrOne(last)])
              && ReadRule(tokens + [Operator('*')]) == Some(before + [ZeroOrMore(last)])
              && ReadRule(tokens + [Operator('+')]) == Some(before + [OneOrMore(last)])
    ensures ReadRule(tokens + [Operator('!')]) == Some(items)
  {
    hide Step, ReadTokens;
    var start, read := [Frame([], [])], [Frame(items, [])];
    RuleFrames(tokens);
    NothingIsRead(start);
    var front := tokens + if slash then [Operator('/')] else [];
    var choosing := if slash then Opened(items[|items| - 1]) else [];
    var open := [Frame(if slash then items[..|items| - 1] else items, choosing)];
    assert ReadTokens(start, front) == Some(open) by {
      ReadOn(start, tokens, [Operator('/')]);
      OneToken(read, Operator('/'));
      LastSteps(items);
      assert tokens + [] == tokens;
    }
    forall t: PegToken
      ensures ReadTokens(start, front + [t]) == Step(open, t)
      ensures ReadTokens(start, tokens + [t]) == Step(read, t)
    {
      ReadOn(start, front, [t]);
      ReadOn(start, tokens, [t]);
      OneToken(open, t);
      OneToken(read, t);
    }
    LastSteps(items);
    PutSteps(open[0], text);
    ReadRuleIsPrinted(tokens);
    PutIsBehind(items, Word(text), slash);
    PutIsBehind(items, Rule(text), slash);
  }

  lemma LastSteps(items: seq<Item>)
    ensures Step([Frame(items, [])], Operator('!')) == Some([Frame(items, [])])
    ensures items != [] ==>
              var before, last := items[..|items| - 1], items[|items| - 1];
              && Step([Frame(items, [])], Operator('/')) == Some([Frame(before, Opened(last))])
              && Step([Frame(items, [])], Operator('?')) == Some([Frame(before + [ZeroOrOne(last)], [])])
              && Step([Frame(items, [])], Operator('*')) == Some([Frame(before + [ZeroOrMore(last)], [])])
              && Step([Frame(items, [])], Operator('+')) == Some([Frame(before + [OneOrMore(last)], [])])
  {
    var f := Frame(items, []);
    Alone(f, f);
    if items != [] {
      var before, last := items[..|items| - 1], items[|items| - 1];
      Alone(f, Frame(before, Opened(last)));
      Alone(f, Frame(before + [ZeroOrOne(last)], []));
      Alone(f, Frame(before + [ZeroOrMore(last)], []));
      Alone(f, Frame(before + [OneOrMore(last)], []));
    }
  }

  /** The only frame is replaced. */
  lemma Alone(f: Frame, g: Frame)
    ensures [f][..|[f]| - 1] + [g] == [g]
  {
  }

  lemma PutSteps(f: Frame, text: string)
    ensures Step([f], Literal(text)) == Some([Put(f, Word(text))])
    ensures Step([f], Reference(text)) == Some([Put(f, Rule(text))])
  {
    Alone(f, Put(f, Word(text)));
    Alone(f, Put(f, Rule(text)));
  }

  /** A rule in brackets is one item. */
  lemma BracketReadsAs(tokens: seq<PegToken>, items: seq<Item>, inner: seq<PegToken>, group: seq<Item>, slash: bool)
    requires ReadRule(tokens) == Some(items) && (slash ==> items != []) && ReadRule(inner) == Some(group)
    ensures var front := tokens + if slash then [Operator('/')] else [];
            ReadRule(front + ([Operator('(')] + inner + [Operator(')')])) == Some(PutBehind(items, Group(group), slash))
  {
    hide Step, ReadTokens;
    var start, read := [Frame([], [])], [Frame(items, [])];
    RuleFrames(tokens);
    RuleFrames(inner);
    var front := tokens + if slash then [Operator('/')] else [];
    var open := [Frame(if slash then items[..|items| - 1] else items, if slash then Opened(items[|items| - 1]) else [])];
    assert ReadTokens(start, front) == Some(open) by {
      ReadOn(start, tokens, [Operator('/')]);
      OneToken(read, Operator('/'));
      LastSteps(items);
      assert tokens + [] == tokens;
    }
    var close := [Operator(')')];
    assert [Operator('(')] + inner + close == [Operator('(')] + (inner + close);
    ReadOn(start, front, [Operator('(')] + (inner + close));
    ReadOn(open, [Operator('(')], inner + close);
    OneToken(open, Operator('('));
    EnterStep([], open[0], group);
    assert [] + open == open;
    ReadAbove(open, start, inner);
    ReadOn(open + start, inner, close);
    OneToken(open + [Frame(group, [])], Operator(')'));
    ReadRuleIsPrinted(tokens);
    PutIsBehind(items, Group(group), slash);
    Alone(open[0], Put(open[0], Group(group)));
  }
}
