/**
 The recursive matcher: it moves a token index in place, tries parts on copies of the state and takes a copy's
 index over when the part matched.
 */
module PegMatchState {
  import opened Options
  import opened PegMatcher
  import opened PegAgreement
  import opened PegReach
  import opened PegResults
  import opened PegTried

  /** The furthest token that any state reached; all copies of a state share it. */
  class TokenMark {
    var index: nat
    constructor () ensures index == 0 { index := 0; }
  }

  class MatchState {
    const tokens: seq<Token>
    const mark: TokenMark
    var tokenIndex: nat

    constructor (tokens: seq<Token>)
      ensures this.tokens == tokens && tokenIndex == 0 && fresh(mark) && mark.index == 0
    {
      this.tokens := tokens;
      tokenIndex := 0;
      mark := new TokenMark();
    }

    constructor Copy(state: MatchState)
      ensures tokens == state.tokens && tokenIndex == state.tokenIndex && mark == state.mark
    {
      tokens, tokenIndex, mark := state.tokens, state.tokenIndex, state.mark;
    }

    ghost predicate Valid()
      reads this, mark
    {
      tokenIndex <= mark.index <= |tokens|
    }

    method UpdateMaxTokenIndex()
      requires mark.index <= |tokens| && tokenIndex <= |tokens|
      modifies mark
      ensures Valid() && mark.index == Max(old(mark.index), tokenIndex)
    {
      if tokenIndex > mark.index {
        mark.index := tokenIndex;
      }
    }
  }

  function AsOutcome(r: Option<ParseResult>, to: nat): Outcome {
    if r.Some? then Reads(r.value, to) else Fails
  }

  method MatchParseResult(g: Graph, ghost c: Certificate, id: nat, state: MatchState) returns (r: Option<ParseResult>)
    requires WellFormed(g, c) && id < |g| && state.Valid()
    modifies state, state.mark
    ensures state.Valid()
    ensures state.mark.index == Max(old(state.mark.index), Reach(g, c, state.tokens, id, old(state.tokenIndex)))
    ensures AsOutcome(r, state.tokenIndex) == Run(g, c, state.tokens, id, old(state.tokenIndex))
    ensures r.None? ==> state.tokenIndex == old(state.tokenIndex) && FailsAt(g, state.tokens, id, old(state.tokenIndex))
    ensures r.Some? ==> IsTree(g, state.tokens, id, old(state.tokenIndex), r.value, state.tokenIndex)
    decreases |state.tokens| - state.tokenIndex, c.rank[id], 1, 0
  {
    hide IsTree, FailsAt;
    RunIsTree(g, c, state.tokens, id, state.tokenIndex);
    assert NodeOk(g, c, id);
    match g[id]
    case Terminal(accepts) => r := MatchTerminal(accepts, state);
    case List(ids) => r := MatchList(g, c, id, state);
    case Choice(ids) => r := MatchChoice(g, c, id, state);
    case Optional(child) => r := MatchOptional(g, c, id, state);
    case Repeat(child) => r := MatchRepeat(g, c, id, state);
  }

  lemma TreesAreRead(g: Graph, tokens: seq<Token>, id: nat)
    ensures forall r, to :: Parses(g, tokens, id, 0, Reads(r, to)) <==> IsTree(g, tokens, id, 0, r, to)
  {
    hide Parses, IsTree;
    forall r, to: nat
      ensures Parses(g, tokens, id, 0, Reads(r, to)) <==> IsTree(g, tokens, id, 0, r, to)
    {
      ReadsExactly(g, tokens, id, 0, r, to);
    }
  }

  lemma RunIsTree(g: Graph, c: Certificate, tokens: seq<Token>, id: nat, from: nat)
    requires WellFormed(g, c) && id < |g| && from <= |tokens|
    ensures var out := Run(g, c, tokens, id, from);
            if out.Reads? then IsTree(g, tokens, id, from, out.result, out.to) else FailsAt(g, tokens, id, from)
  {
    hide Run, Parses, IsTree;
    var out := Run(g, c, tokens, id, from);
    RunIsPeg(g, c, tokens, id, from);
    if out.Reads? {
      ReadsExactly(g, tokens, id, from, out.result, out.to);
    }
  }

  method MatchTerminal(accepts: string -> bool, state: MatchState) returns (r: Option<ParseResult>)
    requires state.Valid()
    modifies state, state.mark
    ensures state.Valid() && state.mark.index == Max(old(state.mark.index), state.tokenIndex)
    ensures var from := old(state.tokenIndex);
            if from < |state.tokens| && accepts(state.tokens[from].text)
            then r == Some(TokenResult(state.tokens[from])) && state.tokenIndex == from + 1
            else r == None && state.tokenIndex == from
  {
    if state.tokenIndex >= |state.tokens| {
      return None;
    }
    var token := state.tokens[state.tokenIndex];
    if !accepts(token.text) {
      return None;
    }
    state.tokenIndex := state.tokenIndex + 1;
    state.UpdateMaxTokenIndex();
    r := Some(TokenResult(token));
  }

  /** Results already collected, in front of what the remaining parts give. */
  function Prepend(results: seq<ParseResult>, rest: Sequence): Sequence {
    if rest.Whole? then Whole(results + rest.results, rest.to) else Broken
  }

  lemma PrependStep(results: seq<ParseResult>, o: Outcome, rest: Sequence)
    requires o.Reads?
    ensures Prepend(results, Joined(o, rest)) == Prepend(results + [o.result], rest)
  {
  }

  lemma PrependNothing(s: Sequence)
    ensures Prepend([], s) == s
  {
  }

  lemma ListRuns(g: Graph, c: Certificate, tokens: seq<Token>, id: nat, from: nat)
    requires WellFormed(g, c) && id < |g| && g[id].List? && from <= |tokens|
    ensures Run(g, c, tokens, id, from) == AsList(RunAll(g, c, tokens, id, 0, from, from), OffsetAt(tokens, from))
    ensures Reach(g, c, tokens, id, from) == ReachAll(g, c, tokens, id, 0, from, from)
  {
  }

  lemma RunAllStep(g: Graph, c: Certificate, tokens: seq<Token>, id: nat, i: nat, began: nat, from: nat)
    requires WellFormed(g, c) && id < |g| && g[id].List? && i <= |g[id].children|
    requires began <= from <= |tokens| && (from == began ==> AllNullable(c, g[id].children, i))
    ensures var ids, all := g[id].children, RunAll(g, c, tokens, id, i, began, from);
            && (i == |ids| ==> all == Whole([], from) && ReachAll(g, c, tokens, id, i, began, from) == from)
            && (i < |ids| ==>
                  && ids[i] < |g| && (from == began ==> Below(g, c, ids[i], id))
                  && var o := Run(g, c, tokens, ids[i], from);
                     && var r := Reach(g, c, tokens, ids[i], from);
                     && (o.Fails? ==> all == Broken && ReachAll(g, c, tokens, id, i, began, from) == r)
                     && (o.Reads? ==> (o.to == began ==> AllNullable(c, ids, i + 1))
                                      && all == Joined(o, RunAll(g, c, tokens, id, i + 1, began, o.to))
                                      && ReachAll(g, c, tokens, id, i, began, from)
                                         == Max(r, ReachAll(g, c, tokens, id, i + 1, began, o.to))))
  {
    if i < |g[id].children| {
      assert NodeOk(g, c, id);
    }
  }

  method MatchList(g: Graph, ghost c: Certificate, id: nat, state: MatchState) returns (r: Option<ParseResult>)
    requires WellFormed(g, c) && id < |g| && g[id].List? && state.Valid()
    modifies state, state.mark
    ensures state.Valid()
    ensures state.mark.index == Max(old(state.mark.index), Reach(g, c, state.tokens, id, old(state.tokenIndex)))
    ensures AsOutcome(r, state.tokenIndex) == Run(g, c, state.tokens, id, old(state.tokenIndex))
    ensures r.None? ==> state.tokenIndex == old(state.tokenIndex)
    decreases |state.tokens| - state.tokenIndex, c.rank[id], 0, 0
  {
    hide Prepend, Joined, OffsetAt, Run, RunAll, Reach, ReachAll, NodeOk, WellFormed;
    var listState := new MatchState.Copy(state);
    var results := [];
    var startOffset := OffsetAt(state.tokens, state.tokenIndex);
    ghost var from := state.tokenIndex;
    ghost var all := RunAll(g, c, state.tokens, id, 0, from, from);
    ListRuns(g, c, state.tokens, id, from);
    PrependNothing(all);
    ghost var furthest := Max(state.mark.index, ReachAll(g, c, state.tokens, id, 0, from, from));
    for i := 0 to |g[id].children|
      invariant state.tokenIndex == from <= listState.tokenIndex && listState.Valid()
      invariant listState.tokenIndex == from ==> AllNullable(c, g[id].children, i)
      invariant Max(state.mark.index, ReachAll(g, c, state.tokens, id, i, from, listState.tokenIndex)) == furthest
      invariant all == Prepend(results, RunAll(g, c, state.tokens, id, i, from, listState.tokenIndex))
    {
      RunAllStep(g, c, state.tokens, id, i, from, listState.tokenIndex);
      ghost var o := Run(g, c, state.tokens, g[id].children[i], listState.tokenIndex);
      ListStep(all, results, o, if o.Reads? then RunAll(g, c, state.tokens, id, i + 1, from, o.to) else Broken);
      var child := MatchParseResult(g, c, g[id].children[i], listState);
      if child.None? {
        return None;
      }
      results := results + [child.value];
    }
    RunAllStep(g, c, state.tokens, id, |g[id].children|, from, listState.tokenIndex);
    PrependEnd(results, listState.tokenIndex);
    state.tokenIndex := listState.tokenIndex;
    r := Some(ListResult(results, startOffset));
  }

  lemma ListStep(all: Sequence, results: seq<ParseResult>, o: Outcome, rest: Sequence)
    requires all == Prepend(results, if o.Fails? then Broken else Joined(o, rest))
    ensures if o.Fails? then all == Broken else all == Prepend(results + [o.result], rest)
  {
  }

  lemma PrependEnd(results: seq<ParseResult>, to: nat)
    ensures Prepend(results, Whole([], to)) == Whole(results, to)
  {
  }

  method MatchChoice(g: Graph, ghost c: Certificate, id: nat, state: MatchState) returns (r: Option<ParseResult>)
    requires WellFormed(g, c) && id < |g| && g[id].Choice? && state.Valid()
    modifies state, state.mark
    ensures state.Valid()
    ensures state.mark.index == Max(old(state.mark.index), Reach(g, c, state.tokens, id, old(state.tokenIndex)))
    ensures AsOutcome(r, state.tokenIndex) == Run(g, c, state.tokens, id, old(state.tokenIndex))
    ensures r.None? ==> state.tokenIndex == old(state.tokenIndex)
    ensures r.Some? ==>
              && r.value.ChoiceResult? && r.value.selected < |g[id].children|
              && IsTree(g, state.tokens, g[id].children[r.value.selected], old(state.tokenIndex), r.value.result, state.tokenIndex)
              && forall j :: 0 <= j < r.value.selected ==> FailsAt(g, state.tokens, g[id].children[j], old(state.tokenIndex))
    decreases |state.tokens| - state.tokenIndex, c.rank[id], 0, 0
  {
    hide OffsetAt, IsTree, FailsAt;
    var startOffset := OffsetAt(state.tokens, state.tokenIndex);
    ghost var from := state.tokenIndex;
    for i := 0 to |g[id].children|
      invariant state.tokenIndex == from && state.Valid()
      invariant forall j :: 0 <= j < i ==> FailsAt(g, state.tokens, g[id].children[j], from)
      invariant Max(state.mark.index, ReachFirst(g, c, state.tokens, id, i, from))
             == Max(old(state.mark.index), Reach(g, c, state.tokens, id, from))
      invariant Run(g, c, state.tokens, id, from) == RunFirst(g, c, state.tokens, id, i, from)
    {
      assert NodeOk(g, c, id);
      var choiceState := new MatchState.Copy(state);
      var child := MatchParseResult(g, c, g[id].children[i], choiceState);
      if child.Some? {
        state.tokenIndex := choiceState.tokenIndex;
        return Some(ChoiceResult(child.value, i, startOffset));
      }
    }
    r := None;
  }

  method MatchOptional(g: Graph, ghost c: Certificate, id: nat, state: MatchState) returns (r: Option<ParseResult>)
    requires WellFormed(g, c) && id < |g| && g[id].Optional? && state.Valid()
    modifies state, state.mark
    ensures state.Valid()
    ensures state.mark.index == Max(old(state.mark.index), Reach(g, c, state.tokens, id, old(state.tokenIndex)))
    ensures AsOutcome(r, state.tokenIndex) == Run(g, c, state.tokens, id, old(state.tokenIndex))
    ensures r.None? ==> state.tokenIndex == old(state.tokenIndex)
    decreases |state.tokens| - state.tokenIndex, c.rank[id], 0, 0
  {
    hide OffsetAt;
    assert NodeOk(g, c, id);
    var childState := new MatchState.Copy(state);
    var startOffset := OffsetAt(state.tokens, state.tokenIndex);
    var child := MatchParseResult(g, c, g[id].child, childState);
    if child.None? {
      return Some(NoResult);
    }
    state.tokenIndex := childState.tokenIndex;
    r := Some(OptionalResult(child.value, startOffset));
  }

  method MatchRepeat(g: Graph, ghost c: Certificate, id: nat, state: MatchState) returns (r: Option<ParseResult>)
    requires WellFormed(g, c) && id < |g| && g[id].Repeat? && state.Valid()
    modifies state, state.mark
    ensures state.Valid()
    ensures state.mark.index == Max(old(state.mark.index), Reach(g, c, state.tokens, id, old(state.tokenIndex)))
    ensures AsOutcome(r, state.tokenIndex) == Run(g, c, state.tokens, id, old(state.tokenIndex))
    ensures r.None? ==> state.tokenIndex == old(state.tokenIndex)
    decreases |state.tokens| - state.tokenIndex, c.rank[id], 0, 0
  {
    hide OffsetAt, Prepend, Joined;
    assert NodeOk(g, c, id);
    var repeatState := new MatchState.Copy(state);
    var startOffset := OffsetAt(state.tokens, state.tokenIndex);
    ghost var from := state.tokenIndex;
    var child := g[id].child;
    var first := MatchParseResult(g, c, child, repeatState);
    if first.None? {
      return None;
    }
    var results := [first.value];
    ghost var more := RunMore(g, c, state.tokens, child, repeatState.tokenIndex);
    ghost var all := Prepend(results, more);
    FirstAndMore(first.value, more);
    ghost var furthest := Max(state.mark.index, ReachMore(g, c, state.tokens, child, repeatState.tokenIndex));
    while true
      invariant repeatState.Valid() && from < repeatState.tokenIndex
      invariant Max(state.mark.index, ReachMore(g, c, state.tokens, child, repeatState.tokenIndex)) == furthest
      invariant all == Prepend(results, RunMore(g, c, state.tokens, child, repeatState.tokenIndex))
      decreases |state.tokens| - repeatState.tokenIndex
    {
      state.tokenIndex := repeatState.tokenIndex;
      if repeatState.tokenIndex >= |state.tokens| {
        break;
      }
      ghost var o := Run(g, c, state.tokens, child, repeatState.tokenIndex);
      var next := MatchParseResult(g, c, child, repeatState);
      if next.None? {
        break;
      }
      PrependStep(results, o, RunMore(g, c, state.tokens, child, o.to));
      results := results + [next.value];
    }
    PrependEnd(results, state.tokenIndex);
    r := Some(RepeatResult(results, startOffset));
  }

  lemma FirstAndMore(first: ParseResult, more: Sequence)
    requires more.Whole?
    ensures Prepend([first], more) == Whole([first] + more.results, more.to)
  {
  }

  /** A statement is accepted when the root matcher reads all tokens.  The answer is the one that the parsing
      expression rules give, and the accepted result holds all tokens in order.  A rejected statement names the
      first token that was not read on any way, and then no statement that begins with the same tokens up to that
      one is accepted; but when some way read all tokens it names the last one, and says nothing about statements
      that go on. */
  method ParseStatement(g: Graph, ghost c: Certificate, root: nat, tokens: seq<Token>)
    returns (r: Option<ParseResult>, errorToken: nat)
    requires WellFormed(g, c) && root < |g|
    ensures forall result :: r == Some(result) <==> Parses(g, tokens, root, 0, Reads(result, |tokens|))
    ensures forall result :: r == Some(result) <==> IsTree(g, tokens, root, 0, result, |tokens|)
    ensures r.Some? ==> Leaves(r.value) == tokens && StartsRight(r.value)
    ensures r.None? ==>
              var reach := Reach(g, c, tokens, root, 0);
              && errorToken == (if reach == |tokens| > 0 then |tokens| - 1 else reach)
              && IsFurthest(Taken(g, tokens, root, 0), 0, reach)
    ensures r.None? && tokens != [] ==>
              errorToken < |tokens| && (errorToken == Reach(g, c, tokens, root, 0) <==> Reach(g, c, tokens, root, 0) < |tokens|)
    ensures r.None? && Reach(g, c, tokens, root, 0) < |tokens| ==>
              forall others, result ::
                SameUpTo(tokens, others, errorToken) ==> !Parses(g, others, root, 0, Reads(result, |others|))
  {
    hide Reach, Run, Parses, IsTree, FailsAt, Taken, IsFurthest;
    ReachIsFurthest(g, c, tokens, root, 0);
    var state := new MatchState(tokens);
    TreesAreRead(g, tokens, root);
    r := MatchParseResult(g, c, root, state);
    RunIsPeg(g, c, tokens, root, 0);
    ResultAccounts(g, c, tokens, root, 0);
    errorToken := 0;
    if r.None? || state.tokenIndex < |tokens| {
      errorToken := if state.mark.index >= |tokens| > 0 then |tokens| - 1 else state.mark.index;
      r := None;
      forall others, result | SameUpTo(tokens, others, Reach(g, c, tokens, root, 0))
        ensures !Parses(g, others, root, 0, Reads(result, |others|))
      {
        ErrorIsFinal(g, c, root, tokens, others);
        RunIsPeg(g, c, others, root, 0);
      }
    }
  }
}
