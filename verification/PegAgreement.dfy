/**
 What a well-formed matcher graph computes is what the parsing expression rules say, and its results account
 for exactly the tokens that were read.
 */
module PegAgreement {
  import opened PegMatcher

  /** The rules allow one outcome and no other. */
  ghost predicate OnlyOutcome(g: Graph, tokens: seq<Token>, id: nat, from: nat, out: Outcome) {
    forall o :: Parses(g, tokens, id, from, o) <==> o == out
  }

  ghost predicate OnlySequence(g: Graph, tokens: seq<Token>, ids: seq<nat>, from: nat, out: Sequence) {
    forall s :: ParsesAll(g, tokens, ids, from, s) <==> s == out
  }

  ghost predicate OnlyFirst(g: Graph, tokens: seq<Token>, ids: seq<nat>, i: nat, from: nat, out: Outcome) {
    forall o :: ParsesFirst(g, tokens, ids, i, from, o) <==> o == out
  }

  ghost predicate OnlyMore(g: Graph, tokens: seq<Token>, child: nat, from: nat, out: Sequence) {
    forall s :: ParsesMore(g, tokens, child, from, s) <==> s == out
  }

  lemma {:induction false} RunIsPeg(g: Graph, c: Certificate, tokens: seq<Token>, id: nat, from: nat)
    requires WellFormed(g, c) && id < |g| && from <= |tokens|
    ensures OnlyOutcome(g, tokens, id, from, Run(g, c, tokens, id, from))
    decreases |tokens| - from, c.rank[id], 1, 0
  {
    assert NodeOk(g, c, id);
    match g[id]
    case Terminal(accepts) =>
    case List(ids) =>
      RunAllIsPeg(g, c, tokens, id, 0, from, from);
      assert ids[0..] == ids;
    case Choice(ids) =>
      RunFirstIsPeg(g, c, tokens, id, 0, from);
    case Optional(child) =>
      RunIsPeg(g, c, tokens, child, from);
    case Repeat(child) =>
      RunIsPeg(g, c, tokens, child, from);
      var o := Run(g, c, tokens, child, from);
      if o.Reads? {
        RunMoreIsPeg(g, c, tokens, child, o.to);
      }
  }

  lemma SequenceStep(g: Graph, tokens: seq<Token>, ids: seq<nat>, from: nat, o: Outcome, rest: Sequence)
    requires ids != [] && OnlyOutcome(g, tokens, ids[0], from, o)
    requires o.Reads? ==> OnlySequence(g, tokens, ids[1..], o.to, rest)
    ensures OnlySequence(g, tokens, ids, from, if o.Fails? then Broken else Joined(o, rest))
  {
    assert Parses(g, tokens, ids[0], from, o);
    assert o.Reads? ==> ParsesAll(g, tokens, ids[1..], o.to, rest);
  }

  lemma {:induction false} RunAllIsPeg(g: Graph, c: Certificate, tokens: seq<Token>, id: nat, i: nat, began: nat, from: nat)
    requires WellFormed(g, c) && id < |g| && g[id].List? && i <= |g[id].children|
    requires began <= from <= |tokens| && (from == began ==> AllNullable(c, g[id].children, i))
    ensures OnlySequence(g, tokens, g[id].children[i..], from, RunAll(g, c, tokens, id, i, began, from))
    decreases |tokens| - began, c.rank[id], 0, |g[id].children| - i
  {
    var ids := g[id].children;
    if i == |ids| {
      NothingToParse(g, tokens, from);
    } else {
      hide OnlySequence, Joined, Parses, ParsesAll;
      assert NodeOk(g, c, id);
      RunIsPeg(g, c, tokens, ids[i], from);
      var o, rest := Run(g, c, tokens, ids[i], from), Broken;
      assert ids[i..][0] == ids[i] && ids[i..][1..] == ids[i + 1..];
      if o.Reads? {
        RunAllIsPeg(g, c, tokens, id, i + 1, began, o.to);
        rest := RunAll(g, c, tokens, id, i + 1, began, o.to);
      }
      SequenceStep(g, tokens, ids[i..], from, o, rest);
    }
  }

  lemma NothingToParse(g: Graph, tokens: seq<Token>, from: nat)
    ensures OnlySequence(g, tokens, [], from, Whole([], from))
  {
  }

  lemma {:induction false} RunFirstIsPeg(g: Graph, c: Certificate, tokens: seq<Token>, id: nat, i: nat, from: nat)
    requires WellFormed(g, c) && id < |g| && g[id].Choice? && i <= |g[id].children| && from <= |tokens|
    ensures OnlyFirst(g, tokens, g[id].children, i, from, RunFirst(g, c, tokens, id, i, from))
    decreases |tokens| - from, c.rank[id], 0, |g[id].children| - i
  {
    var ids := g[id].children;
    if i < |ids| {
      assert NodeOk(g, c, id);
      RunIsPeg(g, c, tokens, ids[i], from);
      if Run(g, c, tokens, ids[i], from).Fails? {
        RunFirstIsPeg(g, c, tokens, id, i + 1, from);
      }
    }
  }

  /** With no tokens left an element that cannot be empty fails, so not trying it makes no difference. */
  lemma {:induction false} RunMoreIsPeg(g: Graph, c: Certificate, tokens: seq<Token>, child: nat, from: nat)
    requires WellFormed(g, c) && child < |g| && !c.Nullable(child) && from <= |tokens|
    ensures OnlyMore(g, tokens, child, from, RunMore(g, c, tokens, child, from))
    decreases |tokens| - from, c.rank[child], 2, 0
  {
    RunIsPeg(g, c, tokens, child, from);
    var o := Run(g, c, tokens, child, from);
    if o.Reads? {
      RunMoreIsPeg(g, c, tokens, child, o.to);
    }
  }

  // ---------------------------------------------------------------- the tokens of a result

  /** The result holds the tokens from `from` up to `to`, in order, and its parts start where they say. */
  ghost predicate Accounts(tokens: seq<Token>, r: ParseResult, from: nat, to: nat) {
    from <= to <= |tokens| && Leaves(r) == tokens[from..to] && StartsRight(r)
  }

  ghost predicate AccountsAll(tokens: seq<Token>, rs: seq<ParseResult>, from: nat, to: nat) {
    && from <= to <= |tokens| && LeavesOfAll(rs) == tokens[from..to]
    && forall k :: 0 <= k < |rs| ==> StartsRight(rs[k])
  }

  lemma StartOfSlice(tokens: seq<Token>, from: nat, to: nat)
    requires from <= to <= |tokens|
    ensures StartsAt(tokens[from..to], OffsetAt(tokens, from))
  {
  }

  lemma OneMore(tokens: seq<Token>, r: ParseResult, rs: seq<ParseResult>, from: nat, mid: nat, to: nat)
    requires Accounts(tokens, r, from, mid) && AccountsAll(tokens, rs, mid, to)
    ensures AccountsAll(tokens, [r] + rs, from, to)
  {
    assert tokens[from..mid] + tokens[mid..to] == tokens[from..to];
    assert ([r] + rs)[1..] == rs;
  }

  lemma {:induction false} ResultAccounts(g: Graph, c: Certificate, tokens: seq<Token>, id: nat, from: nat)
    requires WellFormed(g, c) && id < |g| && from <= |tokens|
    ensures var out := Run(g, c, tokens, id, from); out.Reads? ==> Accounts(tokens, out.result, from, out.to)
    decreases |tokens| - from, c.rank[id], 1, 0
  {
    hide OffsetAt, StartsAt;
    assert NodeOk(g, c, id);
    var out := Run(g, c, tokens, id, from);
    if out.Reads? {
      StartOfSlice(tokens, from, out.to);
    }
    match g[id]
    case Terminal(accepts) =>
    case List(ids) =>
      ListAccounts(g, c, tokens, id, 0, from, from);
    case Choice(ids) =>
      ChoiceAccounts(g, c, tokens, id, 0, from);
    case Optional(child) =>
      ResultAccounts(g, c, tokens, child, from);
    case Repeat(child) =>
      ResultAccounts(g, c, tokens, child, from);
      var o := Run(g, c, tokens, child, from);
      if o.Reads? {
        RepeatAccounts(g, c, tokens, child, o.to);
        var s := RunMore(g, c, tokens, child, o.to);
        OneMore(tokens, o.result, s.results, from, o.to, s.to);
      }
  }

  lemma {:induction false} ListAccounts(g: Graph, c: Certificate, tokens: seq<Token>, id: nat, i: nat, began: nat, from: nat)
    requires WellFormed(g, c) && id < |g| && g[id].List? && i <= |g[id].children|
    requires began <= from <= |tokens| && (from == began ==> AllNullable(c, g[id].children, i))
    ensures var s := RunAll(g, c, tokens, id, i, began, from); s.Whole? ==> AccountsAll(tokens, s.results, from, s.to)
    decreases |tokens| - began, c.rank[id], 0, |g[id].children| - i
  {
    var ids := g[id].children;
    if i < |ids| {
      assert NodeOk(g, c, id);
      ResultAccounts(g, c, tokens, ids[i], from);
      var o := Run(g, c, tokens, ids[i], from);
      if o.Reads? {
        ListAccounts(g, c, tokens, id, i + 1, began, o.to);
        var s := RunAll(g, c, tokens, id, i + 1, began, o.to);
        if s.Whole? {
          OneMore(tokens, o.result, s.results, from, o.to, s.to);
        }
      }
    }
  }

  lemma {:induction false} ChoiceAccounts(g: Graph, c: Certificate, tokens: seq<Token>, id: nat, i: nat, from: nat)
    requires WellFormed(g, c) && id < |g| && g[id].Choice? && i <= |g[id].children| && from <= |tokens|
    ensures var out := RunFirst(g, c, tokens, id, i, from); out.Reads? ==> Accounts(tokens, out.result, from, out.to)
    decreases |tokens| - from, c.rank[id], 0, |g[id].children| - i
  {
    hide OffsetAt, StartsAt;
    var ids := g[id].children;
    if i < |ids| {
      assert NodeOk(g, c, id);
      ResultAccounts(g, c, tokens, ids[i], from);
      var o := Run(g, c, tokens, ids[i], from);
      if o.Fails? {
        ChoiceAccounts(g, c, tokens, id, i + 1, from);
      } else {
        StartOfSlice(tokens, from, o.to);
      }
    }
  }

  lemma {:induction false} RepeatAccounts(g: Graph, c: Certificate, tokens: seq<Token>, child: nat, from: nat)
    requires WellFormed(g, c) && child < |g| && !c.Nullable(child) && from <= |tokens|
    ensures var s := RunMore(g, c, tokens, child, from); AccountsAll(tokens, s.results, from, s.to)
    decreases |tokens| - from, c.rank[child], 2, 0
  {
    if from < |tokens| {
      ResultAccounts(g, c, tokens, child, from);
      var o := Run(g, c, tokens, child, from);
      if o.Reads? {
        RepeatAccounts(g, c, tokens, child, o.to);
        var s := RunMore(g, c, tokens, child, o.to);
        OneMore(tokens, o.result, s.results, from, o.to, s.to);
      }
    }
  }
}
