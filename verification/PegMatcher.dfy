/**
 The matcher graph of the PEG engine, the parse results it produces, and its meaning as a parsing expression
 grammar.  Matchers refer to each other by their place in the graph, so rules can be recursive.
 */
module PegMatcher {
  import opened Options

  datatype Token = Token(text: string, offset: nat)

  /** A terminal stands for the matchers that look at one token: keywords, identifiers, literals, operators. */
  datatype Matcher =
    | Terminal(accepts: string -> bool)
    | List(children: seq<nat>)
    | Choice(children: seq<nat>)
    | Optional(child: nat)
    | Repeat(child: nat)

  type Graph = seq<Matcher>

  /** What matching yields.  A composite result remembers the offset of the token it started at. */
  datatype ParseResult =
    | TokenResult(token: Token)
    | ListResult(children: seq<ParseResult>, start: Option<nat>)
    | ChoiceResult(result: ParseResult, selected: nat, start: Option<nat>)
    | OptionalResult(result: ParseResult, start: Option<nat>)
    | NoResult
    | RepeatResult(children: seq<ParseResult>, start: Option<nat>)

  /** The tokens at the leaves, from left to right. */
  function Leaves(r: ParseResult): seq<Token> {
    match r
    case TokenResult(t) => [t]
    case ListResult(rs, _) => LeavesOfAll(rs)
    case ChoiceResult(c, _, _) => Leaves(c)
    case OptionalResult(c, _) => Leaves(c)
    case NoResult => []
    case RepeatResult(rs, _) => LeavesOfAll(rs)
  }

  function LeavesOfAll(rs: seq<ParseResult>): seq<Token> {
    if rs == [] then [] else Leaves(rs[0]) + LeavesOfAll(rs[1..])
  }

  /** Every composite result that holds a token starts at its first one. */
  predicate StartsRight(r: ParseResult) {
    match r
    case TokenResult(_) => true
    case ListResult(rs, start) => StartsAt(Leaves(r), start) && forall k :: 0 <= k < |rs| ==> StartsRight(rs[k])
    case ChoiceResult(c, _, start) => StartsAt(Leaves(r), start) && StartsRight(c)
    case OptionalResult(c, start) => StartsAt(Leaves(r), start) && StartsRight(c)
    case NoResult => true
    case RepeatResult(rs, start) => StartsAt(Leaves(r), start) && forall k :: 0 <= k < |rs| ==> StartsRight(rs[k])
  }

  predicate StartsAt(leaves: seq<Token>, start: Option<nat>) {
    leaves != [] ==> start == Some(leaves[0].offset)
  }

  function OffsetAt(tokens: seq<Token>, index: nat): Option<nat> {
    if index < |tokens| then Some(tokens[index].offset) else None
  }

  // ---------------------------------------------------------------- parsing expressions

  datatype Outcome = Fails | Reads(result: ParseResult, to: nat)
  datatype Sequence = Broken | Whole(results: seq<ParseResult>, to: nat)

  function Joined(o: Outcome, rest: Sequence): Sequence {
    if o.Reads? && rest.Whole? then Whole([o.result] + rest.results, rest.to) else Broken
  }

  function Chosen(o: Outcome, i: nat, start: Option<nat>): Outcome {
    if o.Reads? then Reads(ChoiceResult(o.result, i, start), o.to) else Fails
  }

  function AsOptional(o: Outcome, from: nat, start: Option<nat>): Outcome {
    if o.Reads? then Reads(OptionalResult(o.result, start), o.to) else Reads(NoResult, from)
  }

  function AsList(s: Sequence, start: Option<nat>): Outcome {
    if s.Whole? then Reads(ListResult(s.results, start), s.to) else Fails
  }

  /** The rules of parsing expressions: a terminal reads a token it accepts; a sequence reads all its parts;
      an ordered choice takes the first alternative that does not fail; an option never fails; a repetition
      is greedy and takes its element at least once. */
  least predicate Parses(g: Graph, tokens: seq<Token>, id: nat, from: nat, out: Outcome) {
    id < |g| &&
    match g[id]
    case Terminal(accepts) =>
      out == if from < |tokens| && accepts(tokens[from].text) then Reads(TokenResult(tokens[from]), from + 1) else Fails
    case List(children) =>
      exists s :: ParsesAll(g, tokens, children, from, s) && out == AsList(s, OffsetAt(tokens, from))
    case Choice(children) => ParsesFirst(g, tokens, children, 0, from, out)
    case Optional(child) =>
      exists o :: Parses(g, tokens, child, from, o) && out == AsOptional(o, from, OffsetAt(tokens, from))
    case Repeat(child) =>
      exists o :: Parses(g, tokens, child, from, o) &&
        if o.Fails? then out == Fails
        else exists s :: ParsesMore(g, tokens, child, o.to, s)
               && out == if s.Whole? then Reads(RepeatResult([o.result] + s.results, OffsetAt(tokens, from)), s.to) else Fails
  }

  least predicate ParsesAll(g: Graph, tokens: seq<Token>, ids: seq<nat>, from: nat, out: Sequence) {
    if ids == [] then out == Whole([], from)
    else
      exists o :: Parses(g, tokens, ids[0], from, o) &&
        if o.Fails? then out == Broken
        else exists s :: ParsesAll(g, tokens, ids[1..], o.to, s) && out == Joined(o, s)
  }

  least predicate ParsesFirst(g: Graph, tokens: seq<Token>, ids: seq<nat>, i: nat, from: nat, out: Outcome) {
    if i >= |ids| then out == Fails
    else
      exists o :: Parses(g, tokens, ids[i], from, o) &&
        if o.Reads? then out == Chosen(o, i, OffsetAt(tokens, from))
        else ParsesFirst(g, tokens, ids, i + 1, from, out)
  }

  least predicate ParsesMore(g: Graph, tokens: seq<Token>, child: nat, from: nat, out: Sequence) {
    exists o :: Parses(g, tokens, child, from, o) &&
      if o.Fails? then out == Whole([], from)
      else exists s :: ParsesMore(g, tokens, child, o.to, s) && out == Joined(o, s)
  }

  // ---------------------------------------------------------------- well-formed graphs

  /** Which matchers may succeed without reading a token, and an order in which a matcher comes after those it
      may start with. */
  datatype Certificate = Certificate(nullable: set<nat>, rank: seq<nat>)
  {
    predicate Nullable(id: nat) { id in nullable }
  }

  ghost predicate AllNullable(c: Certificate, ids: seq<nat>, n: nat)
    requires n <= |ids|
  {
    forall k :: 0 <= k < n ==> c.Nullable(ids[k])
  }

  ghost predicate Below(g: Graph, c: Certificate, child: nat, id: nat) {
    child < |g| == |c.rank| && id < |g| && c.rank[child] < c.rank[id]
  }

  ghost predicate NodeOk(g: Graph, c: Certificate, id: nat)
    requires id < |g| == |c.rank|
  {
    match g[id]
    case Terminal(_) => true
    case List(ids) =>
      && (forall k :: 0 <= k < |ids| ==> ids[k] < |g| && (AllNullable(c, ids, k) ==> Below(g, c, ids[k], id)))
      && (AllNullable(c, ids, |ids|) ==> c.Nullable(id))
    case Choice(ids) =>
      forall k :: 0 <= k < |ids| ==> Below(g, c, ids[k], id) && (c.Nullable(ids[k]) ==> c.Nullable(id))
    case Optional(child) => Below(g, c, child, id) && c.Nullable(id)
    case Repeat(child) => Below(g, c, child, id) && !c.Nullable(child)
  }

  /** No matcher can reach itself without reading a token, and no repeated element can succeed without one. */
  ghost predicate WellFormed(g: Graph, c: Certificate) {
    |c.rank| == |g| && forall id :: 0 <= id < |g| ==> NodeOk(g, c, id)
  }

  // ---------------------------------------------------------------- what a well-formed graph computes

  ghost function Run(g: Graph, c: Certificate, tokens: seq<Token>, id: nat, from: nat): (out: Outcome)
    requires WellFormed(g, c) && id < |g| && from <= |tokens|
    ensures out.Reads? ==> from <= out.to <= |tokens| && (out.to == from ==> c.Nullable(id))
    decreases |tokens| - from, c.rank[id], 1, 0
  {
    assert NodeOk(g, c, id);
    var start := OffsetAt(tokens, from);
    match g[id]
    case Terminal(accepts) =>
      if from < |tokens| && accepts(tokens[from].text) then Reads(TokenResult(tokens[from]), from + 1) else Fails
    case List(ids) => AsList(RunAll(g, c, tokens, id, 0, from, from), start)
    case Choice(ids) => RunFirst(g, c, tokens, id, 0, from)
    case Optional(child) => AsOptional(Run(g, c, tokens, child, from), from, start)
    case Repeat(child) =>
      var o := Run(g, c, tokens, child, from);
      if o.Fails? then Fails
      else
        var s := RunMore(g, c, tokens, child, o.to);
        Reads(RepeatResult([o.result] + s.results, start), s.to)
  }

  /** The parts of a list from the `i`-th on; the list began at token `began`. */
  ghost function RunAll(g: Graph, c: Certificate, tokens: seq<Token>, id: nat, i: nat, began: nat, from: nat): (out: Sequence)
    requires WellFormed(g, c) && id < |g| && g[id].List? && i <= |g[id].children|
    requires began <= from <= |tokens| && (from == began ==> AllNullable(c, g[id].children, i))
    ensures out.Whole? ==> from <= out.to <= |tokens| && (out.to == began ==> AllNullable(c, g[id].children, |g[id].children|))
    decreases |tokens| - began, c.rank[id], 0, |g[id].children| - i
  {
    var ids := g[id].children;
    if i == |ids| then Whole([], from)
    else
      assert NodeOk(g, c, id);
      var o := Run(g, c, tokens, ids[i], from);
      if o.Fails? then Broken else Joined(o, RunAll(g, c, tokens, id, i + 1, began, o.to))
  }

  ghost function RunFirst(g: Graph, c: Certificate, tokens: seq<Token>, id: nat, i: nat, from: nat): (out: Outcome)
    requires WellFormed(g, c) && id < |g| && g[id].Choice? && i <= |g[id].children| && from <= |tokens|
    ensures out.Reads? ==> from <= out.to <= |tokens| && (out.to == from ==> c.Nullable(id))
    decreases |tokens| - from, c.rank[id], 0, |g[id].children| - i
  {
    var ids := g[id].children;
    if i == |ids| then Fails
    else
      assert NodeOk(g, c, id);
      var o := Run(g, c, tokens, ids[i], from);
      if o.Reads? then Chosen(o, i, OffsetAt(tokens, from)) else RunFirst(g, c, tokens, id, i + 1, from)
  }

  /** The further elements of a repetition; the matcher does not try any when no tokens are left. */
  ghost function RunMore(g: Graph, c: Certificate, tokens: seq<Token>, child: nat, from: nat): (out: Sequence)
    requires WellFormed(g, c) && child < |g| && !c.Nullable(child) && from <= |tokens|
    ensures out.Whole? && from <= out.to <= |tokens|
    decreases |tokens| - from, c.rank[child], 2, 0
  {
    if from >= |tokens| then Whole([], from)
    else
      var o := Run(g, c, tokens, child, from);
      if o.Fails? then Whole([], from) else Joined(o, RunMore(g, c, tokens, child, o.to))
  }
}
