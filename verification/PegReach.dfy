/**
 How far a match looks: the furthest token it takes on any way it tries, successful or not.  A syntax error is
 reported there.
 */
module PegReach {
  import opened PegMatcher

  function Max(a: nat, b: nat): nat { if a < b then b else a }

  ghost function Reach(g: Graph, c: Certificate, tokens: seq<Token>, id: nat, from: nat): (r: nat)
    requires WellFormed(g, c) && id < |g| && from <= |tokens|
    ensures from <= r <= |tokens|
    ensures Run(g, c, tokens, id, from).Reads? ==> Run(g, c, tokens, id, from).to <= r
    decreases |tokens| - from, c.rank[id], 1, 0
  {
    assert NodeOk(g, c, id);
    match g[id]
    case Terminal(accepts) => if from < |tokens| && accepts(tokens[from].text) then from + 1 else from
    case List(ids) => ReachAll(g, c, tokens, id, 0, from, from)
    case Choice(ids) => ReachFirst(g, c, tokens, id, 0, from)
    case Optional(child) => Reach(g, c, tokens, child, from)
    case Repeat(child) =>
      var o, r := Run(g, c, tokens, child, from), Reach(g, c, tokens, child, from);
      if o.Fails? then r else Max(r, ReachMore(g, c, tokens, child, o.to))
  }

  ghost function ReachAll(g: Graph, c: Certificate, tokens: seq<Token>, id: nat, i: nat, began: nat, from: nat): (r: nat)
    requires WellFormed(g, c) && id < |g| && g[id].List? && i <= |g[id].children|
    requires began <= from <= |tokens| && (from == began ==> AllNullable(c, g[id].children, i))
    ensures from <= r <= |tokens|
    ensures RunAll(g, c, tokens, id, i, began, from).Whole? ==> RunAll(g, c, tokens, id, i, began, from).to <= r
    decreases |tokens| - began, c.rank[id], 0, |g[id].children| - i
  {
    var ids := g[id].children;
    if i == |ids| then from
    else
      assert NodeOk(g, c, id);
      var o, r := Run(g, c, tokens, ids[i], from), Reach(g, c, tokens, ids[i], from);
      if o.Fails? then r else Max(r, ReachAll(g, c, tokens, id, i + 1, began, o.to))
  }

  ghost function ReachFirst(g: Graph, c: Certificate, tokens: seq<Token>, id: nat, i: nat, from: nat): (r: nat)
    requires WellFormed(g, c) && id < |g| && g[id].Choice? && i <= |g[id].children| && from <= |tokens|
    ensures from <= r <= |tokens|
    ensures RunFirst(g, c, tokens, id, i, from).Reads? ==> RunFirst(g, c, tokens, id, i, from).to <= r
    decreases |tokens| - from, c.rank[id], 0, |g[id].children| - i
  {
    var ids := g[id].children;
    if i == |ids| then from
    else
      assert NodeOk(g, c, id);
      var r := Reach(g, c, tokens, ids[i], from);
      if Run(g, c, tokens, ids[i], from).Reads? then r else Max(r, ReachFirst(g, c, tokens, id, i + 1, from))
  }

  ghost function ReachMore(g: Graph, c: Certificate, tokens: seq<Token>, child: nat, from: nat): (r: nat)
    requires WellFormed(g, c) && child < |g| && !c.Nullable(child) && from <= |tokens|
    ensures from <= r <= |tokens| && RunMore(g, c, tokens, child, from).to <= r
    decreases |tokens| - from, c.rank[child], 2, 0
  {
    if from >= |tokens| then from
    else
      var o, r := Run(g, c, tokens, child, from), Reach(g, c, tokens, child, from);
      if o.Fails? then r else Max(r, ReachMore(g, c, tokens, child, o.to))
  }

  // ---------------------------------------------------------------- only these tokens matter

  /** Both statements go on behind token `r`, and are the same up to there and at it. */
  ghost predicate SameUpTo(tokens: seq<Token>, others: seq<Token>, r: nat) {
    r < |tokens| && r < |others| && forall k :: 0 <= k <= r ==> others[k] == tokens[k]
  }

  /** A match that reaches token `r` depends on the tokens up to `r` and no others. */
  lemma {:induction false} RunIsLocal(g: Graph, c: Certificate, tokens: seq<Token>, others: seq<Token>, id: nat, from: nat, r: nat)
    requires WellFormed(g, c) && id < |g| && from <= |tokens|
    requires SameUpTo(tokens, others, r) && Reach(g, c, tokens, id, from) <= r
    ensures Run(g, c, others, id, from) == Run(g, c, tokens, id, from)
    decreases |tokens| - from, c.rank[id], 1, 0
  {
    assert NodeOk(g, c, id);
    match g[id]
    case Terminal(accepts) =>
    case List(ids) => AllIsLocal(g, c, tokens, others, id, 0, from, from, r);
    case Choice(ids) => FirstIsLocal(g, c, tokens, others, id, 0, from, r);
    case Optional(child) => RunIsLocal(g, c, tokens, others, child, from, r);
    case Repeat(child) =>
      RunIsLocal(g, c, tokens, others, child, from, r);
      var o := Run(g, c, tokens, child, from);
      if o.Reads? {
        MoreIsLocal(g, c, tokens, others, child, o.to, r);
      }
  }

  lemma {:induction false} AllIsLocal(g: Graph, c: Certificate, tokens: seq<Token>, others: seq<Token>, id: nat, i: nat,
                                      began: nat, from: nat, r: nat)
    requires WellFormed(g, c) && id < |g| && g[id].List? && i <= |g[id].children|
    requires began <= from <= |tokens| && (from == began ==> AllNullable(c, g[id].children, i))
    requires SameUpTo(tokens, others, r) && ReachAll(g, c, tokens, id, i, began, from) <= r
    ensures RunAll(g, c, others, id, i, began, from) == RunAll(g, c, tokens, id, i, began, from)
    decreases |tokens| - began, c.rank[id], 0, |g[id].children| - i
  {
    var ids := g[id].children;
    if i < |ids| {
      assert NodeOk(g, c, id);
      RunIsLocal(g, c, tokens, others, ids[i], from, r);
      var o := Run(g, c, tokens, ids[i], from);
      if o.Reads? {
        AllIsLocal(g, c, tokens, others, id, i + 1, began, o.to, r);
      }
    }
  }

  lemma {:induction false} FirstIsLocal(g: Graph, c: Certificate, tokens: seq<Token>, others: seq<Token>, id: nat, i: nat,
                                        from: nat, r: nat)
    requires WellFormed(g, c) && id < |g| && g[id].Choice? && i <= |g[id].children| && from <= |tokens|
    requires SameUpTo(tokens, others, r) && ReachFirst(g, c, tokens, id, i, from) <= r
    ensures RunFirst(g, c, others, id, i, from) == RunFirst(g, c, tokens, id, i, from)
    decreases |tokens| - from, c.rank[id], 0, |g[id].children| - i
  {
    var ids := g[id].children;
    if i < |ids| {
      assert NodeOk(g, c, id);
      RunIsLocal(g, c, tokens, others, ids[i], from, r);
      if Run(g, c, tokens, ids[i], from).Fails? {
        FirstIsLocal(g, c, tokens, others, id, i + 1, from, r);
      }
    }
  }

  lemma {:induction false} MoreIsLocal(g: Graph, c: Certificate, tokens: seq<Token>, others: seq<Token>, child: nat, from: nat,
                                       r: nat)
    requires WellFormed(g, c) && child < |g| && !c.Nullable(child) && from <= |tokens|
    requires SameUpTo(tokens, others, r) && ReachMore(g, c, tokens, child, from) <= r
    ensures RunMore(g, c, others, child, from) == RunMore(g, c, tokens, child, from)
    decreases |tokens| - from, c.rank[child], 2, 0
  {
    RunIsLocal(g, c, tokens, others, child, from, r);
    var o := Run(g, c, tokens, child, from);
    if o.Reads? {
      MoreIsLocal(g, c, tokens, others, child, o.to, r);
    }
  }

  /** The root matcher reads the whole statement. */
  ghost predicate IsAccepted(g: Graph, c: Certificate, root: nat, tokens: seq<Token>)
    requires WellFormed(g, c) && root < |g|
  {
    var out := Run(g, c, tokens, root, 0);
    out.Reads? && out.to == |tokens|
  }

  /** A syntax error is final: a statement with the same tokens up to the one the error is reported at, and at
      it, is rejected as well, whatever follows. */
  lemma ErrorIsFinal(g: Graph, c: Certificate, root: nat, tokens: seq<Token>, others: seq<Token>)
    requires WellFormed(g, c) && root < |g|
    requires SameUpTo(tokens, others, Reach(g, c, tokens, root, 0))
    ensures !IsAccepted(g, c, root, tokens) && !IsAccepted(g, c, root, others)
  {
    RunIsLocal(g, c, tokens, others, root, 0, Reach(g, c, tokens, root, 0));
  }

  /** Two words, one after the other. */
  ghost function TwoWords(first: string, second: string): Graph {
    [List([1, 2]), Terminal(word => word == first), Terminal(word => word == second)]
  }

  /** When all tokens were read and more are wanted, the error is reported at the last token.  That one was read,
      and a statement that goes on behind it may well be accepted. */
  lemma LastTokenIsReported(a: Token, b: Token)
    ensures var g, c := TwoWords(a.text, b.text), Certificate({}, [1, 0, 0]);
            && WellFormed(g, c) && Reach(g, c, [a], 0, 0) == 1
            && !IsAccepted(g, c, 0, [a]) && SameUpTo([a], [a, b], 0) && IsAccepted(g, c, 0, [a, b])
  {
    var g, c := TwoWords(a.text, b.text), Certificate({}, [1, 0, 0]);
    var ids := g[0].children;
    assert !c.Nullable(ids[0]) && ids == [1, 2];
    assert NodeOk(g, c, 0) && NodeOk(g, c, 1) && NodeOk(g, c, 2);
    var one, two := [a], [a, b];
    assert Run(g, c, one, 1, 0) == Reads(TokenResult(a), 1) && Run(g, c, one, 2, 1) == Fails;
    assert RunAll(g, c, one, 0, 1, 0, 1) == Broken && RunAll(g, c, one, 0, 0, 0, 0) == Broken;
    assert Reach(g, c, one, 1, 0) == 1 && Reach(g, c, one, 2, 1) == 1;
    assert ReachAll(g, c, one, 0, 1, 0, 1) == 1 && ReachAll(g, c, one, 0, 0, 0, 0) == 1;
    assert Run(g, c, two, 1, 0) == Reads(TokenResult(a), 1) && Run(g, c, two, 2, 1) == Reads(TokenResult(b), 2);
    assert RunAll(g, c, two, 0, 2, 0, 2) == Whole([], 2);
    assert RunAll(g, c, two, 0, 1, 0, 1).Whole? && RunAll(g, c, two, 0, 1, 0, 1).to == 2;
    assert RunAll(g, c, two, 0, 0, 0, 0).Whole? && RunAll(g, c, two, 0, 0, 0, 0).to == 2;
  }
}
