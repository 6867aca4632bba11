/**
 Which matchers are tried on the way, told on the shape of results, and the proof that a match reaches exactly the
 furthest token that a tried terminal takes.
 */
module PegTried {
  import opened PegMatcher
  import opened PegAgreement
  import opened PegReach
  import opened PegResults

  /** Matching `id` from token `from` tries the matcher `at` at token `pos`: a part of a list behind the parts before
      it, an alternative when all before it fail, an element behind the elements before it. */
  least predicate Tries(g: Graph, tokens: seq<Token>, id: nat, from: nat, at: nat, pos: nat) {
    id < |g| &&
    ((at == id && pos == from) ||
     match g[id]
     case Terminal(_) => false
     case List(ids) =>
       exists k: nat, rs, mid :: k < |ids| && AreTrees(g, tokens, ids[..k], from, rs, mid) && Tries(g, tokens, ids[k], mid, at, pos)
     case Choice(ids) =>
       exists k: nat :: k < |ids| && (forall j :: 0 <= j < k ==> FailsAt(g, tokens, ids[j], from))
                        && Tries(g, tokens, ids[k], from, at, pos)
     case Optional(child) => Tries(g, tokens, child, from, at, pos)
     case Repeat(child) =>
       exists rs, mid :: AreElements(g, tokens, child, from, rs, mid) && Tries(g, tokens, child, mid, at, pos))
  }

  /** A terminal that is tried takes token `pos`. */
  ghost predicate IsTaken(g: Graph, tokens: seq<Token>, id: nat, from: nat, at: nat, pos: nat) {
    && Tries(g, tokens, id, from, at, pos)
    && at < |g| && g[at].Terminal? && pos < |tokens| && g[at].accepts(tokens[pos].text)
  }

  /** The tokens that tried terminals take. */
  ghost function Taken(g: Graph, tokens: seq<Token>, id: nat, from: nat): iset<nat> {
    iset pos: nat | Takes(g, tokens, id, from, pos)
  }

  ghost predicate Takes(g: Graph, tokens: seq<Token>, id: nat, from: nat, pos: nat) {
    exists at: nat :: IsTaken(g, tokens, id, from, at, pos)
  }

  /** `r` is right behind the last of these tokens, or at the first one that there could be. */
  ghost predicate IsFurthest(taken: iset<nat>, from: nat, r: nat) {
    (forall pos :: pos in taken ==> from <= pos < r) && (r == from || r - 1 in taken)
  }

  /** A match reaches exactly as far as a tried terminal takes a token. */
  lemma {:induction false} ReachIsFurthest(g: Graph, c: Certificate, tokens: seq<Token>, id: nat, from: nat)
    requires WellFormed(g, c) && id < |g| && from <= |tokens|
    ensures IsFurthest(Taken(g, tokens, id, from), from, Reach(g, c, tokens, id, from))
    decreases |tokens| - from, c.rank[id], 1, 0
  {
    assert NodeOk(g, c, id);
    match g[id]
    case Terminal(accepts) =>
      TerminalTakes(g, tokens, id, from);
    case List(ids) =>
      AllIsFurthest(g, c, tokens, id, 0, from, from);
      assert ids[0..] == ids;
      ListTakes(g, tokens, id, from);
    case Choice(ids) =>
      FirstIsFurthest(g, c, tokens, id, 0, from);
      ChoiceTakes(g, tokens, id, from);
    case Optional(child) =>
      ReachIsFurthest(g, c, tokens, child, from);
      OptionalTakes(g, tokens, id, from);
    case Repeat(child) =>
      RepeatIsFurthest(g, c, tokens, id, from);
      RepeatTakes(g, tokens, id, from);
  }

  // ---------------------------------------------------------------- what the parts take

  ghost predicate AllTake(g: Graph, tokens: seq<Token>, ids: seq<nat>, from: nat, pos: nat) {
    exists k: nat, rs, mid :: k < |ids| && AreTrees(g, tokens, ids[..k], from, rs, mid) && Takes(g, tokens, ids[k], mid, pos)
  }

  ghost function TakenByAll(g: Graph, tokens: seq<Token>, ids: seq<nat>, from: nat): iset<nat> {
    iset pos: nat | AllTake(g, tokens, ids, from, pos)
  }

  ghost predicate FirstTakes(g: Graph, tokens: seq<Token>, ids: seq<nat>, i: nat, from: nat, pos: nat) {
    exists k: nat :: i <= k < |ids| && (forall j :: i <= j < k ==> FailsAt(g, tokens, ids[j], from))
                     && Takes(g, tokens, ids[k], from, pos)
  }

  ghost function TakenByFirst(g: Graph, tokens: seq<Token>, ids: seq<nat>, i: nat, from: nat): iset<nat> {
    iset pos: nat | FirstTakes(g, tokens, ids, i, from, pos)
  }

  ghost predicate MoreTake(g: Graph, tokens: seq<Token>, child: nat, from: nat, pos: nat) {
    exists rs, mid :: AreElements(g, tokens, child, from, rs, mid) && Takes(g, tokens, child, mid, pos)
  }

  ghost function TakenByMore(g: Graph, tokens: seq<Token>, child: nat, from: nat): iset<nat> {
    iset pos: nat | MoreTake(g, tokens, child, from, pos)
  }

  lemma TerminalTakes(g: Graph, tokens: seq<Token>, id: nat, from: nat)
    requires id < |g| && g[id].Terminal?
    ensures Taken(g, tokens, id, from)
         == if from < |tokens| && g[id].accepts(tokens[from].text) then iset{from} else iset{}
  {
    assert Tries(g, tokens, id, from, id, from);
    assert from < |tokens| && g[id].accepts(tokens[from].text) ==> IsTaken(g, tokens, id, from, id, from);
  }

  lemma ListTakes(g: Graph, tokens: seq<Token>, id: nat, from: nat)
    requires id < |g| && g[id].List?
    ensures Taken(g, tokens, id, from) == TakenByAll(g, tokens, g[id].children, from)
  {
    hide AreTrees;
    var ids := g[id].children;
    forall pos: nat
      ensures Takes(g, tokens, id, from, pos) <==> AllTake(g, tokens, ids, from, pos)
    {
      if Takes(g, tokens, id, from, pos) {
        var at: nat :| IsTaken(g, tokens, id, from, at, pos);
        var k: nat, rs, mid :| k < |ids| && AreTrees(g, tokens, ids[..k], from, rs, mid) && Tries(g, tokens, ids[k], mid, at, pos);
        assert IsTaken(g, tokens, ids[k], mid, at, pos);
      }
      if AllTake(g, tokens, ids, from, pos) {
        var k: nat, rs, mid :| k < |ids| && AreTrees(g, tokens, ids[..k], from, rs, mid) && Takes(g, tokens, ids[k], mid, pos);
        var at: nat :| IsTaken(g, tokens, ids[k], mid, at, pos);
        assert IsTaken(g, tokens, id, from, at, pos);
      }
    }
  }

  lemma ChoiceTakes(g: Graph, tokens: seq<Token>, id: nat, from: nat)
    requires id < |g| && g[id].Choice?
    ensures Taken(g, tokens, id, from) == TakenByFirst(g, tokens, g[id].children, 0, from)
  {
    hide FailsAt;
    var ids := g[id].children;
    forall pos: nat
      ensures Takes(g, tokens, id, from, pos) <==> FirstTakes(g, tokens, ids, 0, from, pos)
    {
      if Takes(g, tokens, id, from, pos) {
        var at: nat :| IsTaken(g, tokens, id, from, at, pos);
        var k: nat :| k < |ids| && (forall j :: 0 <= j < k ==> FailsAt(g, tokens, ids[j], from))
                      && Tries(g, tokens, ids[k], from, at, pos);
        assert IsTaken(g, tokens, ids[k], from, at, pos);
      }
      if FirstTakes(g, tokens, ids, 0, from, pos) {
        var k: nat :| 0 <= k < |ids| && (forall j :: 0 <= j < k ==> FailsAt(g, tokens, ids[j], from))
                      && Takes(g, tokens, ids[k], from, pos);
        var at: nat :| IsTaken(g, tokens, ids[k], from, at, pos);
        assert IsTaken(g, tokens, id, from, at, pos);
      }
    }
  }

  lemma OptionalTakes(g: Graph, tokens: seq<Token>, id: nat, from: nat)
    requires id < |g| && g[id].Optional?
    ensures Taken(g, tokens, id, from) == Taken(g, tokens, g[id].child, from)
  {
    assert forall at: nat, pos: nat :: IsTaken(g, tokens, id, from, at, pos) <==> IsTaken(g, tokens, g[id].child, from, at, pos);
  }

  lemma RepeatTakes(g: Graph, tokens: seq<Token>, id: nat, from: nat)
    requires id < |g| && g[id].Repeat?
    ensures Taken(g, tokens, id, from) == TakenByMore(g, tokens, g[id].child, from)
  {
    hide AreElements;
    var child := g[id].child;
    forall pos: nat
      ensures Takes(g, tokens, id, from, pos) <==> MoreTake(g, tokens, child, from, pos)
    {
      if Takes(g, tokens, id, from, pos) {
        var at: nat :| IsTaken(g, tokens, id, from, at, pos);
        var rs, mid :| AreElements(g, tokens, child, from, rs, mid) && Tries(g, tokens, child, mid, at, pos);
        assert IsTaken(g, tokens, child, mid, at, pos);
      }
      if MoreTake(g, tokens, child, from, pos) {
        var rs, mid :| AreElements(g, tokens, child, from, rs, mid) && Takes(g, tokens, child, mid, pos);
        var at: nat :| IsTaken(g, tokens, child, mid, at, pos);
        assert IsTaken(g, tokens, id, from, at, pos);
      }
    }
  }

  // ---------------------------------------------------------------- one part and the rest

  lemma FurtherOn(first: iset<nat>, rest: iset<nat>, from: nat, mid: nat, r: nat, s: nat)
    requires IsFurthest(first, from, r) && IsFurthest(rest, mid, s) && from <= mid <= r && mid <= s
    ensures IsFurthest(first + rest, from, Max(r, s))
  {
  }

  /** A matcher reads at most one tree. */
  lemma OneTree(g: Graph, c: Certificate, tokens: seq<Token>, id: nat, from: nat, r: ParseResult, to: nat)
    requires WellFormed(g, c) && id < |g| && from <= |tokens|
    ensures IsTree(g, tokens, id, from, r, to) <==> Run(g, c, tokens, id, from) == Reads(r, to)
    ensures FailsAt(g, tokens, id, from) <==> Run(g, c, tokens, id, from) == Fails
  {
    hide Run, IsTree, Parses;
    RunIsPeg(g, c, tokens, id, from);
    ReadsExactly(g, tokens, id, from, r, to);
  }

  lemma AllTakeStep(g: Graph, c: Certificate, tokens: seq<Token>, ids: seq<nat>, from: nat)
    requires WellFormed(g, c) && ids != [] && ids[0] < |g| && from <= |tokens|
    ensures var o := Run(g, c, tokens, ids[0], from);
            TakenByAll(g, tokens, ids, from)
            == Taken(g, tokens, ids[0], from) + if o.Fails? then iset{} else TakenByAll(g, tokens, ids[1..], o.to)
  {
    hide Run, Takes, IsTree, FailsAt;
    var o := Run(g, c, tokens, ids[0], from);
    forall pos: nat
      ensures AllTake(g, tokens, ids, from, pos)
         <==> Takes(g, tokens, ids[0], from, pos) || (o.Reads? && AllTake(g, tokens, ids[1..], o.to, pos))
    {
      if AllTake(g, tokens, ids, from, pos) {
        var k: nat, rs, mid :| k < |ids| && AreTrees(g, tokens, ids[..k], from, rs, mid) && Takes(g, tokens, ids[k], mid, pos);
        if k > 0 {
          var next := FirstPart(g, tokens, ids[..k], from, rs, mid);
          OneTree(g, c, tokens, ids[0], from, rs[0], next);
          assert ids[..k][1..] == ids[1..][..k - 1];
          assert ids[1..][k - 1] == ids[k];
        }
      }
      if Takes(g, tokens, ids[0], from, pos) {
        assert AreTrees(g, tokens, ids[..0], from, [], from);
      }
      if o.Reads? && AllTake(g, tokens, ids[1..], o.to, pos) {
        var k: nat, rs, mid :| k < |ids[1..]| && AreTrees(g, tokens, ids[1..][..k], o.to, rs, mid)
                               && Takes(g, tokens, ids[1..][k], mid, pos);
        OneTree(g, c, tokens, ids[0], from, o.result, o.to);
        TreesJoin(g, tokens, ids, from, o.result, o.to, k, rs, mid);
        assert ids[k + 1] == ids[1..][k];
      }
    }
  }

  lemma TreesJoin(g: Graph, tokens: seq<Token>, ids: seq<nat>, from: nat, r: ParseResult, next: nat, k: nat,
                  rs: seq<ParseResult>, mid: nat)
    requires ids != [] && k <= |ids[1..]| && IsTree(g, tokens, ids[0], from, r, next)
    requires AreTrees(g, tokens, ids[1..][..k], next, rs, mid)
    ensures AreTrees(g, tokens, ids[..k + 1], from, [r] + rs, mid)
  {
    hide IsTree;
    assert ids[..k + 1][1..] == ids[1..][..k] && ([r] + rs)[1..] == rs;
  }

  lemma {:induction false} AllIsFurthest(g: Graph, c: Certificate, tokens: seq<Token>, id: nat, i: nat, began: nat, from: nat)
    requires WellFormed(g, c) && id < |g| && g[id].List? && i <= |g[id].children|
    requires began <= from <= |tokens| && (from == began ==> AllNullable(c, g[id].children, i))
    ensures IsFurthest(TakenByAll(g, tokens, g[id].children[i..], from), from, ReachAll(g, c, tokens, id, i, began, from))
    decreases |tokens| - began, c.rank[id], 0, |g[id].children| - i
  {
    var ids := g[id].children;
    if i < |ids| {
      assert NodeOk(g, c, id);
      ReachIsFurthest(g, c, tokens, ids[i], from);
      AllTakeStep(g, c, tokens, ids[i..], from);
      assert ids[i..][0] == ids[i] && ids[i..][1..] == ids[i + 1..];
      hide IsFurthest, Taken, TakenByAll;
      var o, r := Run(g, c, tokens, ids[i], from), Reach(g, c, tokens, ids[i], from);
      if o.Fails? {
        NothingMore(Taken(g, tokens, ids[i], from));
      } else {
        AllIsFurthest(g, c, tokens, id, i + 1, began, o.to);
        FurtherOn(Taken(g, tokens, ids[i], from), TakenByAll(g, tokens, ids[i + 1..], o.to), from, o.to, r,
                  ReachAll(g, c, tokens, id, i + 1, began, o.to));
      }
    }
  }

  lemma NothingMore(taken: iset<nat>)
    ensures taken + iset{} == taken
  {
  }

  lemma FirstTakesStep(g: Graph, c: Certificate, tokens: seq<Token>, ids: seq<nat>, i: nat, from: nat)
    requires WellFormed(g, c) && i < |ids| && ids[i] < |g| && from <= |tokens|
    ensures TakenByFirst(g, tokens, ids, i, from)
         == Taken(g, tokens, ids[i], from)
            + if Run(g, c, tokens, ids[i], from).Fails? then TakenByFirst(g, tokens, ids, i + 1, from) else iset{}
  {
    hide Run, Takes, FailsAt;
    OneTree(g, c, tokens, ids[i], from, NoResult, from);
    forall pos: nat
      ensures FirstTakes(g, tokens, ids, i, from, pos)
         <==> Takes(g, tokens, ids[i], from, pos)
              || (FailsAt(g, tokens, ids[i], from) && FirstTakes(g, tokens, ids, i + 1, from, pos))
    {
      if FirstTakes(g, tokens, ids, i, from, pos) {
        var k: nat :| i <= k < |ids| && (forall j :: i <= j < k ==> FailsAt(g, tokens, ids[j], from))
                      && Takes(g, tokens, ids[k], from, pos);
        assert k > i ==> FailsAt(g, tokens, ids[i], from);
      }
    }
  }

  lemma {:induction false} FirstIsFurthest(g: Graph, c: Certificate, tokens: seq<Token>, id: nat, i: nat, from: nat)
    requires WellFormed(g, c) && id < |g| && g[id].Choice? && i <= |g[id].children| && from <= |tokens|
    ensures IsFurthest(TakenByFirst(g, tokens, g[id].children, i, from), from, ReachFirst(g, c, tokens, id, i, from))
    decreases |tokens| - from, c.rank[id], 0, |g[id].children| - i
  {
    var ids := g[id].children;
    if i < |ids| {
      assert NodeOk(g, c, id);
      ReachIsFurthest(g, c, tokens, ids[i], from);
      FirstTakesStep(g, c, tokens, ids, i, from);
      hide IsFurthest, Taken, TakenByFirst;
      if Run(g, c, tokens, ids[i], from).Reads? {
        NothingMore(Taken(g, tokens, ids[i], from));
      } else {
        FirstIsFurthest(g, c, tokens, id, i + 1, from);
        FurtherOn(Taken(g, tokens, ids[i], from), TakenByFirst(g, tokens, ids, i + 1, from), from, from,
                  Reach(g, c, tokens, ids[i], from), ReachFirst(g, c, tokens, id, i + 1, from));
      }
    }
  }

  lemma MoreTakeStep(g: Graph, c: Certificate, tokens: seq<Token>, child: nat, from: nat)
    requires WellFormed(g, c) && child < |g| && from <= |tokens|
    ensures var o := Run(g, c, tokens, child, from);
            TakenByMore(g, tokens, child, from)
            == Taken(g, tokens, child, from) + if o.Fails? then iset{} else TakenByMore(g, tokens, child, o.to)
  {
    hide Run, Takes, IsTree, FailsAt;
    var o := Run(g, c, tokens, child, from);
    forall pos: nat
      ensures MoreTake(g, tokens, child, from, pos)
         <==> Takes(g, tokens, child, from, pos) || (o.Reads? && MoreTake(g, tokens, child, o.to, pos))
    {
      if MoreTake(g, tokens, child, from, pos) {
        var rs, mid :| AreElements(g, tokens, child, from, rs, mid) && Takes(g, tokens, child, mid, pos);
        if rs != [] {
          var next := FirstElement(g, tokens, child, from, rs, mid);
          OneTree(g, c, tokens, child, from, rs[0], next);
        }
      }
      if Takes(g, tokens, child, from, pos) {
        assert AreElements(g, tokens, child, from, [], from);
      }
      if o.Reads? && MoreTake(g, tokens, child, o.to, pos) {
        var rs, mid :| AreElements(g, tokens, child, o.to, rs, mid) && Takes(g, tokens, child, mid, pos);
        OneTree(g, c, tokens, child, from, o.result, o.to);
        ElementsJoin(g, tokens, child, from, o.result, o.to, rs, mid);
      }
    }
  }

  lemma {:induction false} RepeatIsFurthest(g: Graph, c: Certificate, tokens: seq<Token>, id: nat, from: nat)
    requires WellFormed(g, c) && id < |g| && g[id].Repeat? && from <= |tokens|
    ensures IsFurthest(TakenByMore(g, tokens, g[id].child, from), from, Reach(g, c, tokens, id, from))
    decreases |tokens| - from, c.rank[id], 0, 0
  {
    assert NodeOk(g, c, id);
    var child := g[id].child;
    ReachIsFurthest(g, c, tokens, child, from);
    MoreTakeStep(g, c, tokens, child, from);
    var o, r := Run(g, c, tokens, child, from), Reach(g, c, tokens, child, from);
    hide IsFurthest, Taken, TakenByMore;
    if o.Fails? {
      NothingMore(Taken(g, tokens, child, from));
    } else {
      MoreIsFurthest(g, c, tokens, child, o.to);
      FurtherOn(Taken(g, tokens, child, from), TakenByMore(g, tokens, child, o.to), from, o.to, r,
                ReachMore(g, c, tokens, child, o.to));
    }
  }

  lemma {:induction false} MoreIsFurthest(g: Graph, c: Certificate, tokens: seq<Token>, child: nat, from: nat)
    requires WellFormed(g, c) && child < |g| && !c.Nullable(child) && from <= |tokens|
    ensures IsFurthest(TakenByMore(g, tokens, child, from), from, ReachMore(g, c, tokens, child, from))
    decreases |tokens| - from, c.rank[child], 2, 0
  {
    ReachIsFurthest(g, c, tokens, child, from);
    MoreTakeStep(g, c, tokens, child, from);
    var o, r := Run(g, c, tokens, child, from), Reach(g, c, tokens, child, from);
    hide IsFurthest, Taken, TakenByMore;
    if o.Fails? {
      NothingMore(Taken(g, tokens, child, from));
    } else {
      MoreIsFurthest(g, c, tokens, child, o.to);
      FurtherOn(Taken(g, tokens, child, from), TakenByMore(g, tokens, child, o.to), from, o.to, r,
                ReachMore(g, c, tokens, child, o.to));
    }
  }
}
