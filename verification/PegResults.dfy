/**
 The shape of a parse result, told on the matcher graph with the results' own constructors, and the proof that the
 parsing expression rules give exactly the results of this shape.
 */
module PegResults {
  import opened Options
  import opened PegMatcher
  import opened PegAgreement

  /** The matcher fails here. */
  ghost predicate FailsAt(g: Graph, tokens: seq<Token>, id: nat, from: nat) {
    Parses(g, tokens, id, from, Fails)
  }

  /** `r` is the tree of what the matcher reads from token `from` up to token `to`. */
  ghost predicate IsTree(g: Graph, tokens: seq<Token>, id: nat, from: nat, r: ParseResult, to: nat)
    decreases r, 0
  {
    var start := if from < |tokens| then Some(tokens[from].offset) else None;
    id < |g| &&
    match g[id]
    case Terminal(accepts) =>
      from < |tokens| && accepts(tokens[from].text) && r == TokenResult(tokens[from]) && to == from + 1
    case List(ids) => r.ListResult? && r.start == start && AreTrees(g, tokens, ids, from, r.children, to)
    case Choice(ids) =>
      && r.ChoiceResult? && r.start == start && r.selected < |ids|
      && IsTree(g, tokens, ids[r.selected], from, r.result, to)
      && forall j :: 0 <= j < r.selected ==> FailsAt(g, tokens, ids[j], from)
    case Optional(child) =>
      if r.NoResult? then to == from && FailsAt(g, tokens, child, from)
      else r.OptionalResult? && r.start == start && IsTree(g, tokens, child, from, r.result, to)
    case Repeat(child) =>
      && r.RepeatResult? && r.start == start && r.children != []
      && AreElements(g, tokens, child, from, r.children, to) && FailsAt(g, tokens, child, to)
  }

  /** One tree for each of the matchers, one after the other. */
  ghost predicate AreTrees(g: Graph, tokens: seq<Token>, ids: seq<nat>, from: nat, rs: seq<ParseResult>, to: nat)
    decreases rs, 1
  {
    if ids == [] then rs == [] && to == from
    else rs != [] && exists mid :: IsTree(g, tokens, ids[0], from, rs[0], mid) && AreTrees(g, tokens, ids[1..], mid, rs[1..], to)
  }

  /** Trees of one matcher, one after the other. */
  ghost predicate AreElements(g: Graph, tokens: seq<Token>, child: nat, from: nat, rs: seq<ParseResult>, to: nat)
    decreases rs, 1
  {
    if rs == [] then to == from
    else exists mid :: IsTree(g, tokens, child, from, rs[0], mid) && AreElements(g, tokens, child, mid, rs[1..], to)
  }

  /** The rules of parsing expressions read exactly the trees of this shape. */
  lemma {:induction false} ReadsExactly(g: Graph, tokens: seq<Token>, id: nat, from: nat, r: ParseResult, to: nat)
    ensures Parses(g, tokens, id, from, Reads(r, to)) <==> IsTree(g, tokens, id, from, r, to)
    decreases r, 2
  {
    hide AreTrees, AreElements, ParsesAll, ParsesMore, ParsesFirst;
    if id < |g| {
      match g[id]
      case Terminal(accepts) =>
      case List(ids) =>
        if r.ListResult? {
          PartsExactly(g, tokens, ids, from, r.children, to);
        }
      case Choice(ids) =>
        if r.ChoiceResult? {
          ChoiceExactly(g, tokens, ids, 0, from, r, to);
        } else {
          OnlyChoices(g, tokens, ids, 0, from, r, to);
        }
      case Optional(child) =>
        if r.OptionalResult? {
          ReadsExactly(g, tokens, child, from, r.result, to);
        }
      case Repeat(child) =>
        if r.RepeatResult? {
          RepeatExactly(g, tokens, id, child, from, r, to);
        }
    }
  }

  /** A sequence reads one tree for each part. */
  lemma {:induction false} PartsExactly(g: Graph, tokens: seq<Token>, ids: seq<nat>, from: nat, rs: seq<ParseResult>, to: nat)
    ensures ParsesAll(g, tokens, ids, from, Whole(rs, to)) <==> AreTrees(g, tokens, ids, from, rs, to)
    decreases rs, 1
  {
    hide Parses, IsTree;
    if ids != [] && rs != [] {
      assert [rs[0]] + rs[1..] == rs;
      if ParsesAll(g, tokens, ids, from, Whole(rs, to)) {
        var o, s :| Parses(g, tokens, ids[0], from, o) && o.Reads? && ParsesAll(g, tokens, ids[1..], o.to, s)
                    && Whole(rs, to) == Joined(o, s);
        assert o.result == rs[0] && s.results == rs[1..];
        ReadsExactly(g, tokens, ids[0], from, rs[0], o.to);
        PartsExactly(g, tokens, ids[1..], o.to, rs[1..], to);
      }
      if AreTrees(g, tokens, ids, from, rs, to) {
        var mid := FirstPart(g, tokens, ids, from, rs, to);
        ReadsExactly(g, tokens, ids[0], from, rs[0], mid);
        PartsExactly(g, tokens, ids[1..], mid, rs[1..], to);
        assert Joined(Reads(rs[0], mid), Whole(rs[1..], to)) == Whole(rs, to);
      }
    }
  }

  lemma FirstPart(g: Graph, tokens: seq<Token>, ids: seq<nat>, from: nat, rs: seq<ParseResult>, to: nat) returns (mid: nat)
    requires ids != [] && AreTrees(g, tokens, ids, from, rs, to)
    ensures rs != [] && IsTree(g, tokens, ids[0], from, rs[0], mid) && AreTrees(g, tokens, ids[1..], mid, rs[1..], to)
  {
    mid :| IsTree(g, tokens, ids[0], from, rs[0], mid) && AreTrees(g, tokens, ids[1..], mid, rs[1..], to);
  }

  /** An ordered choice reads the first alternative that does not fail. */
  lemma {:induction false} ChoiceExactly(g: Graph, tokens: seq<Token>, ids: seq<nat>, i: nat, from: nat, r: ParseResult, to: nat)
    requires r.ChoiceResult?
    ensures ParsesFirst(g, tokens, ids, i, from, Reads(r, to)) <==>
              && r.start == (if from < |tokens| then Some(tokens[from].offset) else None)
              && i <= r.selected < |ids| && IsTree(g, tokens, ids[r.selected], from, r.result, to)
              && forall j :: i <= j < r.selected ==> FailsAt(g, tokens, ids[j], from)
    decreases r, 1, |ids| - i
  {
    hide Parses, IsTree;
    if i < |ids| {
      ReadsExactly(g, tokens, ids[i], from, r.result, to);
      ChoiceExactly(g, tokens, ids, i + 1, from, r, to);
    }
  }

  lemma {:induction false} OnlyChoices(g: Graph, tokens: seq<Token>, ids: seq<nat>, i: nat, from: nat, r: ParseResult, to: nat)
    requires !r.ChoiceResult?
    ensures !ParsesFirst(g, tokens, ids, i, from, Reads(r, to))
    decreases |ids| - i
  {
    hide Parses;
    if i < |ids| {
      OnlyChoices(g, tokens, ids, i + 1, from, r, to);
    }
  }

  /** Further elements are read as long as the element does not fail. */
  lemma {:induction false} MoreExactly(g: Graph, tokens: seq<Token>, child: nat, from: nat, rs: seq<ParseResult>, to: nat)
    ensures ParsesMore(g, tokens, child, from, Whole(rs, to))
       <==> AreElements(g, tokens, child, from, rs, to) && FailsAt(g, tokens, child, to)
    decreases rs, 1
  {
    hide Parses, IsTree;
    if rs != [] {
      assert [rs[0]] + rs[1..] == rs;
      if ParsesMore(g, tokens, child, from, Whole(rs, to)) {
        var o, s :| Parses(g, tokens, child, from, o) && o.Reads? && ParsesMore(g, tokens, child, o.to, s)
                    && Whole(rs, to) == Joined(o, s);
        assert o.result == rs[0] && s.results == rs[1..];
        ReadsExactly(g, tokens, child, from, rs[0], o.to);
        MoreExactly(g, tokens, child, o.to, rs[1..], to);
      }
      if AreElements(g, tokens, child, from, rs, to) {
        var mid := FirstElement(g, tokens, child, from, rs, to);
        ReadsExactly(g, tokens, child, from, rs[0], mid);
        MoreExactly(g, tokens, child, mid, rs[1..], to);
        assert Joined(Reads(rs[0], mid), Whole(rs[1..], to)) == Whole(rs, to);
      }
    } else if ParsesMore(g, tokens, child, from, Whole([], to)) {
      var o :| Parses(g, tokens, child, from, o) && o.Fails? && to == from;
    }
  }

  lemma {:induction false} RepeatExactly(g: Graph, tokens: seq<Token>, id: nat, child: nat, from: nat, r: ParseResult, to: nat)
    requires id < |g| && g[id] == Repeat(child) && r.RepeatResult?
    ensures Parses(g, tokens, id, from, Reads(r, to)) <==> IsTree(g, tokens, id, from, r, to)
    decreases r, 1
  {
    hide ParsesMore, AreElements;
    var start := if from < |tokens| then Some(tokens[from].offset) else None;
    if Parses(g, tokens, id, from, Reads(r, to)) {
      var o, s :| Parses(g, tokens, child, from, o) && o.Reads? && ParsesMore(g, tokens, child, o.to, s) && s.Whole?
                  && Reads(r, to) == Reads(RepeatResult([o.result] + s.results, start), s.to);
      assert r.children[0] == o.result && r.children[1..] == s.results;
      ReadsExactly(g, tokens, child, from, r.children[0], o.to);
      MoreExactly(g, tokens, child, o.to, r.children[1..], to);
      ElementsJoin(g, tokens, child, from, o.result, o.to, s.results, to);
    }
    if IsTree(g, tokens, id, from, r, to) {
      var mid := FirstElement(g, tokens, child, from, r.children, to);
      ReadsExactly(g, tokens, child, from, r.children[0], mid);
      MoreExactly(g, tokens, child, mid, r.children[1..], to);
      assert [r.children[0]] + r.children[1..] == r.children;
    }
  }

  lemma ElementsJoin(g: Graph, tokens: seq<Token>, child: nat, from: nat, r: ParseResult, mid: nat, rs: seq<ParseResult>, to: nat)
    requires IsTree(g, tokens, child, from, r, mid) && AreElements(g, tokens, child, mid, rs, to)
    ensures AreElements(g, tokens, child, from, [r] + rs, to)
  {
    hide IsTree;
    assert ([r] + rs)[1..] == rs;
  }

  lemma FirstElement(g: Graph, tokens: seq<Token>, child: nat, from: nat, rs: seq<ParseResult>, to: nat) returns (mid: nat)
    requires rs != [] && AreElements(g, tokens, child, from, rs, to)
    ensures IsTree(g, tokens, child, from, rs[0], mid) && AreElements(g, tokens, child, mid, rs[1..], to)
  {
    mid :| IsTree(g, tokens, child, from, rs[0], mid) && AreElements(g, tokens, child, mid, rs[1..], to);
  }

  // ---------------------------------------------------------------- failing

  /** A sequence fails at its first part that fails where the parts before it end. */
  ghost predicate BreaksAt(g: Graph, tokens: seq<Token>, ids: seq<nat>, from: nat, k: nat, rs: seq<ParseResult>, mid: nat)
    requires k < |ids|
  {
    AreTrees(g, tokens, ids[..k], from, rs, mid) && FailsAt(g, tokens, ids[k], mid)
  }

  /** Where a matcher fails. */
  lemma FailsExactly(g: Graph, tokens: seq<Token>, id: nat, from: nat)
    requires id < |g|
    ensures FailsAt(g, tokens, id, from) <==>
            match g[id]
            case Terminal(accepts) => !(from < |tokens| && accepts(tokens[from].text))
            case List(ids) => exists k, rs, mid :: 0 <= k < |ids| && BreaksAt(g, tokens, ids, from, k, rs, mid)
            case Choice(ids) => forall k :: 0 <= k < |ids| ==> FailsAt(g, tokens, ids[k], from)
            case Optional(_) => false
            case Repeat(child) => FailsAt(g, tokens, child, from)
  {
    hide ParsesAll, ParsesMore, ParsesFirst, BreaksAt;
    match g[id]
    case Terminal(_) =>
    case List(ids) =>
      BrokenExactly(g, tokens, ids, from);
    case Choice(ids) =>
      AllFail(g, tokens, ids, 0, from);
    case Optional(child) =>
    case Repeat(child) =>
      RepeatFails(g, tokens, id, child, from);
  }

  lemma RepeatFails(g: Graph, tokens: seq<Token>, id: nat, child: nat, from: nat)
    requires id < |g| && g[id] == Repeat(child)
    ensures FailsAt(g, tokens, id, from) <==> FailsAt(g, tokens, child, from)
  {
    hide ParsesMore;
    if FailsAt(g, tokens, id, from) {
      var o :| Parses(g, tokens, child, from, o) &&
               (o.Reads? ==> exists s :: ParsesMore(g, tokens, child, o.to, s) && !s.Whole?);
      if o.Reads? {
        var s :| ParsesMore(g, tokens, child, o.to, s) && !s.Whole?;
        MoreIsWhole(g, tokens, child, o.to, s);
        assert false;
      }
    }
    if FailsAt(g, tokens, child, from) {
      assert Parses(g, tokens, child, from, Fails);
    }
  }

  least lemma MoreIsWhole(g: Graph, tokens: seq<Token>, child: nat, from: nat, out: Sequence)
    requires ParsesMore(g, tokens, child, from, out)
    ensures out.Whole?
  {
    var o :| Parses(g, tokens, child, from, o) &&
             if o.Fails? then out == Whole([], from)
             else exists s :: ParsesMore(g, tokens, child, o.to, s) && out == Joined(o, s);
    if o.Reads? {
      var s :| ParsesMore(g, tokens, child, o.to, s) && out == Joined(o, s);
      MoreIsWhole(g, tokens, child, o.to, s);
    }
  }

  lemma {:induction false} AllFail(g: Graph, tokens: seq<Token>, ids: seq<nat>, i: nat, from: nat)
    ensures ParsesFirst(g, tokens, ids, i, from, Fails) <==> forall k :: i <= k < |ids| ==> FailsAt(g, tokens, ids[k], from)
    decreases |ids| - i
  {
    hide Parses;
    if i < |ids| {
      AllFail(g, tokens, ids, i + 1, from);
      assert FailsAt(g, tokens, ids[i], from) <==> Parses(g, tokens, ids[i], from, Fails);
      assert ParsesFirst(g, tokens, ids, i, from, Fails)
        <==> FailsAt(g, tokens, ids[i], from) && ParsesFirst(g, tokens, ids, i + 1, from, Fails);
    }
  }

  lemma {:induction false} BrokenExactly(g: Graph, tokens: seq<Token>, ids: seq<nat>, from: nat)
    ensures ParsesAll(g, tokens, ids, from, Broken)
       <==> exists k, rs, mid :: 0 <= k < |ids| && BreaksAt(g, tokens, ids, from, k, rs, mid)
    decreases |ids|
  {
    hide Parses, IsTree;
    if ids != [] {
      if ParsesAll(g, tokens, ids, from, Broken) {
        BreaksSomewhere(g, tokens, ids, from);
      }
      if k, rs, mid :| 0 <= k < |ids| && BreaksAt(g, tokens, ids, from, k, rs, mid) {
        BreaksThere(g, tokens, ids, from, k, rs, mid);
      }
    }
  }

  lemma {:induction false} BreaksSomewhere(g: Graph, tokens: seq<Token>, ids: seq<nat>, from: nat)
    requires ParsesAll(g, tokens, ids, from, Broken)
    ensures exists k, rs, mid :: 0 <= k < |ids| && BreaksAt(g, tokens, ids, from, k, rs, mid)
    decreases |ids|, 0
  {
    hide Parses, IsTree;
    var o :| Parses(g, tokens, ids[0], from, o) &&
             (o.Reads? ==> exists s :: ParsesAll(g, tokens, ids[1..], o.to, s) && Broken == Joined(o, s));
    if o.Fails? {
      assert AreTrees(g, tokens, ids[..0], from, [], from);
      assert BreaksAt(g, tokens, ids, from, 0, [], from);
    } else {
      var s :| ParsesAll(g, tokens, ids[1..], o.to, s) && Broken == Joined(o, s);
      assert s == Broken;
      BreaksSomewhere(g, tokens, ids[1..], o.to);
      var k, rs, mid :| 0 <= k < |ids[1..]| && BreaksAt(g, tokens, ids[1..], o.to, k, rs, mid);
      ReadsExactly(g, tokens, ids[0], from, o.result, o.to);
      BreaksLater(g, tokens, ids, from, o.result, o.to, k, rs, mid);
    }
  }

  lemma BreaksLater(g: Graph, tokens: seq<Token>, ids: seq<nat>, from: nat, r: ParseResult, next: nat, k: nat,
                    rs: seq<ParseResult>, mid: nat)
    requires ids != [] && k < |ids[1..]| && IsTree(g, tokens, ids[0], from, r, next)
    requires BreaksAt(g, tokens, ids[1..], next, k, rs, mid)
    ensures BreaksAt(g, tokens, ids, from, k + 1, [r] + rs, mid)
  {
    hide IsTree, FailsAt;
    assert ids[..k + 1][1..] == ids[1..][..k] && ([r] + rs)[1..] == rs;
  }

  lemma {:induction false} BreaksThere(g: Graph, tokens: seq<Token>, ids: seq<nat>, from: nat, k: nat, rs: seq<ParseResult>,
                                       mid: nat)
    requires k < |ids| && BreaksAt(g, tokens, ids, from, k, rs, mid)
    ensures ParsesAll(g, tokens, ids, from, Broken)
    decreases k
  {
    hide Parses, IsTree, FailsAt;
    if k == 0 {
      FailsFirst(g, tokens, ids, from);
    } else {
      var next := FirstPart(g, tokens, ids[..k], from, rs, mid);
      ReadsExactly(g, tokens, ids[0], from, rs[0], next);
      assert ids[..k][1..] == ids[1..][..k - 1];
      BreaksThere(g, tokens, ids[1..], next, k - 1, rs[1..], mid);
      assert Joined(Reads(rs[0], next), Broken) == Broken;
    }
  }

  lemma FailsFirst(g: Graph, tokens: seq<Token>, ids: seq<nat>, from: nat)
    requires ids != [] && FailsAt(g, tokens, ids[0], from)
    ensures ParsesAll(g, tokens, ids, from, Broken)
  {
  }
}
