/**
 Grammars without left recursion, told on the rule trees, and the proof that a compiled graph is well-formed
 exactly when the trees of the compiled rules are.
 */
module PegCertificate {
  import opened PegMatcher
  import opened PegBuilder
  import opened PegRebuild
  import opened PegRebuildProof

  /** The rules that may read nothing, and an order in which a rule comes after those it may start with. */
  datatype RuleCertificate = RuleCertificate(nullable: set<string>, rank: map<string, nat>)

  predicate MayBeEmpty(c: RuleCertificate, i: Item) {
    match i
    case Word(_) => false
    case Rule(name) => name in c.nullable
    case Group(items) => AllMayBeEmpty(c, items)
    case ZeroOrOne(_) => true
    case ZeroOrMore(_) => true
    case OneOrMore(j) => MayBeEmpty(c, j)
    case Either(options) => exists k :: 0 <= k < |options| && MayBeEmpty(c, options[k])
  }

  predicate AllMayBeEmpty(c: RuleCertificate, items: seq<Item>) {
    forall k :: 0 <= k < |items| ==> MayBeEmpty(c, items[k])
  }

  function Max(a: nat, b: nat): nat { if a < b then b else a }

  /** One more than the highest rank of a rule that the item may start with; in a list that is every element up
      to the first that reads a token. */
  function StartRank(c: RuleCertificate, i: Item): nat {
    match i
    case Word(_) => 0
    case Rule(name) => if name in c.rank then c.rank[name] + 1 else 0
    case Group(items) => StartOfList(c, items)
    case ZeroOrOne(j) => StartRank(c, j)
    case ZeroOrMore(j) => StartRank(c, j)
    case OneOrMore(j) => StartRank(c, j)
    case Either(options) => StartOfAny(c, options)
  }

  function StartOfList(c: RuleCertificate, items: seq<Item>): nat {
    if items == [] then 0
    else if MayBeEmpty(c, items[0]) then Max(StartRank(c, items[0]), StartOfList(c, items[1..]))
    else StartRank(c, items[0])
  }

  function StartOfAny(c: RuleCertificate, options: seq<Item>): nat {
    if options == [] then 0 else Max(StartRank(c, options[0]), StartOfAny(c, options[1..]))
  }

  /** No repeated item may read nothing. */
  predicate RepeatsRead(c: RuleCertificate, i: Item) {
    match i
    case Word(_) => true
    case Rule(_) => true
    case Group(items) => forall k :: 0 <= k < |items| ==> RepeatsRead(c, items[k])
    case ZeroOrOne(j) => RepeatsRead(c, j)
    case ZeroOrMore(j) => RepeatsRead(c, j) && !MayBeEmpty(c, j)
    case OneOrMore(j) => RepeatsRead(c, j) && !MayBeEmpty(c, j)
    case Either(options) => forall k :: 0 <= k < |options| ==> RepeatsRead(c, options[k])
  }

  predicate RuleOk(c: RuleCertificate, name: string, items: seq<Item>) {
    && name in c.rank && StartRank(c, Group(items)) <= c.rank[name] && RepeatsRead(c, Group(items))
    && (AllMayBeEmpty(c, items) ==> name in c.nullable)
  }

  /** None of the rules is left-recursive, and none repeats what may read nothing. */
  predicate RulesOk(c: RuleCertificate, trees: Trees, names: set<string>) {
    forall name :: name in names ==> name in trees && RuleOk(c, name, trees[name])
  }

  // ---------------------------------------------------------------- small facts

  lemma {:induction false} StartsInList(c: RuleCertificate, items: seq<Item>, k: nat)
    requires k < |items| && AllMayBeEmpty(c, items[..k])
    ensures StartRank(c, items[k]) <= StartOfList(c, items)
  {
    if k > 0 {
      assert items[..k][0] == items[0];
      assert items[1..][..k - 1] == items[..k][1..];
      StartsInList(c, items[1..], k - 1);
    }
  }

  lemma {:induction false} StartsInAny(c: RuleCertificate, options: seq<Item>, k: nat)
    requires k < |options|
    ensures StartRank(c, options[k]) <= StartOfAny(c, options)
  {
    if k > 0 {
      StartsInAny(c, options[1..], k - 1);
    }
  }

  /** How deep an item is nested. */
  function Height(i: Item): nat {
    match i
    case Word(_) => 1
    case Rule(_) => 0
    case Group(items) => HighestOf(items) + 1
    case ZeroOrOne(j) => Height(j) + 1
    case ZeroOrMore(j) => Height(j) + 2
    case OneOrMore(j) => Height(j) + 1
    case Either(options) => HighestOf(options) + 1
  }

  function HighestOf(items: seq<Item>): nat {
    if items == [] then 0 else Max(Height(items[0]), HighestOf(items[1..]))
  }

  lemma {:induction false} NotHigher(items: seq<Item>, k: nat)
    requires k < |items|
    ensures Height(items[k]) <= HighestOf(items)
  {
    if k > 0 {
      NotHigher(items[1..], k - 1);
    }
  }

  // ---------------------------------------------------------------- from the trees to the graph

  /** Matchers rank by what their label may start with, and then by its height. */
  function LabelRank(c: RuleCertificate, highest: nat, i: Item): nat {
    StartRank(c, i) * (highest + 1) + Height(i)
  }

  lemma Ranks(a: nat, x: nat, b: nat, y: nat, highest: nat)
    requires (a <= b && x < y) || (a < b && x <= highest)
    ensures a * (highest + 1) + x < b * (highest + 1) + y
  {
    if a < b {
      assert (a + 1) * (highest + 1) <= b * (highest + 1);
    } else {
      assert a == b;
    }
  }

  /** The certificate of a labelled graph. */
  ghost function GraphCertificate(c: RuleCertificate, base: nat, labels: seq<Item>): Certificate {
    var highest := HighestOf(labels);
    Certificate(set k | base <= k < |labels| && MayBeEmpty(c, labels[k]),
                seq(|labels|, k requires 0 <= k < |labels| => if k < base then 0 else LabelRank(c, highest, labels[k])))
  }

  /** What compiling starts from: matchers of one token. */
  ghost predicate AllTerminals(nodes: Graph) { forall k :: 0 <= k < |nodes| ==> nodes[k].Terminal? }

  /** A graph under construction that is complete: all matchers are built as labelled. */
  ghost predicate Complete(env: Env, table: Table, c: RuleCertificate, nodes: Graph, cache: map<string, nat>, m: Marked) {
    && nodes <= m.nodes && AllTerminals(nodes) && BaseOk(env, nodes, cache) && Extends(cache, m.cache)
    && IsLabelled(env, table, |nodes|, cache, m) && (forall i :: i in table.known ==> RepeatsRead(c, i))
    && forall name :: name in m.cache && name !in cache ==> name in table.trees && RuleOk(c, name, table.trees[name])
  }

  /** A matcher that fits an item ranks no higher than the item, and reads nothing only if the item may. */
  lemma FittingRanks(env: Env, table: Table, c: RuleCertificate, nodes: Graph, cache: map<string, nat>, m: Marked, id: nat, i: Item)
    requires Complete(env, table, c, nodes, cache, m) && Fits(env, |nodes|, m.cache, m.labels, id, i)
    ensures id < |m.nodes|
    ensures GraphCertificate(c, |nodes|, m.labels).rank[id] <= LabelRank(c, HighestOf(m.labels), i)
    ensures GraphCertificate(c, |nodes|, m.labels).Nullable(id) ==> MayBeEmpty(c, i)
  {
    hide LabelOk, RepeatsRead;
    if i.Rule? && i.name !in cache {
      var group := Group(table.trees[i.name]);
      assert m.labels[id] == group;
      NotHigher(m.labels, id);
      Ranks(StartRank(c, group), Height(group), StartRank(c, i), 0, HighestOf(m.labels));
    }
  }

  /** The part of a label that may be started with ranks below it. */
  lemma PartIsBelow(env: Env, table: Table, c: RuleCertificate, nodes: Graph, cache: map<string, nat>, m: Marked, k: nat,
                    id: nat, part: Item)
    requires Complete(env, table, c, nodes, cache, m) && |nodes| <= k < |m.nodes|
    requires Fits(env, |nodes|, m.cache, m.labels, id, part)
    requires StartRank(c, part) <= StartRank(c, m.labels[k]) && Height(part) < Height(m.labels[k])
    ensures Below(m.nodes, GraphCertificate(c, |nodes|, m.labels), id, k)
  {
    hide Complete, LabelRank;
    CompleteIsCovered(env, table, c, nodes, cache, m);
    FittingRanks(env, table, c, nodes, cache, m, id, part);
    RankBelow(c, HighestOf(m.labels), part, m.labels[k]);
  }

  lemma CompleteIsCovered(env: Env, table: Table, c: RuleCertificate, nodes: Graph, cache: map<string, nat>, m: Marked)
    requires Complete(env, table, c, nodes, cache, m)
    ensures m.Covered(|nodes|)
  {
  }

  lemma RankBelow(c: RuleCertificate, highest: nat, part: Item, i: Item)
    requires StartRank(c, part) <= StartRank(c, i) && Height(part) < Height(i)
    ensures LabelRank(c, highest, part) < LabelRank(c, highest, i)
  {
    Ranks(StartRank(c, part), Height(part), StartRank(c, i), Height(i), highest);
  }

  lemma ListNodeOk(env: Env, table: Table, c: RuleCertificate, nodes: Graph, cache: map<string, nat>, m: Marked, k: nat)
    requires Complete(env, table, c, nodes, cache, m) && |nodes| <= k < |m.nodes| && m.labels[k].Group?
    requires LabelOk(env, |nodes|, m.nodes[k], m.cache, m.labels, m.labels[k])
    ensures |m.labels| == |m.nodes| && NodeOk(m.nodes, GraphCertificate(c, |nodes|, m.labels), k)
  {
    hide Complete, Fits, GraphCertificate, Below;
    CompleteIsCovered(env, table, c, nodes, cache, m);
    var gc, ids, items := GraphCertificate(c, |nodes|, m.labels), m.nodes[k].children, m.labels[k].items;
    forall j | 0 <= j < |ids|
      ensures ids[j] < |m.nodes| && (gc.Nullable(ids[j]) ==> MayBeEmpty(c, items[j]))
    {
      FittingRanks(env, table, c, nodes, cache, m, ids[j], items[j]);
    }
    forall j | 0 <= j < |ids| && AllNullable(gc, ids, j)
      ensures Below(m.nodes, gc, ids[j], k)
    {
      StartsInList(c, items, j);
      NotHigher(items, j);
      PartIsBelow(env, table, c, nodes, cache, m, k, ids[j], items[j]);
    }
    NullableLabel(c, |nodes|, m.labels, k);
  }

  lemma NullableLabel(c: RuleCertificate, base: nat, labels: seq<Item>, k: nat)
    requires base <= k < |labels|
    ensures |GraphCertificate(c, base, labels).rank| == |labels|
    ensures GraphCertificate(c, base, labels).Nullable(k) <==> MayBeEmpty(c, labels[k])
  {
  }

  lemma ChoiceNodeOk(env: Env, table: Table, c: RuleCertificate, nodes: Graph, cache: map<string, nat>, m: Marked, k: nat)
    requires Complete(env, table, c, nodes, cache, m) && |nodes| <= k < |m.nodes| && m.labels[k].Either?
    requires LabelOk(env, |nodes|, m.nodes[k], m.cache, m.labels, m.labels[k])
    ensures |m.labels| == |m.nodes| && NodeOk(m.nodes, GraphCertificate(c, |nodes|, m.labels), k)
  {
    hide Complete, Fits, GraphCertificate, Below;
    CompleteIsCovered(env, table, c, nodes, cache, m);
    var gc, ids, options := GraphCertificate(c, |nodes|, m.labels), m.nodes[k].children, m.labels[k].options;
    NullableLabel(c, |nodes|, m.labels, k);
    forall j | 0 <= j < |ids|
      ensures Below(m.nodes, gc, ids[j], k) && (gc.Nullable(ids[j]) ==> gc.Nullable(k))
    {
      FittingRanks(env, table, c, nodes, cache, m, ids[j], options[j]);
      StartsInAny(c, options, j);
      NotHigher(options, j);
      PartIsBelow(env, table, c, nodes, cache, m, k, ids[j], options[j]);
    }
  }

  lemma PostfixNodeOk(env: Env, table: Table, c: RuleCertificate, nodes: Graph, cache: map<string, nat>, m: Marked, k: nat,
                      part: Item)
    requires Complete(env, table, c, nodes, cache, m) && |nodes| <= k < |m.nodes| && (m.nodes[k].Optional? || m.nodes[k].Repeat?)
    requires Fits(env, |nodes|, m.cache, m.labels, m.nodes[k].child, part)
    requires StartRank(c, part) <= StartRank(c, m.labels[k]) && Height(part) < Height(m.labels[k])
    requires if m.nodes[k].Optional? then MayBeEmpty(c, m.labels[k]) else !MayBeEmpty(c, part)
    ensures |m.labels| == |m.nodes| && NodeOk(m.nodes, GraphCertificate(c, |nodes|, m.labels), k)
  {
    hide Complete, Fits, GraphCertificate, Below;
    CompleteIsCovered(env, table, c, nodes, cache, m);
    FittingRanks(env, table, c, nodes, cache, m, m.nodes[k].child, part);
    PartIsBelow(env, table, c, nodes, cache, m, k, m.nodes[k].child, part);
    NullableLabel(c, |nodes|, m.labels, k);
  }

  /** The graph is well-formed as the rule trees are. */
  lemma LabelledIsWellFormed(env: Env, table: Table, c: RuleCertificate, nodes: Graph, cache: map<string, nat>, m: Marked)
    requires Complete(env, table, c, nodes, cache, m)
    ensures WellFormed(m.nodes, GraphCertificate(c, |nodes|, m.labels))
  {
    hide NodeOk, Fits, MayBeEmpty, StartRank, Height;
    forall k | 0 <= k < |m.nodes|
      ensures NodeOk(m.nodes, GraphCertificate(c, |nodes|, m.labels), k)
    {
      if k >= |nodes| {
        LabelledNodeOk(env, table, c, nodes, cache, m, k);
      } else {
        TerminalOk(m.nodes, GraphCertificate(c, |nodes|, m.labels), k);
      }
    }
  }

  lemma TerminalOk(g: Graph, c: Certificate, k: nat)
    requires k < |g| == |c.rank| && g[k].Terminal?
    ensures NodeOk(g, c, k)
  {
  }

  lemma LabelledNodeOk(env: Env, table: Table, c: RuleCertificate, nodes: Graph, cache: map<string, nat>, m: Marked, k: nat)
    requires Complete(env, table, c, nodes, cache, m) && |nodes| <= k < |m.nodes|
    ensures |m.labels| == |m.nodes| && NodeOk(m.nodes, GraphCertificate(c, |nodes|, m.labels), k)
  {
    hide BaseOk, NodeOk, Fits, FitAll, RuleOk;
    var i := m.labels[k];
    assert LabelOk(env, |nodes|, m.nodes[k], m.cache, m.labels, i) && RepeatsRead(c, i);
    match i
    case Word(_) => TerminalOk(m.nodes, GraphCertificate(c, |nodes|, m.labels), k);
    case Rule(_) => assert false;
    case Group(_) => ListNodeOk(env, table, c, nodes, cache, m, k);
    case ZeroOrOne(j) => PostfixNodeOk(env, table, c, nodes, cache, m, k, j);
    case ZeroOrMore(j) => PostfixNodeOk(env, table, c, nodes, cache, m, k, OneOrMore(j));
    case OneOrMore(j) => PostfixNodeOk(env, table, c, nodes, cache, m, k, j);
    case Either(_) => ChoiceNodeOk(env, table, c, nodes, cache, m, k);
  }

  // ---------------------------------------------------------------- from the graph to the trees

  /** What a certificate of the graph says of the rules. */
  ghost function RulesCertificate(gc: Certificate, rules: map<string, nat>): RuleCertificate
    requires forall name :: name in rules ==> rules[name] < |gc.rank|
  {
    RuleCertificate(set name | name in rules && gc.Nullable(rules[name]), map name | name in rules :: gc.rank[rules[name]])
  }

  /** A well-formed graph and its rules. */
  ghost predicate Fine(g: Graph, gc: Certificate, rules: map<string, nat>) {
    WellFormed(g, gc) && forall name :: name in rules ==> rules[name] < |g|
  }

  /** The matcher ranks at least as high as the rules the item starts with, may read nothing when the item may,
      and the item repeats nothing that may be empty. */
  ghost predicate Ranked(c: RuleCertificate, gc: Certificate, id: nat, i: Item) {
    && id < |gc.rank| && (MayBeEmpty(c, i) ==> gc.Nullable(id)) && RepeatsRead(c, i)
    && StartRank(c, i) <= if i.Rule? then gc.rank[id] + 1 else gc.rank[id]
  }

  ghost predicate AllRanked(c: RuleCertificate, gc: Certificate, ids: seq<nat>, items: seq<Item>) {
    |ids| == |items| && forall k :: 0 <= k < |items| ==> Ranked(c, gc, ids[k], items[k])
  }

  ghost predicate RanksBelow(gc: Certificate, id: nat, bound: nat) { id < |gc.rank| && gc.rank[id] < bound }

  lemma {:induction false} ListRanked(c: RuleCertificate, gc: Certificate, ids: seq<nat>, items: seq<Item>, bound: nat)
    requires AllRanked(c, gc, ids, items)
    requires forall k :: 0 <= k < |ids| && AllNullable(gc, ids, k) ==> RanksBelow(gc, ids[k], bound)
    ensures StartOfList(c, items) <= bound
    ensures AllMayBeEmpty(c, items) ==> AllNullable(gc, ids, |ids|)
  {
    if items != [] {
      assert Ranked(c, gc, ids[0], items[0]) && AllNullable(gc, ids, 0);
      forall k | MayBeEmpty(c, items[0]) && 0 <= k < |ids| - 1 && AllNullable(gc, ids[1..], k)
        ensures RanksBelow(gc, ids[1..][k], bound)
      {
        assert AllNullable(gc, ids, k + 1);
      }
      if MayBeEmpty(c, items[0]) {
        ListRanked(c, gc, ids[1..], items[1..], bound);
      }
    }
  }

  lemma {:induction false} AnyRanked(c: RuleCertificate, gc: Certificate, ids: seq<nat>, options: seq<Item>, bound: nat)
    requires AllRanked(c, gc, ids, options) && forall k :: 0 <= k < |ids| ==> RanksBelow(gc, ids[k], bound)
    ensures StartOfAny(c, options) <= bound
  {
    if options != [] {
      assert Ranked(c, gc, ids[0], options[0]);
      AnyRanked(c, gc, ids[1..], options[1..], bound);
    }
  }

  lemma {:induction false} HoldingIsRanked(env: Env, base: nat, g: Graph, rules: map<string, nat>, gc: Certificate, id: nat, i: Item)
    requires Fine(g, gc, rules) && Holds(env, base, g, rules, id, i) && id < |g|
    ensures Ranked(RulesCertificate(gc, rules), gc, id, i)
    decreases i
  {
    hide StartOfList, StartOfAny, Ranked;
    assert NodeOk(g, gc, id);
    var c := RulesCertificate(gc, rules);
    match i
    case Word(_) => WordIsRanked(c, gc, id, i);
    case Rule(_) => RuleIsRanked(g, rules, gc, i);
    case Group(items) =>
      HoldingAllRanked(env, base, g, rules, gc, id, items);
      GroupIsRanked(c, g, gc, id, items);
    case ZeroOrOne(j) =>
      HoldingIsRanked(env, base, g, rules, gc, g[id].child, j);
      PostfixIsRanked(c, g, gc, id, j, i);
    case ZeroOrMore(j) =>
      var repeat := g[id].child;
      assert NodeOk(g, gc, repeat);
      HoldingIsRanked(env, base, g, rules, gc, g[repeat].child, j);
      PostfixIsRanked(c, g, gc, repeat, j, OneOrMore(j));
      PostfixIsRanked(c, g, gc, id, OneOrMore(j), i);
    case OneOrMore(j) =>
      HoldingIsRanked(env, base, g, rules, gc, g[id].child, j);
      PostfixIsRanked(c, g, gc, id, j, i);
    case Either(options) =>
      HoldingAllRanked(env, base, g, rules, gc, id, options);
      EitherIsRanked(c, g, gc, id, options);
  }

  lemma {:induction false} HoldingAllRanked(env: Env, base: nat, g: Graph, rules: map<string, nat>, gc: Certificate, id: nat,
                                            items: seq<Item>)
    requires Fine(g, gc, rules) && id < |g| && (g[id].List? || g[id].Choice?)
    requires HoldsAll(env, base, g, rules, g[id].children, items)
    ensures AllRanked(RulesCertificate(gc, rules), gc, g[id].children, items)
    decreases items
  {
    hide Ranked, Holds;
    assert NodeOk(g, gc, id);
    forall k | 0 <= k < |items|
      ensures Ranked(RulesCertificate(gc, rules), gc, g[id].children[k], items[k])
    {
      HoldingIsRanked(env, base, g, rules, gc, g[id].children[k], items[k]);
    }
  }

  lemma WordIsRanked(c: RuleCertificate, gc: Certificate, id: nat, i: Item)
    requires i.Word? && id < |gc.rank|
    ensures Ranked(c, gc, id, i)
  {
  }

  lemma RuleIsRanked(g: Graph, rules: map<string, nat>, gc: Certificate, i: Item)
    requires i.Rule? && i.name in rules && Fine(g, gc, rules)
    ensures Ranked(RulesCertificate(gc, rules), gc, rules[i.name], i)
  {
  }

  lemma GroupIsRanked(c: RuleCertificate, g: Graph, gc: Certificate, id: nat, items: seq<Item>)
    requires |g| == |gc.rank| && id < |g| && g[id].List? && NodeOk(g, gc, id) && AllRanked(c, gc, g[id].children, items)
    ensures Ranked(c, gc, id, Group(items))
  {
    ListRanked(c, gc, g[id].children, items, gc.rank[id]);
  }

  lemma EitherIsRanked(c: RuleCertificate, g: Graph, gc: Certificate, id: nat, options: seq<Item>)
    requires |g| == |gc.rank| && id < |g| && g[id].Choice? && NodeOk(g, gc, id) && AllRanked(c, gc, g[id].children, options)
    ensures Ranked(c, gc, id, Either(options))
  {
    AnyRanked(c, gc, g[id].children, options, gc.rank[id]);
  }

  lemma PostfixIsRanked(c: RuleCertificate, g: Graph, gc: Certificate, id: nat, j: Item, i: Item)
    requires |g| == |gc.rank| && id < |g| && NodeOk(g, gc, id) && (g[id].Optional? || g[id].Repeat?)
    requires Ranked(c, gc, g[id].child, j)
    requires if g[id].Repeat? then i == OneOrMore(j) else i == ZeroOrOne(j) || (j.OneOrMore? && i == ZeroOrMore(j.item))
    ensures Ranked(c, gc, id, i)
  {
  }

  // ---------------------------------------------------------------- the theorem

  lemma {:induction false} HoldingIsNamed(env: Env, base: nat, g: Graph, rules: map<string, nat>, id: nat, i: Item)
    requires Holds(env, base, g, rules, id, i)
    ensures AllNamed(i, rules.Keys)
    decreases i
  {
    match i
    case Word(_) =>
    case Rule(_) =>
    case Group(items) => HoldingAllNamed(env, base, g, rules, g[id].children, items);
    case ZeroOrOne(j) => HoldingIsNamed(env, base, g, rules, g[id].child, j);
    case ZeroOrMore(j) => HoldingIsNamed(env, base, g, rules, g[g[id].child].child, j);
    case OneOrMore(j) => HoldingIsNamed(env, base, g, rules, g[id].child, j);
    case Either(options) => HoldingAllNamed(env, base, g, rules, g[id].children, options);
  }

  lemma {:induction false} HoldingAllNamed(env: Env, base: nat, g: Graph, rules: map<string, nat>, ids: seq<nat>, items: seq<Item>)
    requires HoldsAll(env, base, g, rules, ids, items)
    ensures forall k :: 0 <= k < |items| ==> AllNamed(items[k], rules.Keys)
    decreases items
  {
    forall k | 0 <= k < |items|
      ensures AllNamed(items[k], rules.Keys)
    {
      HoldingIsNamed(env, base, g, rules, ids[k], items[k]);
    }
  }

  /** The items that can be printed, mention only the given names, and repeat nothing that may be empty. */
  ghost function FineTable(c: RuleCertificate, trees: Trees, names: set<string>, given: set<string>): Table {
    Table(trees, names, given, iset i: Item | Printable(i) && AllNamed(i, names) && RepeatsRead(c, i))
  }

  lemma FineHasParts(c: RuleCertificate, trees: Trees, names: set<string>, given: set<string>, i: Item)
    requires Printable(i) && AllNamed(i, names) && RepeatsRead(c, i)
    ensures HasParts(FineTable(c, trees, names, given), i)
  {
    assert i.ZeroOrMore? ==> Printable(OneOrMore(i.item)) && AllNamed(OneOrMore(i.item), names) && RepeatsRead(c, OneOrMore(i.item));
  }

  /** The compiled rules are those that are cached at the end and were not at the start. */
  lemma FineTableOk(env: Env, trees: Trees, names: set<string>, c: RuleCertificate, base: nat, built: Graph,
                    cache: map<string, nat>, rules: map<string, nat>)
    requires GrammarOk(env, trees, names, cache.Keys) && rules.Keys <= names + cache.Keys
    requires RulesOk(c, trees, rules.Keys - cache.Keys)
    requires forall n :: n in rules && n !in cache ==> RuleDone(env, trees, base, built, rules, n)
    ensures TableOk(env, FineTable(c, trees, rules.Keys, cache.Keys))
  {
    hide HasParts, Holds, HoldsAll, PrintAll;
    var table := FineTable(c, trees, rules.Keys, cache.Keys);
    forall i | i in table.known
      ensures HasParts(table, i)
    {
      FineHasParts(c, trees, rules.Keys, cache.Keys, i);
    }
    forall n | n in rules && n !in cache
      ensures Group(trees[n]) in table.known
    {
      assert RuleDone(env, trees, base, built, rules, n);
      HoldingAllNamed(env, base, built, rules, built[rules[n]].children, trees[n]);
    }
  }

  /** When none of the compiled rules is left-recursive or repeats what may be empty, the compiled graph is
      well-formed. */
  lemma RulesMakeWellFormed(env: Env, trees: Trees, names: set<string>, nodes: Graph, cache: map<string, nat>, root: string,
                            c: RuleCertificate)
    returns (gc: Certificate)
    requires BaseOk(env, nodes, cache) && AllTerminals(nodes) && GrammarOk(env, trees, names, cache.Keys)
    requires root in names
    requires Compile(env, nodes, cache, root).Ok?
    requires RulesOk(c, trees, Compile(env, nodes, cache, root).value.1.Keys - cache.Keys)
    ensures WellFormed(Compile(env, nodes, cache, root).value.0, gc)
  {
    hide TableOk, RuleOk, RuleDone, Compile, GrammarOk, IsLabelled, WellFormed;
    GrammarRebuilds(env, trees, names, nodes, cache, root);
    var (built, rules, id) := Compile(env, nodes, cache, root).value;
    var table := FineTable(c, trees, rules.Keys, cache.Keys);
    FineTableOk(env, trees, names, c, |nodes|, built, cache, rules);
    var labels := TableRebuilds(env, table, nodes, cache, root);
    var m := Marked(built, rules, labels);
    gc := GraphCertificate(c, |nodes|, labels);
    LabelledIsWellFormed(env, table, c, nodes, cache, m);
  }

  /** When the compiled graph is well-formed, none of the compiled rules is left-recursive or repeats what may be
      empty. */
  lemma WellFormedMakesRules(env: Env, trees: Trees, names: set<string>, nodes: Graph, cache: map<string, nat>, root: string,
                             gc: Certificate)
    returns (c: RuleCertificate)
    requires BaseOk(env, nodes, cache) && GrammarOk(env, trees, names, cache.Keys)
    requires root in names
    requires Compile(env, nodes, cache, root).Ok? && WellFormed(Compile(env, nodes, cache, root).value.0, gc)
    ensures RulesOk(c, trees, Compile(env, nodes, cache, root).value.1.Keys - cache.Keys)
  {
    hide RuleOk, RuleDone, Compile, GrammarOk, WellFormed, BaseOk;
    GrammarRebuilds(env, trees, names, nodes, cache, root);
    var (built, rules, id) := Compile(env, nodes, cache, root).value;
    RulesAreFine(env, trees, nodes, built, cache, rules, gc);
    c := RulesCertificate(gc, rules);
    forall n | n in rules && n !in cache
      ensures n in trees && RuleOk(c, n, trees[n])
    {
      DoneRuleIsOk(env, trees, |nodes|, built, rules, gc, n);
    }
  }

  lemma RulesAreFine(env: Env, trees: Trees, nodes: Graph, built: Graph, cache: map<string, nat>, rules: map<string, nat>,
                     gc: Certificate)
    requires BaseOk(env, nodes, cache) && nodes <= built && Extends(cache, rules) && WellFormed(built, gc)
    requires forall n :: n in rules && n !in cache ==> RuleDone(env, trees, |nodes|, built, rules, n)
    ensures Fine(built, gc, rules) && |gc.rank| == |built|
  {
    hide HoldsAll;
  }

  lemma DoneRuleIsOk(env: Env, trees: Trees, base: nat, g: Graph, rules: map<string, nat>, gc: Certificate, n: string)
    requires Fine(g, gc, rules) && |gc.rank| == |g| && RuleDone(env, trees, base, g, rules, n)
    ensures n in trees && RuleOk(RulesCertificate(gc, rules), n, trees[n])
  {
    HoldingIsRanked(env, base, g, rules, gc, rules[n], Group(trees[n]));
  }

  ghost predicate IsWellFormed(g: Graph) { exists gc :: WellFormed(g, gc) }

  ghost predicate AreWellFormed(trees: Trees, names: set<string>) { exists c :: RulesOk(c, trees, names) }

  /** A compiled graph is well-formed exactly when the trees of the compiled rules are: no compiled rule is
      left-recursive, and none repeats what may be empty. */
  lemma WellFormedExactly(env: Env, trees: Trees, names: set<string>, nodes: Graph, cache: map<string, nat>, root: string)
    requires BaseOk(env, nodes, cache) && AllTerminals(nodes) && GrammarOk(env, trees, names, cache.Keys)
    requires root in names
    ensures Compile(env, nodes, cache, root).Ok?
    ensures var (built, rules, id) := Compile(env, nodes, cache, root).value;
            IsWellFormed(built) <==> AreWellFormed(trees, rules.Keys - cache.Keys)
  {
    hide RulesOk, Compile, GrammarOk, WellFormed, BaseOk, RuleDone;
    GrammarRebuilds(env, trees, names, nodes, cache, root);
    var (built, rules, id) := Compile(env, nodes, cache, root).value;
    if gc :| WellFormed(built, gc) {
      var c := WellFormedMakesRules(env, trees, names, nodes, cache, root, gc);
    }
    if c :| RulesOk(c, trees, rules.Keys - cache.Keys) {
      var gc := RulesMakeWellFormed(env, trees, names, nodes, cache, root, c);
    }
  }
}
