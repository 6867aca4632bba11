/**
 Rule trees, their tokens in the builder's own precedence, and what it means that a matcher graph holds a tree.
 A postfix operator or a `/` acts on the whole last element of its list, so a choice needs no brackets before a
 postfix operator, and its alternatives after the first are single words, references or brackets.
 */
module PegRebuild {
  import opened PegMatcher
  import opened PegBuilder

  datatype Item =
    | Word(text: string)
    | Rule(name: string)
    | Group(items: seq<Item>)
    | ZeroOrOne(item: Item)
    | ZeroOrMore(item: Item)
    | OneOrMore(item: Item)
    | Either(options: seq<Item>)

  predicate IsAtom(i: Item) { i.Word? || i.Rule? || i.Group? }

  predicate Printable(i: Item) {
    match i
    case Word(_) => true
    case Rule(_) => true
    case Group(items) => AllPrintable(items)
    case ZeroOrOne(j) => Printable(j)
    case ZeroOrMore(j) => Printable(j)
    case OneOrMore(j) => Printable(j)
    case Either(options) =>
      && |options| >= 2 && !options[0].Either? && AllPrintable(options)
      && forall k :: 1 <= k < |options| ==> IsAtom(options[k])
  }

  predicate AllPrintable(items: seq<Item>) {
    forall k :: 0 <= k < |items| ==> Printable(items[k])
  }

  function Print(i: Item): seq<PegToken> {
    match i
    case Word(text) => [Literal(text)]
    case Rule(name) => [Reference(name)]
    case Group(items) => [Operator('(')] + PrintAll(items) + [Operator(')')]
    case ZeroOrOne(j) => Print(j) + [Operator('?')]
    case ZeroOrMore(j) => Print(j) + [Operator('*')]
    case OneOrMore(j) => Print(j) + [Operator('+')]
    case Either(options) => if options == [] then [] else Print(options[0]) + PrintOthers(options[1..])
  }

  function PrintAll(items: seq<Item>): seq<PegToken> {
    if items == [] then [] else Print(items[0]) + PrintAll(items[1..])
  }

  function PrintOthers(options: seq<Item>): seq<PegToken> {
    if options == [] then [] else [Operator('/')] + Print(options[0]) + PrintOthers(options[1..])
  }

  /** The rule names an item mentions. */
  predicate AllNamed(i: Item, names: set<string>) {
    match i
    case Word(_) => true
    case Rule(name) => name in names
    case Group(items) => forall k :: 0 <= k < |items| ==> AllNamed(items[k], names)
    case ZeroOrOne(j) => AllNamed(j, names)
    case ZeroOrMore(j) => AllNamed(j, names)
    case OneOrMore(j) => AllNamed(j, names)
    case Either(options) => forall k :: 0 <= k < |options| ==> AllNamed(options[k], names)
  }

  type Trees = map<string, seq<Item>>

  // ---------------------------------------------------------------- a graph that holds a tree

  /** The matcher `id` is built like the item.  Its own parts were made from `base` on; a rule reference is the
      very matcher in the cache. */
  ghost predicate Holds(env: Env, base: nat, nodes: Graph, cache: map<string, nat>, id: nat, i: Item)
    decreases i
  {
    match i
    case Word(text) =>
      if text in env.overrides then id == env.overrides[text]
      else base <= id < |nodes| && nodes[id] == Terminal(env.keyword(text))
    case Rule(name) => name in cache && id == cache[name]
    case Group(items) => base <= id < |nodes| && nodes[id].List? && HoldsAll(env, base, nodes, cache, nodes[id].children, items)
    case ZeroOrOne(j) => base <= id < |nodes| && nodes[id].Optional? && Holds(env, base, nodes, cache, nodes[id].child, j)
    case ZeroOrMore(j) =>
      && base <= id < |nodes| && nodes[id].Optional?
      && base <= nodes[id].child < |nodes| && nodes[nodes[id].child].Repeat?
      && Holds(env, base, nodes, cache, nodes[nodes[id].child].child, j)
    case OneOrMore(j) => base <= id < |nodes| && nodes[id].Repeat? && Holds(env, base, nodes, cache, nodes[id].child, j)
    case Either(options) =>
      base <= id < |nodes| && nodes[id].Choice? && HoldsAll(env, base, nodes, cache, nodes[id].children, options)
  }

  ghost predicate HoldsAll(env: Env, base: nat, nodes: Graph, cache: map<string, nat>, ids: seq<nat>, items: seq<Item>)
    decreases items
  {
    |ids| == |items| && forall k :: 0 <= k < |items| ==> Holds(env, base, nodes, cache, ids[k], items[k])
  }

  /** The rule's list holds the rule's items. */
  ghost predicate RuleDone(env: Env, trees: Trees, base: nat, nodes: Graph, cache: map<string, nat>, name: string) {
    && name in trees && name in cache && base <= cache[name] < |nodes| && nodes[cache[name]].List?
    && HoldsAll(env, base, nodes, cache, nodes[cache[name]].children, trees[name])
  }

  // ---------------------------------------------------------------- labels

  /** While a graph is built every matcher made from `base` on is labelled with the item it is made for; the list
      of a rule with all the rule's items.  Here a matcher fits an item by its label alone. */
  ghost predicate Fits(env: Env, base: nat, cache: map<string, nat>, labels: seq<Item>, id: nat, i: Item) {
    match i
    case Rule(name) => name in cache && id == cache[name]
    case Word(text) => if text in env.overrides then id == env.overrides[text] else base <= id < |labels| && labels[id] == i
    case _ => base <= id < |labels| && labels[id] == i
  }

  ghost predicate FitAll(env: Env, base: nat, cache: map<string, nat>, labels: seq<Item>, ids: seq<nat>, items: seq<Item>) {
    |ids| == |items| && forall k :: 0 <= k < |items| ==> Fits(env, base, cache, labels, ids[k], items[k])
  }

  /** The matcher is built as its label says, as far as its own children go. */
  ghost predicate LabelOk(env: Env, base: nat, m: Matcher, cache: map<string, nat>, labels: seq<Item>, i: Item) {
    match i
    case Word(text) => m == Terminal(env.keyword(text))
    case Rule(_) => false
    case Group(items) => m.List? && FitAll(env, base, cache, labels, m.children, items)
    case ZeroOrOne(j) => m.Optional? && Fits(env, base, cache, labels, m.child, j)
    case ZeroOrMore(j) => m.Optional? && Fits(env, base, cache, labels, m.child, OneOrMore(j))
    case OneOrMore(j) => m.Repeat? && Fits(env, base, cache, labels, m.child, j)
    case Either(options) => m.Choice? && FitAll(env, base, cache, labels, m.children, options)
  }

  /** The matchers from `lo` up to `hi` are built as they are labelled. */
  ghost predicate Labelled(env: Env, base: nat, nodes: Graph, cache: map<string, nat>, labels: seq<Item>, lo: nat, hi: nat) {
    && hi <= |labels| == |nodes|
    && forall k :: lo <= k < hi ==> LabelOk(env, base, nodes[k], cache, labels, labels[k])
  }

  /** Every rule that was cached since `before` is one of the names, and labelled with its tree. */
  ghost predicate RulesLabelled(trees: Trees, names: set<string>, base: nat, before: map<string, nat>, cache: map<string, nat>,
                                labels: seq<Item>)
  {
    forall n :: n in cache && n !in before ==>
      n in names && n in trees && base <= cache[n] < |labels| && labels[cache[n]] == Group(trees[n])
  }

  /** When all matchers are built as they are labelled, a matcher that fits an item holds it. */
  lemma {:induction false} FittingHolds(env: Env, base: nat, nodes: Graph, cache: map<string, nat>, labels: seq<Item>, id: nat,
                                        i: Item)
    requires Labelled(env, base, nodes, cache, labels, base, |nodes|) && Fits(env, base, cache, labels, id, i)
    ensures Holds(env, base, nodes, cache, id, i)
    decreases i
  {
    match i
    case Word(_) =>
    case Rule(_) =>
    case Group(items) => FittingAllHold(env, base, nodes, cache, labels, nodes[id].children, items);
    case ZeroOrOne(j) => FittingHolds(env, base, nodes, cache, labels, nodes[id].child, j);
    case ZeroOrMore(j) => FittingHolds(env, base, nodes, cache, labels, nodes[nodes[id].child].child, j);
    case OneOrMore(j) => FittingHolds(env, base, nodes, cache, labels, nodes[id].child, j);
    case Either(options) => FittingAllHold(env, base, nodes, cache, labels, nodes[id].children, options);
  }

  lemma {:induction false} FittingAllHold(env: Env, base: nat, nodes: Graph, cache: map<string, nat>, labels: seq<Item>,
                                          ids: seq<nat>, items: seq<Item>)
    requires Labelled(env, base, nodes, cache, labels, base, |nodes|) && FitAll(env, base, cache, labels, ids, items)
    ensures HoldsAll(env, base, nodes, cache, ids, items)
    decreases items
  {
    forall k | 0 <= k < |items|
      ensures Holds(env, base, nodes, cache, ids[k], items[k])
    {
      FittingHolds(env, base, nodes, cache, labels, ids[k], items[k]);
    }
  }

  /** Labels stay good when matchers are added and rules are cached. */
  lemma FitsLater(env: Env, base: nat, cache: map<string, nat>, labels: seq<Item>, ids: seq<nat>, items: seq<Item>,
                  cacheLater: map<string, nat>, labelsLater: seq<Item>)
    requires FitAll(env, base, cache, labels, ids, items) && Extends(cache, cacheLater) && labels <= labelsLater
    ensures FitAll(env, base, cacheLater, labelsLater, ids, items)
  {
  }

  lemma LabelledLater(env: Env, base: nat, nodes: Graph, cache: map<string, nat>, labels: seq<Item>, lo: nat, hi: nat,
                      later: Graph, cacheLater: map<string, nat>, labelsLater: seq<Item>)
    requires Labelled(env, base, nodes, cache, labels, lo, hi) && |later| == |labelsLater|
    requires Extends(cache, cacheLater) && labels <= labelsLater && forall k :: lo <= k < hi ==> later[k] == nodes[k]
    ensures Labelled(env, base, later, cacheLater, labelsLater, lo, hi)
  {
    forall k | lo <= k < hi
      ensures LabelOk(env, base, later[k], cacheLater, labelsLater, labelsLater[k])
    {
      assert LabelOk(env, base, nodes[k], cache, labels, labels[k]);
    }
  }
}
