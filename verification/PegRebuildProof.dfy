/**
 Building the tokens of a rule tree gives a graph that holds the tree, rule by rule.
 */
module PegRebuildProof {
  import opened PegMatcher
  import opened PegBuilder
  import opened PegRebuild

  /** The matchers there are before any rule is compiled: keywords with one of their own are terminals, and no
      cached matcher is a choice. */
  ghost predicate BaseOk(env: Env, nodes: Graph, cache: map<string, nat>) {
    && (forall t :: t in env.overrides ==> env.overrides[t] < |nodes| && nodes[env.overrides[t]].Terminal?)
    && (forall n :: n in cache ==> cache[n] < |nodes| && !nodes[cache[n]].Choice?)
  }

  /** The rules, those that are given apart, are the tokens of printable trees, and mention only rules. */
  ghost predicate GrammarOk(env: Env, trees: Trees, names: set<string>, given: set<string>) {
    forall n :: n in names && n !in given ==>
      n in env.rules && n in trees && env.rules[n] == PrintAll(trees[n]) && AllPrintable(trees[n])
      && forall k :: 0 <= k < |trees[n]| ==> AllNamed(trees[n][k], names)
  }

  /** The trees of the rules, the rule names they may mention, the names that are given from the start, and a set of
      printable items that holds the other rules' trees, and with every item its parts. */
  datatype Table = Table(trees: Trees, names: set<string>, given: set<string>, known: iset<Item>)

  ghost predicate HasParts(table: Table, i: Item) {
    match i
    case Word(_) => true
    case Rule(name) => name in table.names
    case Group(items) => forall k :: 0 <= k < |items| ==> items[k] in table.known
    case ZeroOrOne(j) => j in table.known
    case ZeroOrMore(j) => j in table.known && OneOrMore(j) in table.known
    case OneOrMore(j) => j in table.known
    case Either(options) =>
      && |options| >= 2 && !options[0].Either? && options[0] in table.known
      && forall k :: 1 <= k < |options| ==> IsAtom(options[k]) && options[k] in table.known
  }

  ghost predicate IsClosed(table: Table) { forall i :: i in table.known ==> HasParts(table, i) }

  ghost predicate TableOk(env: Env, table: Table) {
    && IsClosed(table)
    && forall n :: n in table.names && n !in table.given ==>
         n in env.rules && n in table.trees && env.rules[n] == PrintAll(table.trees[n]) && Group(table.trees[n]) in table.known
  }

  ghost predicate Ready(env: Env, table: Table, b: Build) {
    b.Valid() && BaseOk(env, b.nodes, b.cache) && TableOk(env, table) && table.given <= b.cache.Keys
  }

  /** The container on top can take a matcher. */
  predicate Takes(b: Build, i: Item)
    requires b.Valid()
  {
    b.nodes[b.Top()].List? || (b.nodes[b.Top()].Choice? && |b.stack| > 1 && IsAtom(i))
  }

  /** A graph under construction with its cache and its labels. */
  datatype Marked = Marked(nodes: Graph, cache: map<string, nat>, labels: seq<Item>)
  {
    predicate Covered(base: nat) { base <= |nodes| == |labels| }
  }

  function Mark(b: Build, labels: seq<Item>): Marked { Marked(b.nodes, b.cache, labels) }

  ghost predicate LabelsKnown(table: Table, labels: seq<Item>, lo: nat) {
    forall k :: lo <= k < |labels| ==> labels[k] in table.known
  }

  /** The build went on from `m` to `n`: new matchers were made, with labels that say how they are built, rules
      that were compiled on the way are labelled with their trees, and no older matcher but `open` changed. */
  ghost predicate Grows(env: Env, table: Table, base: nat, m: Marked, n: Marked, open: nat) {
    && m.Covered(base) && n.Covered(base) && m.labels <= n.labels && Extends(m.cache, n.cache)
    && Labelled(env, base, n.nodes, n.cache, n.labels, |m.labels|, |n.labels|)
    && LabelsKnown(table, n.labels, |m.labels|)
    && RulesLabelled(table.trees, table.names, base, m.cache, n.cache, n.labels)
    && forall k :: 0 <= k < |m.nodes| && k != open ==> n.nodes[k] == m.nodes[k]
  }

  /** The item gets a matcher of its own: it is no reference, and no keyword that has a matcher already. */
  predicate IsMade(env: Env, i: Item) { !i.Rule? && !(i.Word? && i.text in env.overrides) }

  /** The container on top took the matcher `id`, which fits the item. */
  ghost predicate Took(env: Env, base: nat, f: Build, g: Build, labels: seq<Item>, id: nat, i: Item)
    requires f.Valid() && (f.nodes[f.Top()].List? || f.nodes[f.Top()].Choice?)
  {
    && |f.nodes| <= |g.nodes| && g.nodes[f.Top()] == WithChild(f.nodes[f.Top()], id)
    && g.stack == (if f.nodes[f.Top()].List? then f.stack else f.stack[..|f.stack| - 1])
    && Fits(env, base, g.cache, labels, id, i) && (IsMade(env, i) ==> |f.nodes| <= id < |g.nodes|)
  }

  /** The list on top took matchers for all items. */
  ghost predicate TookAll(env: Env, base: nat, f: Build, g: Build, labels: seq<Item>, ids: seq<nat>, items: seq<Item>)
    requires f.Valid() && f.nodes[f.Top()].List?
  {
    && |f.nodes| <= |g.nodes| && g.nodes[f.Top()] == List(f.nodes[f.Top()].children + ids)
    && g.stack == f.stack && FitAll(env, base, g.cache, labels, ids, items)
  }

  // ---------------------------------------------------------------- small steps

  lemma TokenStep(env: Env, b: Build, t: PegToken, rest: seq<PegToken>)
    requires b.Valid() && BuildToken(env, b, t).Ok?
    ensures BuildTokens(env, b, [t] + rest) == BuildTokens(env, BuildToken(env, b, t).value, rest)
  {
    assert ([t] + rest)[1..] == rest;
  }

  lemma NoTokens(env: Env, b: Build)
    requires b.Valid()
    ensures BuildTokens(env, b, []) == Result.Ok(b)
  {
  }

  lemma PartsAreKnown(env: Env, table: Table, b: Build, i: Item)
    requires Ready(env, table, b) && i in table.known
    ensures HasParts(table, i)
  {
  }

  lemma ItemIsKnown(env: Env, table: Table, b: Build, i: Item)
    requires Ready(env, table, b) && i in table.known && (i.ZeroOrOne? || i.ZeroOrMore? || i.OneOrMore?)
    ensures HasParts(table, i) && i.item in table.known
  {
    PartsAreKnown(env, table, b, i);
  }

  lemma ReadyIsValid(env: Env, table: Table, b: Build)
    requires Ready(env, table, b)
    ensures b.Valid()
  {
  }

  lemma UncachedShrinks(env: Env, cache: map<string, nat>, later: map<string, nat>)
    requires Extends(cache, later)
    ensures Uncached(env, later) == Uncached(env, cache) || Uncached(env, later) < Uncached(env, cache)
  {
  }

  lemma NothingGrows(env: Env, table: Table, base: nat, m: Marked, open: nat)
    requires m.Covered(base)
    ensures Grows(env, table, base, m, m, open)
  {
  }

  lemma GrowsFurther(env: Env, table: Table, base: nat, m: Marked, n: Marked, o: Marked, open: nat)
    requires Grows(env, table, base, m, n, open) && Grows(env, table, base, n, o, open) && open < |m.nodes|
    ensures Grows(env, table, base, m, o, open)
  {
    hide LabelOk;
    LabelledLater(env, base, n.nodes, n.cache, n.labels, |m.labels|, |n.labels|, o.nodes, o.cache, o.labels);
  }

  /** A list that took an item ends with it, and no more rules are left to compile than before. */
  lemma AfterItem(env: Env, table: Table, base: nat, f: Build, fl: seq<Item>, h: Build, hl: seq<Item>, id: nat, i: Item)
    requires f.Valid() && f.nodes[f.Top()].List? && h.Valid() && Took(env, base, f, h, hl, id, i)
    requires Grows(env, table, base, Mark(f, fl), Mark(h, hl), f.Top())
    ensures h.stack == f.stack && LastChild(h) == Result.Ok(id)
    ensures Uncached(env, h.cache) == Uncached(env, f.cache) || Uncached(env, h.cache) < Uncached(env, f.cache)
  {
    hide Labelled, RulesLabelled;
    UncachedShrinks(env, f.cache, h.cache);
  }

  // ---------------------------------------------------------------- words and references

  lemma BuildWord(env: Env, table: Table, base: nat, f: Build, fl: seq<Item>, i: Item, rest: seq<PegToken>)
    returns (g: Build, gl: seq<Item>, id: nat)
    requires Ready(env, table, f) && Takes(f, i) && Mark(f, fl).Covered(base) && i.Word? && i in table.known
    ensures g.Valid() && BuildTokens(env, f, Print(i) + rest) == BuildTokens(env, g, rest)
    ensures Ready(env, table, g) && Took(env, base, f, g, gl, id, i)
    ensures Grows(env, table, base, Mark(f, fl), Mark(g, gl), f.Top())
  {
    hide TableOk, BuildTokens;
    TokenStep(env, f, Literal(i.text), rest);
    id := Keyword(env, f.nodes, i.text).1;
    g := BuildToken(env, f, Literal(i.text)).value;
    gl := if i.text in env.overrides then fl else fl + [i];
  }

  lemma {:induction false} BuildRule(env: Env, table: Table, base: nat, f: Build, fl: seq<Item>, i: Item,
                                     rest: seq<PegToken>)
    returns (g: Build, gl: seq<Item>, id: nat)
    requires Ready(env, table, f) && Takes(f, i) && Mark(f, fl).Covered(base) && i.Rule? && i.name in table.names
    ensures g.Valid() && BuildTokens(env, f, Print(i) + rest) == BuildTokens(env, g, rest)
    ensures Ready(env, table, g) && Took(env, base, f, g, gl, id, i)
    ensures Grows(env, table, base, Mark(f, fl), Mark(g, gl), f.Top())
    decreases Uncached(env, f.cache), 1, i, 0
  {
    hide TableOk, BuildTokens, Compile, LabelOk, RulesLabelled;
    gl := CompileRule(env, table, base, Mark(f, fl), i.name);
    var (nodes, cache, at) := Compile(env, f.nodes, f.cache, i.name).value;
    id := at;
    TokenStep(env, f, Reference(i.name), rest);
    g := BuildToken(env, f, Reference(i.name)).value;
  }

  /** A rule that is known compiles; only new matchers are made, labelled as they are built, and every rule cached
      on the way is labelled with its tree. */
  lemma {:induction false} CompileRule(env: Env, table: Table, base: nat, m: Marked, name: string)
    returns (labels: seq<Item>)
    requires BaseOk(env, m.nodes, m.cache) && TableOk(env, table) && table.given <= m.cache.Keys
    requires name in table.names && m.Covered(base)
    ensures var r := Compile(env, m.nodes, m.cache, name);
            r.Ok? && var (nodes, cache, id) := r.value;
                     && name in cache && cache[name] == id && BaseOk(env, nodes, cache)
                     && Grows(env, table, base, m, Marked(nodes, cache, labels), |m.nodes|)
    decreases Uncached(env, m.cache), 0
  {
    hide AllPrintable, PrintAll, BuildTokens, Grows, Fits;
    if name in m.cache {
      labels := m.labels;
      NothingGrows(env, table, base, m, |m.nodes|);
    } else {
      var id := |m.nodes|;
      var start := Build(m.nodes + [List([])], m.cache[name := id], [id]);
      assert name in Uncached(env, m.cache) && name !in Uncached(env, start.cache);
      var sl := m.labels + [Group(table.trees[name])];
      var done, ids;
      done, labels, ids := BuildItems(env, table, base, start, sl, table.trees[name], []);
      assert PrintAll(table.trees[name]) + [] == PrintAll(table.trees[name]);
      NoTokens(env, done);
      FinishRule(env, table, base, m, start, sl, done, labels, ids, name);
    }
  }

  lemma FinishRule(env: Env, table: Table, base: nat, m: Marked, start: Build, sl: seq<Item>, done: Build, labels: seq<Item>,
                   ids: seq<nat>, name: string)
    requires m.Covered(base) && name in table.names && name in table.trees && Group(table.trees[name]) in table.known
    requires name !in m.cache && sl == m.labels + [Group(table.trees[name])]
    requires start == Build(m.nodes + [List([])], m.cache[name := |m.nodes|], [|m.nodes|])
    requires TookAll(env, base, start, done, labels, ids, table.trees[name])
    requires Grows(env, table, base, Mark(start, sl), Mark(done, labels), |m.nodes|)
    ensures Grows(env, table, base, m, Mark(done, labels), |m.nodes|)
  {
    hide FitAll;
    assert [] + ids == ids;
    assert labels[|m.nodes|] == sl[|m.nodes|] == Group(table.trees[name]);
    assert LabelOk(env, base, done.nodes[|m.nodes|], done.cache, labels, labels[|m.nodes|]);
  }

  // ---------------------------------------------------------------- lists

  lemma {:induction false} BuildItems(env: Env, table: Table, base: nat, f: Build, fl: seq<Item>,
                                      items: seq<Item>, rest: seq<PegToken>)
    returns (g: Build, gl: seq<Item>, ids: seq<nat>)
    requires Ready(env, table, f) && f.nodes[f.Top()].List? && Mark(f, fl).Covered(base)
    requires forall k :: 0 <= k < |items| ==> items[k] in table.known
    ensures g.Valid() && BuildTokens(env, f, PrintAll(items) + rest) == BuildTokens(env, g, rest)
    ensures Ready(env, table, g) && TookAll(env, base, f, g, gl, ids, items)
    ensures Grows(env, table, base, Mark(f, fl), Mark(g, gl), f.Top())
    decreases Uncached(env, f.cache), 1, items, 0
  {
    hide Took, TookAll, Grows, Ready, BuildTokens, Extends;
    ReadyIsValid(env, table, f);
    if items == [] {
      g, gl, ids := f, fl, [];
      assert PrintAll(items) + rest == rest;
      NothingTaken(env, base, f, fl);
      NothingGrows(env, table, base, Mark(f, fl), f.Top());
    } else {
      var h, hl, id := BuildItem(env, table, base, f, fl, items[0], PrintAll(items[1..]) + rest);
      AfterItem(env, table, base, f, fl, h, hl, id, items[0]);
      GrowsCovers(env, table, base, Mark(f, fl), Mark(h, hl), f.Top());
      var others;
      g, gl, others := BuildItems(env, table, base, h, hl, items[1..], rest);
      assert PrintAll(items) + rest == Print(items[0]) + (PrintAll(items[1..]) + rest);
      TookMore(env, table, base, f, h, hl, id, g, gl, others, items);
      GrowsFurther(env, table, base, Mark(f, fl), Mark(h, hl), Mark(g, gl), f.Top());
      ids := [id] + others;
    }
  }

  lemma GrowsCovers(env: Env, table: Table, base: nat, m: Marked, n: Marked, open: nat)
    requires Grows(env, table, base, m, n, open)
    ensures n.Covered(base)
  {
  }

  lemma NothingTaken(env: Env, base: nat, f: Build, fl: seq<Item>)
    requires f.Valid() && f.nodes[f.Top()].List?
    ensures TookAll(env, base, f, f, fl, [], [])
  {
  }

  lemma TookMore(env: Env, table: Table, base: nat, f: Build, h: Build, hl: seq<Item>, id: nat, g: Build, gl: seq<Item>,
                 ids: seq<nat>, items: seq<Item>)
    requires f.Valid() && f.nodes[f.Top()].List? && items != [] && h.Valid() && Took(env, base, f, h, hl, id, items[0])
    requires h.nodes[h.Top()].List? && TookAll(env, base, h, g, gl, ids, items[1..])
    requires Grows(env, table, base, Mark(h, hl), Mark(g, gl), h.Top())
    ensures TookAll(env, base, f, g, gl, [id] + ids, items)
  {
    hide Labelled, RulesLabelled;
    assert g.nodes[f.Top()] == List(f.nodes[f.Top()].children + ([id] + ids));
  }

  // ---------------------------------------------------------------- one item

  lemma {:induction false} BuildItem(env: Env, table: Table, base: nat, f: Build, fl: seq<Item>, i: Item,
                                     rest: seq<PegToken>)
    returns (g: Build, gl: seq<Item>, id: nat)
    requires Ready(env, table, f) && Takes(f, i) && Mark(f, fl).Covered(base) && i in table.known
    ensures g.Valid() && BuildTokens(env, f, Print(i) + rest) == BuildTokens(env, g, rest)
    ensures Ready(env, table, g) && Took(env, base, f, g, gl, id, i)
    ensures Grows(env, table, base, Mark(f, fl), Mark(g, gl), f.Top())
    decreases Uncached(env, f.cache), 1, i, 1
  {
    hide Took, Grows, Ready, Takes;
    PartsAreKnown(env, table, f, i);
    match i
    case Word(_) => g, gl, id := BuildWord(env, table, base, f, fl, i, rest);
    case Rule(_) => g, gl, id := BuildRule(env, table, base, f, fl, i, rest);
    case Group(_) => g, gl, id := BuildGroup(env, table, base, f, fl, i, rest);
    case ZeroOrOne(_) => g, gl, id := BuildPostfix(env, table, base, f, fl, i, rest);
    case ZeroOrMore(_) => g, gl, id := BuildPostfix(env, table, base, f, fl, i, rest);
    case OneOrMore(_) => g, gl, id := BuildPostfix(env, table, base, f, fl, i, rest);
    case Either(_) => g, gl, id := BuildEither(env, table, base, f, fl, i, rest);
  }

  lemma {:induction false} BuildGroup(env: Env, table: Table, base: nat, f: Build, fl: seq<Item>, i: Item,
                                      rest: seq<PegToken>)
    returns (g: Build, gl: seq<Item>, id: nat)
    requires Ready(env, table, f) && Takes(f, i) && Mark(f, fl).Covered(base) && i.Group?
    requires i in table.known
    ensures g.Valid() && BuildTokens(env, f, Print(i) + rest) == BuildTokens(env, g, rest)
    ensures Ready(env, table, g) && Took(env, base, f, g, gl, id, i)
    ensures Grows(env, table, base, Mark(f, fl), Mark(g, gl), f.Top())
    decreases Uncached(env, f.cache), 1, i, 0
  {
    hide TookAll, Took, Ready, Grows, TableOk, AllPrintable, PrintAll, BuildTokens, BuildToken, Takes;
    id := |f.nodes|;
    PartsAreKnown(env, table, f, i);
    EnterGroup(env, table, f);
    var entered, el := Open(f), fl + [i];
    var tokens := PrintAll(i.items) + ([Operator(')')] + rest);
    assert Print(i) + rest == [Operator('(')] + tokens;
    TokenStep(env, f, Operator('('), tokens);
    var h, ids;
    h, gl, ids := BuildItems(env, table, base, entered, el, i.items, [Operator(')')] + rest);
    g := LeaveGroup(env, table, base, f, fl, entered, h, gl, ids, i);
    TokenStep(env, h, Operator(')'), rest);
  }

  lemma EnterGroup(env: Env, table: Table, f: Build)
    requires Ready(env, table, f)
    ensures f.Valid() && Ready(env, table, Open(f)) && Open(f).nodes[Open(f).Top()] == List([])
    ensures BuildToken(env, f, Operator('(')) == Result.Ok(Open(f))
  {
    hide TableOk;
  }

  lemma LeaveGroup(env: Env, table: Table, base: nat, f: Build, fl: seq<Item>, entered: Build, h: Build,
                   hl: seq<Item>, ids: seq<nat>, i: Item)
    returns (g: Build)
    requires i.Group? && i in table.known && Ready(env, table, f) && Takes(f, i) && entered == Open(f) && Mark(f, fl).Covered(base)
    requires Ready(env, table, h) && TookAll(env, base, entered, h, hl, ids, i.items)
    requires Grows(env, table, base, Mark(entered, fl + [i]), Mark(h, hl), |f.nodes|)
    ensures BuildToken(env, h, Operator(')')) == Result.Ok(g) && g.Valid()
    ensures Ready(env, table, g) && Took(env, base, f, g, hl, |f.nodes|, i)
    ensures Grows(env, table, base, Mark(f, fl), Mark(g, hl), f.Top())
  {
    hide TableOk, FitAll, LabelOk, RulesLabelled;
    g := CloseBracket(h).value;
    GroupIsLabelled(env, table, base, f, fl, entered, h, hl, ids, i, g);
  }

  lemma GroupIsLabelled(env: Env, table: Table, base: nat, f: Build, fl: seq<Item>, entered: Build, h: Build, hl: seq<Item>,
                        ids: seq<nat>, i: Item, g: Build)
    requires i.Group? && i in table.known && f.Valid() && entered == Open(f)
    requires h.Valid() && TookAll(env, base, entered, h, hl, ids, i.items)
    requires Mark(f, fl).Covered(base) && Grows(env, table, base, Mark(entered, fl + [i]), Mark(h, hl), |f.nodes|)
    requires |h.nodes| == |g.nodes| && g.cache == h.cache
    requires forall k :: 0 <= k < |h.nodes| && k != f.Top() ==> g.nodes[k] == h.nodes[k]
    ensures Grows(env, table, base, Mark(f, fl), Mark(g, hl), f.Top())
    ensures hl[|f.nodes|] == i
  {
    hide FitAll;
    assert [] + ids == ids;
    assert hl[|f.nodes|] == (fl + [i])[|f.nodes|] == i;
    assert LabelOk(env, base, g.nodes[|f.nodes|], g.cache, hl, i);
    LabelledLater(env, base, h.nodes, h.cache, hl, |fl| + 1, |hl|, g.nodes, g.cache, hl);
  }

  function OperatorOf(i: Item): char
    requires i.ZeroOrOne? || i.ZeroOrMore? || i.OneOrMore?
  {
    if i.ZeroOrOne? then '?' else if i.ZeroOrMore? then '*' else '+'
  }

  lemma {:induction false} BuildPostfix(env: Env, table: Table, base: nat, f: Build, fl: seq<Item>, i: Item,
                                        rest: seq<PegToken>)
    returns (g: Build, gl: seq<Item>, id: nat)
    requires Ready(env, table, f) && Takes(f, i) && Mark(f, fl).Covered(base)
    requires (i.ZeroOrOne? || i.ZeroOrMore? || i.OneOrMore?) && i in table.known
    ensures g.Valid() && BuildTokens(env, f, Print(i) + rest) == BuildTokens(env, g, rest)
    ensures Ready(env, table, g) && Took(env, base, f, g, gl, id, i)
    ensures Grows(env, table, base, Mark(f, fl), Mark(g, gl), f.Top())
    decreases Uncached(env, f.cache), 1, i, 0
  {
    hide Took, Grows, Ready, HasParts, BuildTokens, BuildToken;
    ReadyIsValid(env, table, f);
    ItemIsKnown(env, table, f, i);
    var op := Operator(OperatorOf(i));
    var h, hl, inner := BuildItem(env, table, base, f, fl, i.item, [op] + rest);
    assert Print(i) + rest == Print(i.item) + ([op] + rest);
    g := ApplyPostfix(env, table, base, f, fl, h, hl, inner, i);
    id := |g.nodes| - 1;
    gl := if i.ZeroOrMore? then hl + [OneOrMore(i.item)] + [i] else hl + [i];
    TokenStep(env, h, op, rest);
    PostfixIsLabelled(env, table, base, f, fl, h, hl, inner, g, gl, i);
  }

  lemma ApplyPostfix(env: Env, table: Table, base: nat, f: Build, fl: seq<Item>, h: Build, hl: seq<Item>,
                     inner: nat, i: Item) returns (g: Build)
    requires i.ZeroOrOne? || i.ZeroOrMore? || i.OneOrMore?
    requires f.Valid() && f.nodes[f.Top()].List? && Ready(env, table, h)
    requires Took(env, base, f, h, hl, inner, i.item) && Grows(env, table, base, Mark(f, fl), Mark(h, hl), f.Top())
    ensures BuildToken(env, h, Operator(OperatorOf(i))) == Result.Ok(g) == Postfix(h, OperatorOf(i))
    ensures g.Valid() && Ready(env, table, g) && |g.nodes| > 0
  {
    hide TableOk, Took, Grows;
    AfterItem(env, table, base, f, fl, h, hl, inner, i.item);
    g := Postfix(h, OperatorOf(i)).value;
  }

  /** The matcher of a postfix operator, and the inner one of `*`, are labelled as they are built. */
  ghost predicate IsPostfixOf(h: Build, inner: nat, g: Build, i: Item)
    requires h.Valid() && h.nodes[h.Top()].List? && (i.ZeroOrOne? || i.ZeroOrMore? || i.OneOrMore?)
  {
    var n := |h.nodes|;
    && g.cache == h.cache && |g.nodes| == (if i.ZeroOrMore? then n + 2 else n + 1)
    && (forall k :: 0 <= k < n && k != h.Top() ==> g.nodes[k] == h.nodes[k])
    && (if i.ZeroOrMore? then g.nodes[n] == Repeat(inner) && g.nodes[n + 1] == Optional(n)
        else g.nodes[n] == if i.ZeroOrOne? then Optional(inner) else Repeat(inner))
  }

  lemma PostfixIsLabelled(env: Env, table: Table, base: nat, f: Build, fl: seq<Item>, h: Build, hl: seq<Item>, inner: nat,
                          g: Build, gl: seq<Item>, i: Item)
    requires (i.ZeroOrOne? || i.ZeroOrMore? || i.OneOrMore?) && i in table.known && HasParts(table, i)
    requires f.Valid() && h.Valid() && f.nodes[f.Top()].List? && Took(env, base, f, h, hl, inner, i.item)
    requires Grows(env, table, base, Mark(f, fl), Mark(h, hl), f.Top()) && Postfix(h, OperatorOf(i)) == Result.Ok(g)
    requires gl == if i.ZeroOrMore? then hl + [OneOrMore(i.item)] + [i] else hl + [i]
    ensures Took(env, base, f, g, gl, |g.nodes| - 1, i) && Grows(env, table, base, Mark(f, fl), Mark(g, gl), f.Top())
  {
    hide RulesLabelled, Labelled, FitAll, LabelOk;
    assert IsPostfixOf(h, inner, g, i);
    PostfixGrows(env, table, base, f, fl, h, hl, inner, g, gl, i);
  }

  lemma PostfixGrows(env: Env, table: Table, base: nat, f: Build, fl: seq<Item>, h: Build, hl: seq<Item>, inner: nat,
                     g: Build, gl: seq<Item>, i: Item)
    requires (i.ZeroOrOne? || i.ZeroOrMore? || i.OneOrMore?) && f.Valid() && h.Valid() && h.nodes[h.Top()].List?
    requires i in table.known && HasParts(table, i)
    requires h.stack == f.stack && Fits(env, base, h.cache, hl, inner, i.item) && IsPostfixOf(h, inner, g, i)
    requires Grows(env, table, base, Mark(f, fl), Mark(h, hl), f.Top())
    requires gl == if i.ZeroOrMore? then hl + [OneOrMore(i.item)] + [i] else hl + [i]
    ensures Grows(env, table, base, Mark(f, fl), Mark(g, gl), f.Top())
  {
    hide RulesLabelled, FitAll, LabelOk, Fits;
    PostfixLabelsOk(env, base, h, hl, inner, g, gl, i);
    LabelledLater(env, base, h.nodes, h.cache, hl, |fl|, |hl|, g.nodes, g.cache, gl);
    RulesStayLabelled(table.trees, table.names, base, f.cache, h.cache, hl, gl);
  }

  lemma PostfixLabelsOk(env: Env, base: nat, h: Build, hl: seq<Item>, inner: nat, g: Build, gl: seq<Item>, i: Item)
    requires (i.ZeroOrOne? || i.ZeroOrMore? || i.OneOrMore?) && h.Valid() && h.nodes[h.Top()].List?
    requires Fits(env, base, h.cache, hl, inner, i.item) && IsPostfixOf(h, inner, g, i) && base <= |h.nodes| == |hl|
    requires gl == if i.ZeroOrMore? then hl + [OneOrMore(i.item)] + [i] else hl + [i]
    ensures |gl| == |g.nodes| && forall k :: |hl| <= k < |gl| ==> LabelOk(env, base, g.nodes[k], g.cache, gl, gl[k])
  {
    assert Fits(env, base, g.cache, gl, inner, i.item);
    assert gl[|hl|] == if i.ZeroOrMore? then OneOrMore(i.item) else i;
  }

  lemma RulesStayLabelled(trees: Trees, names: set<string>, base: nat, before: map<string, nat>, cache: map<string, nat>,
                          labels: seq<Item>, later: seq<Item>)
    requires RulesLabelled(trees, names, base, before, cache, labels) && labels <= later
    ensures RulesLabelled(trees, names, base, before, cache, later)
  {
  }

  // ---------------------------------------------------------------- choices

  /** The list on top of `f` took the choice `c`, whose options so far fit. */
  ghost predicate Choosing(env: Env, base: nat, f: Build, g: Build, labels: seq<Item>, c: nat, options: seq<Item>)
    requires f.Valid() && f.nodes[f.Top()].List?
  {
    && |f.nodes| <= c < |g.nodes| && g.stack == f.stack
    && g.nodes[f.Top()] == List(f.nodes[f.Top()].children + [c])
    && g.nodes[c].Choice? && FitAll(env, base, g.cache, labels, g.nodes[c].children, options)
  }

  lemma {:induction false} BuildEither(env: Env, table: Table, base: nat, f: Build, fl: seq<Item>, i: Item,
                                       rest: seq<PegToken>)
    returns (g: Build, gl: seq<Item>, id: nat)
    requires Ready(env, table, f) && Takes(f, i) && Mark(f, fl).Covered(base) && i.Either?
    requires i in table.known
    ensures g.Valid() && BuildTokens(env, f, Print(i) + rest) == BuildTokens(env, g, rest)
    ensures Ready(env, table, g) && Took(env, base, f, g, gl, id, i)
    ensures Grows(env, table, base, Mark(f, fl), Mark(g, gl), f.Top())
    decreases Uncached(env, f.cache), 1, i, 0
  {
    hide Took, Grows, Choosing, TableOk, BuildTokens, BuildToken, PrintOthers, Ready, Takes;
    OnList(env, table, f, i);
    PartsAreKnown(env, table, f, i);
    var options := i.options;
    var tokens := PrintOthers(options[1..]) + rest;
    assert Print(i) + rest == Print(options[0]) + tokens;
    TakesFirst(f, options[0]);
    var h, hl, first := BuildItem(env, table, base, f, fl, options[0], tokens);
    GrowsShrinks(env, table, base, Mark(f, fl), Mark(h, hl), f.Top());
    id := |h.nodes|;
    var c := FirstOption(env, table, base, f, fl, h, hl, first, i);
    var others := PrintOthers(options[2..]) + rest;
    PrintedOthers(options[1..], rest);
    assert options[1..][0] == options[1] && options[1..][1..] == options[2..];
    TokenStep(env, h, Operator('/'), Print(options[1]) + others);
    var q, ql := TakeOption(env, table, base, f, c, hl + [i], id, [options[0]], options[1], others);
    GrowsShrinks(env, table, base, Mark(c, hl + [i]), Mark(q, ql), id);
    g, gl := BuildOthers(env, table, base, f, q, ql, id, [options[0]] + [options[1]], options[2..], rest);
    assert [options[0]] + [options[1]] + options[2..] == options;
    GrowsFurther(env, table, base, Mark(c, hl + [i]), Mark(q, ql), Mark(g, gl), id);
    ChoiceIsLabelled(env, table, base, f, fl, h, hl, c, g, gl, i);
  }

  lemma GrowsShrinks(env: Env, table: Table, base: nat, m: Marked, n: Marked, open: nat)
    requires Grows(env, table, base, m, n, open)
    ensures Uncached(env, n.cache) == Uncached(env, m.cache) || Uncached(env, n.cache) < Uncached(env, m.cache)
    ensures n.Covered(base)
  {
    hide Labelled, RulesLabelled;
    UncachedShrinks(env, m.cache, n.cache);
  }

  lemma OnList(env: Env, table: Table, f: Build, i: Item)
    requires Ready(env, table, f) && Takes(f, i) && !IsAtom(i)
    ensures f.Valid() && f.nodes[f.Top()].List?
  {
  }

  lemma TakesFirst(f: Build, i: Item)
    requires f.Valid() && f.nodes[f.Top()].List?
    ensures Takes(f, i)
  {
  }

  lemma PrintedOthers(options: seq<Item>, rest: seq<PegToken>)
    requires options != []
    ensures PrintOthers(options) + rest == [Operator('/')] + (Print(options[0]) + (PrintOthers(options[1..]) + rest))
  {
  }

  /** An item other than a choice is not built as one. */
  lemma NotAChoice(env: Env, table: Table, base: nat, f: Build, fl: seq<Item>, h: Build, hl: seq<Item>, id: nat, i: Item)
    requires f.Valid() && f.nodes[f.Top()].List? && BaseOk(env, h.nodes, h.cache) && !i.Either?
    requires Took(env, base, f, h, hl, id, i) && Grows(env, table, base, Mark(f, fl), Mark(h, hl), f.Top())
    ensures id < |h.nodes| && !h.nodes[id].Choice?
  {
    hide FitAll, RulesLabelled;
    if IsMade(env, i) {
      assert LabelOk(env, base, h.nodes[id], h.cache, hl, hl[id]);
    }
  }

  /** The choice goes on the stack for its next option. */
  function OnChoice(b: Build, c: nat): Build { b.(stack := b.stack + [c]) }

  /** The last child has become the first option of a new choice. */
  lemma FirstOption(env: Env, table: Table, base: nat, f: Build, fl: seq<Item>, h: Build, hl: seq<Item>,
                    first: nat, i: Item) returns (c: Build)
    requires i.Either? && i.options != [] && !i.options[0].Either? && f.Valid() && f.nodes[f.Top()].List?
    requires Ready(env, table, h) && Took(env, base, f, h, hl, first, i.options[0])
    requires Grows(env, table, base, Mark(f, fl), Mark(h, hl), f.Top())
    ensures c.Valid() && Ready(env, table, c) && BuildToken(env, h, Operator('/')) == Result.Ok(OnChoice(c, |h.nodes|))
    ensures Choosing(env, base, f, c, hl + [i], |h.nodes|, [i.options[0]]) && Mark(c, hl + [i]).Covered(base)
    ensures c.cache == h.cache && |c.nodes| == |h.nodes| + 1
    ensures forall k :: 0 <= k < |h.nodes| && k != f.Top() ==> c.nodes[k] == h.nodes[k]
  {
    hide TableOk, Labelled, RulesLabelled;
    AfterItem(env, table, base, f, fl, h, hl, first, i.options[0]);
    NotAChoice(env, table, base, f, fl, h, hl, first, i.options[0]);
    c := Or(h).value.(stack := f.stack);
  }

  /** With the choice on the stack, the next item becomes its next option. */
  lemma {:induction false} TakeOption(env: Env, table: Table, base: nat, f: Build, g: Build, gl: seq<Item>,
                                      c: nat, options: seq<Item>, i: Item, rest: seq<PegToken>)
    returns (q: Build, ql: seq<Item>)
    requires Ready(env, table, g) && f.Valid() && f.nodes[f.Top()].List? && Mark(g, gl).Covered(base)
    requires Choosing(env, base, f, g, gl, c, options) && IsAtom(i) && i in table.known
    ensures OnChoice(g, c).Valid() && q.Valid()
    ensures BuildTokens(env, OnChoice(g, c), Print(i) + rest) == BuildTokens(env, q, rest)
    ensures Ready(env, table, q) && Choosing(env, base, f, q, ql, c, options + [i])
    ensures Grows(env, table, base, Mark(g, gl), Mark(q, ql), c)
    decreases Uncached(env, g.cache), 1, i, 2
  {
    hide Took, Grows, TableOk, Labelled, FitAll;
    var id;
    q, ql, id := BuildItem(env, table, base, OnChoice(g, c), gl, i, rest);
    OptionTaken(env, table, base, f, g, gl, c, options, q, ql, id, i);
  }

  lemma OptionTaken(env: Env, table: Table, base: nat, f: Build, g: Build, gl: seq<Item>, c: nat, options: seq<Item>,
                    q: Build, ql: seq<Item>, id: nat, i: Item)
    requires f.Valid() && f.nodes[f.Top()].List? && g.Valid() && Choosing(env, base, f, g, gl, c, options)
    requires OnChoice(g, c).Valid() && Took(env, base, OnChoice(g, c), q, ql, id, i)
    requires Grows(env, table, base, Mark(g, gl), Mark(q, ql), c)
    ensures Choosing(env, base, f, q, ql, c, options + [i])
  {
    hide Labelled, RulesLabelled;
    FitsLater(env, base, g.cache, gl, g.nodes[c].children, options, q.cache, ql);
  }

  /** Every further `/` finds the choice again. */
  lemma {:induction false} BuildOthers(env: Env, table: Table, base: nat, f: Build, g: Build, gl: seq<Item>,
                                       c: nat, options: seq<Item>, todo: seq<Item>, rest: seq<PegToken>)
    returns (h: Build, hl: seq<Item>)
    requires Ready(env, table, g) && f.Valid() && f.nodes[f.Top()].List? && Mark(g, gl).Covered(base)
    requires Choosing(env, base, f, g, gl, c, options)
    requires forall k :: 0 <= k < |todo| ==> IsAtom(todo[k]) && todo[k] in table.known
    ensures h.Valid() && BuildTokens(env, g, PrintOthers(todo) + rest) == BuildTokens(env, h, rest)
    ensures Ready(env, table, h) && Choosing(env, base, f, h, hl, c, options + todo)
    ensures Grows(env, table, base, Mark(g, gl), Mark(h, hl), c)
    decreases Uncached(env, g.cache), 1, todo, 0
  {
    hide Grows, Choosing, Ready, TableOk, BuildTokens, BuildToken, PrintOthers;
    ReadyIsValid(env, table, g);
    if todo == [] {
      h, hl := g, gl;
      NothingPrinted(rest);
      assert options + todo == options;
      NothingGrows(env, table, base, Mark(g, gl), c);
    } else {
      var tokens := PrintOthers(todo[1..]) + rest;
      PrintedOthers(todo, rest);
      ChoiceIsFound(env, base, f, g, gl, c, options);
      TokenStep(env, g, Operator('/'), Print(todo[0]) + tokens);
      var q, ql := TakeOption(env, table, base, f, g, gl, c, options, todo[0], tokens);
      GrowsShrinks(env, table, base, Mark(g, gl), Mark(q, ql), c);
      h, hl := BuildOthers(env, table, base, f, q, ql, c, options + [todo[0]], todo[1..], rest);
      assert options + [todo[0]] + todo[1..] == options + todo;
      GrowsFurther(env, table, base, Mark(g, gl), Mark(q, ql), Mark(h, hl), c);
    }
  }

  lemma NothingPrinted(rest: seq<PegToken>)
    ensures PrintOthers([]) + rest == rest
  {
  }

  lemma ChoiceIsFound(env: Env, base: nat, f: Build, g: Build, gl: seq<Item>, c: nat, options: seq<Item>)
    requires f.Valid() && f.nodes[f.Top()].List? && g.Valid() && Choosing(env, base, f, g, gl, c, options)
    ensures BuildToken(env, g, Operator('/')) == Result.Ok(OnChoice(g, c)) && c < |g.nodes|
  {
    hide FitAll;
  }

  /** When all options are there, the choice is built as it was labelled. */
  lemma ChoiceIsLabelled(env: Env, table: Table, base: nat, f: Build, fl: seq<Item>, h: Build, hl: seq<Item>, c: Build,
                         g: Build, gl: seq<Item>, i: Item)
    requires i.Either? && i in table.known && f.Valid() && f.nodes[f.Top()].List?
    requires Grows(env, table, base, Mark(f, fl), Mark(h, hl), f.Top()) && c.cache == h.cache && |c.nodes| == |h.nodes| + 1
    requires forall k :: 0 <= k < |h.nodes| && k != f.Top() ==> c.nodes[k] == h.nodes[k]
    requires Grows(env, table, base, Mark(c, hl + [i]), Mark(g, gl), |h.nodes|)
    requires Choosing(env, base, f, g, gl, |h.nodes|, i.options)
    ensures Took(env, base, f, g, gl, |h.nodes|, i) && Grows(env, table, base, Mark(f, fl), Mark(g, gl), f.Top())
  {
    hide FitAll;
    var id := |h.nodes|;
    assert gl[id] == (hl + [i])[id] == i;
    assert LabelOk(env, base, g.nodes[id], g.cache, gl, i);
    LabelledLater(env, base, h.nodes, h.cache, hl, |fl|, |hl|, g.nodes, g.cache, gl);
    RulesStayLabelled(table.trees, table.names, base, f.cache, h.cache, hl, gl);
  }

  // ---------------------------------------------------------------- the theorems

  /** The list on top took exactly the items' matchers, in order. */
  ghost predicate IsRebuilt(env: Env, b: Build, items: seq<Item>, done: Build)
    requires b.Valid() && b.nodes[b.Top()].List?
  {
    && done.stack == b.stack && b.Top() < |done.nodes| && done.nodes[b.Top()].List?
    && var kept, all := b.nodes[b.Top()].children, done.nodes[b.Top()].children;
       |kept| <= |all| && all[..|kept|] == kept
       && HoldsAll(env, |b.nodes|, done.nodes, done.cache, all[|kept|..], items)
  }

  /** The items that can be printed and mention only the given names. */
  ghost function PrintableTable(trees: Trees, names: set<string>, given: set<string>): Table {
    Table(trees, names, given, iset i: Item | Printable(i) && AllNamed(i, names))
  }

  lemma PrintableHasParts(trees: Trees, names: set<string>, given: set<string>, i: Item)
    requires Printable(i) && AllNamed(i, names)
    ensures HasParts(PrintableTable(trees, names, given), i)
  {
    assert i.ZeroOrMore? ==> Printable(OneOrMore(i.item)) && AllNamed(OneOrMore(i.item), names);
  }

  lemma PrintableTableOk(env: Env, trees: Trees, names: set<string>, given: set<string>)
    requires GrammarOk(env, trees, names, given)
    ensures TableOk(env, PrintableTable(trees, names, given))
  {
    hide PrintAll, HasParts;
    forall i | Printable(i) && AllNamed(i, names)
      ensures HasParts(PrintableTable(trees, names, given), i)
    {
      PrintableHasParts(trees, names, given, i);
    }
  }

  /** Printing items and building the tokens gives the items back, with the stack as it was. */
  lemma TokensRebuildItems(env: Env, trees: Trees, names: set<string>, b: Build, items: seq<Item>)
    requires b.Valid() && b.nodes[b.Top()].List? && BaseOk(env, b.nodes, b.cache)
    requires GrammarOk(env, trees, names, b.cache.Keys)
    requires AllPrintable(items) && forall k :: 0 <= k < |items| ==> AllNamed(items[k], names)
    ensures BuildTokens(env, b, PrintAll(items)).Ok?
    ensures IsRebuilt(env, b, items, BuildTokens(env, b, PrintAll(items)).value)
  {
    hide HoldsAll, FitAll, LabelOk, RulesLabelled, PrintAll;
    var table := PrintableTable(trees, names, b.cache.Keys);
    PrintableTableOk(env, trees, names, b.cache.Keys);
    var labels := seq(|b.nodes|, _ => Word(""));
    var done, dl, ids := BuildItems(env, table, |b.nodes|, b, labels, items, []);
    assert PrintAll(items) + [] == PrintAll(items);
    NoTokens(env, done);
    FittingAllHold(env, |b.nodes|, done.nodes, done.cache, dl, ids, items);
    var kept := b.nodes[b.Top()].children;
    assert (kept + ids)[..|kept|] == kept && (kept + ids)[|kept|..] == ids;
  }

  /** A graph built from printed rules: every matcher that was made is built as its label says, and every rule that
      was cached is labelled with its tree. */
  ghost predicate IsLabelled(env: Env, table: Table, base: nat, before: map<string, nat>, m: Marked) {
    && m.Covered(base) && Labelled(env, base, m.nodes, m.cache, m.labels, base, |m.nodes|)
    && LabelsKnown(table, m.labels, base) && RulesLabelled(table.trees, table.names, base, before, m.cache, m.labels)
  }

  /** Compiling a rule of a printed grammar, recursive or not, succeeds.  Every rule that is then cached and was
      not before is a list that holds the rule's tree, and every rule it mentions is cached too. */
  lemma GrammarRebuilds(env: Env, trees: Trees, names: set<string>, nodes: Graph, cache: map<string, nat>, root: string)
    requires BaseOk(env, nodes, cache) && GrammarOk(env, trees, names, cache.Keys) && root in names
    ensures var r := Compile(env, nodes, cache, root);
            r.Ok? && var (built, rules, id) := r.value;
                     && root in rules && rules[root] == id && Extends(cache, rules) && nodes <= built
                     && rules.Keys <= names + cache.Keys
                     && forall n :: n in rules && n !in cache ==> RuleDone(env, trees, |nodes|, built, rules, n)
  {
    hide RuleDone, Printable, PrintAll, Labelled;
    var table := PrintableTable(trees, names, cache.Keys);
    PrintableTableOk(env, trees, names, cache.Keys);
    var labels := TableRebuilds(env, table, nodes, cache, root);
    var (built, rules, id) := Compile(env, nodes, cache, root).value;
    forall n | n in rules && n !in cache
      ensures RuleDone(env, trees, |nodes|, built, rules, n)
    {
      LabelledRuleIsDone(env, table, |nodes|, cache, Marked(built, rules, labels), n);
    }
  }

  lemma TableRebuilds(env: Env, table: Table, nodes: Graph, cache: map<string, nat>, root: string) returns (labels: seq<Item>)
    requires BaseOk(env, nodes, cache) && TableOk(env, table) && table.given <= cache.Keys && root in table.names
    ensures var r := Compile(env, nodes, cache, root);
            r.Ok? && var (built, rules, id) := r.value;
                     && root in rules && rules[root] == id && Extends(cache, rules) && nodes <= built
                     && IsLabelled(env, table, |nodes|, cache, Marked(built, rules, labels))
  {
    hide LabelOk;
    var m := Marked(nodes, cache, seq(|nodes|, _ => Word("")));
    labels := CompileRule(env, table, |nodes|, m, root);
    assert nodes <= Compile(env, nodes, cache, root).value.0;
  }

  lemma LabelledRuleIsDone(env: Env, table: Table, base: nat, before: map<string, nat>, m: Marked, n: string)
    requires IsLabelled(env, table, base, before, m) && n in m.cache && n !in before
    ensures RuleDone(env, table.trees, base, m.nodes, m.cache, n)
  {
    hide FitAll, HoldsAll;
    assert LabelOk(env, base, m.nodes[m.cache[n]], m.cache, m.labels, m.labels[m.cache[n]]);
    FittingAllHold(env, base, m.nodes, m.cache, m.labels, m.nodes[m.cache[n]].children, table.trees[n]);
  }
}
