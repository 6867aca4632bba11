/**
 Left recursion told on a rule table: which rules may read nothing, which rules a rule may start with, and that
 a table without left recursion is one that has a certificate.
 */
module PegLeftRecursion {
  import opened PegRebuild
  import opened PegCertificate

  // ---------------------------------------------------------------- rules that may read nothing

  /** A set of rules that holds every rule that may read nothing if those in the set may. */
  predicate IsClosedUnder(trees: Trees, names: set<string>, s: set<string>) {
    forall n :: n in names && n in trees && AllMayBeEmpty(Given(s), trees[n]) ==> n in s
  }

  /** Only the rules in the set may read nothing; there is no order. */
  function Given(s: set<string>): RuleCertificate { RuleCertificate(s, map[]) }

  /** The rules that may read nothing: the least such set. */
  ghost function Vanishing(trees: Trees, names: set<string>): set<string> {
    set n | n in names && IsVanishing(trees, names, n)
  }

  ghost predicate IsVanishing(trees: Trees, names: set<string>, n: string) {
    forall s :: IsClosedUnder(trees, names, s) ==> n in s
  }

  /** More rules that may read nothing, more items that may. */
  lemma {:induction false} MayBeEmptyGrows(c: RuleCertificate, d: RuleCertificate, i: Item)
    requires c.nullable <= d.nullable && MayBeEmpty(c, i)
    ensures MayBeEmpty(d, i)
    decreases i
  {
    match i
    case Word(_) =>
    case Rule(_) =>
    case Group(items) => AllMayBeEmptyGrows(c, d, items);
    case ZeroOrOne(_) =>
    case ZeroOrMore(_) =>
    case OneOrMore(j) => MayBeEmptyGrows(c, d, j);
    case Either(options) =>
      var k :| 0 <= k < |options| && MayBeEmpty(c, options[k]);
      MayBeEmptyGrows(c, d, options[k]);
  }

  lemma {:induction false} AllMayBeEmptyGrows(c: RuleCertificate, d: RuleCertificate, items: seq<Item>)
    requires c.nullable <= d.nullable && AllMayBeEmpty(c, items)
    ensures AllMayBeEmpty(d, items)
    decreases items
  {
    forall k | 0 <= k < |items|
      ensures MayBeEmpty(d, items[k])
    {
      MayBeEmptyGrows(c, d, items[k]);
    }
  }

  lemma VanishingIsClosed(trees: Trees, names: set<string>)
    ensures IsClosedUnder(trees, names, Vanishing(trees, names))
  {
    hide AllMayBeEmpty;
    var least := Vanishing(trees, names);
    forall n | n in names && n in trees && AllMayBeEmpty(Given(least), trees[n])
      ensures n in least
    {
      forall s | IsClosedUnder(trees, names, s)
        ensures n in s
      {
        assert forall m :: m in least ==> IsVanishing(trees, names, m);
        AllMayBeEmptyGrows(Given(least), Given(s), trees[n]);
      }
      assert IsVanishing(trees, names, n);
    }
  }

  lemma VanishingIsLeast(trees: Trees, names: set<string>, s: set<string>)
    requires IsClosedUnder(trees, names, s)
    ensures Vanishing(trees, names) <= s
  {
    assert forall m :: m in Vanishing(trees, names) ==> IsVanishing(trees, names, m);
  }

  // ---------------------------------------------------------------- rules a rule may start with

  /** The item may start with the rule: what comes before it may read nothing. */
  predicate StartsWithRule(vanishing: set<string>, i: Item, name: string) {
    match i
    case Word(_) => false
    case Rule(n) => n == name
    case Group(items) => ListStartsWith(vanishing, items, name)
    case ZeroOrOne(j) => StartsWithRule(vanishing, j, name)
    case ZeroOrMore(j) => StartsWithRule(vanishing, j, name)
    case OneOrMore(j) => StartsWithRule(vanishing, j, name)
    case Either(options) => exists k :: 0 <= k < |options| && StartsWithRule(vanishing, options[k], name)
  }

  predicate ListStartsWith(vanishing: set<string>, items: seq<Item>, name: string) {
    exists k :: 0 <= k < |items| && AllMayBeEmpty(Given(vanishing), items[..k]) && StartsWithRule(vanishing, items[k], name)
  }

  /** Rule `m` of the table may be tried before rule `n` has read a token. */
  ghost predicate Leads(trees: Trees, names: set<string>, n: string, m: string) {
    n in names && m in names && n in trees && ListStartsWith(Vanishing(trees, names), trees[n], m)
  }

  /** A way from rule to rule without a token being read. */
  ghost predicate IsWay(trees: Trees, names: set<string>, way: seq<string>) {
    |way| >= 2 && forall k :: 0 <= k < |way| - 1 ==> LeadsOn(trees, names, way, k)
  }

  ghost predicate LeadsOn(trees: Trees, names: set<string>, way: seq<string>, k: nat)
    requires k < |way| - 1
  {
    Leads(trees, names, way[k], way[k + 1])
  }

  ghost predicate Reaches(trees: Trees, names: set<string>, n: string, m: string) {
    exists way :: IsWay(trees, names, way) && way[0] == n && way[|way| - 1] == m
  }

  /** The rules are there, none can come to itself without a token being read, and none repeats an item that may
      read nothing. */
  ghost predicate NotLeftRecursive(trees: Trees, names: set<string>) {
    forall n :: n in names ==>
      && n in trees && !Reaches(trees, names, n, n)
      && RepeatsRead(Given(Vanishing(trees, names)), Group(trees[n]))
  }

  // ---------------------------------------------------------------- from a certificate

  lemma {:induction false} RepeatsReadShrinks(c: RuleCertificate, d: RuleCertificate, i: Item)
    requires c.nullable <= d.nullable && RepeatsRead(d, i)
    ensures RepeatsRead(c, i)
    decreases i, 0
  {
    match i
    case Word(_) =>
    case Rule(_) =>
    case Group(items) =>
      forall k | 0 <= k < |items| ensures RepeatsRead(c, items[k]) { RepeatsReadShrinks(c, d, items[k]); }
    case ZeroOrOne(j) => RepeatsReadShrinks(c, d, j);
    case ZeroOrMore(j) => StillReads(c, d, j);
    case OneOrMore(j) => StillReads(c, d, j);
    case Either(options) =>
      forall k | 0 <= k < |options| ensures RepeatsRead(c, options[k]) { RepeatsReadShrinks(c, d, options[k]); }
  }

  lemma {:induction false} StillReads(c: RuleCertificate, d: RuleCertificate, j: Item)
    requires c.nullable <= d.nullable && RepeatsRead(d, j) && !MayBeEmpty(d, j)
    ensures RepeatsRead(c, j) && !MayBeEmpty(c, j)
    decreases j, 1
  {
    RepeatsReadShrinks(c, d, j);
    if MayBeEmpty(c, j) {
      MayBeEmptyGrows(c, d, j);
    }
  }

  /** The rules an item may start with rank below it. */
  lemma {:induction false} StartRanks(c: RuleCertificate, vanishing: set<string>, i: Item, name: string)
    requires vanishing <= c.nullable && StartsWithRule(vanishing, i, name) && name in c.rank
    ensures c.rank[name] < StartRank(c, i)
    decreases i
  {
    match i
    case Rule(_) =>
    case Group(items) => ListRanks(c, vanishing, items, name);
    case ZeroOrOne(j) => StartRanks(c, vanishing, j, name);
    case ZeroOrMore(j) => StartRanks(c, vanishing, j, name);
    case OneOrMore(j) => StartRanks(c, vanishing, j, name);
    case Either(options) =>
      var k :| 0 <= k < |options| && StartsWithRule(vanishing, options[k], name);
      StartRanks(c, vanishing, options[k], name);
      StartsInAny(c, options, k);
  }

  lemma {:induction false} ListRanks(c: RuleCertificate, vanishing: set<string>, items: seq<Item>, name: string)
    requires vanishing <= c.nullable && ListStartsWith(vanishing, items, name) && name in c.rank
    ensures c.rank[name] < StartOfList(c, items)
    decreases items
  {
    var k :| 0 <= k < |items| && AllMayBeEmpty(Given(vanishing), items[..k]) && StartsWithRule(vanishing, items[k], name);
    AllMayBeEmptyGrows(Given(vanishing), c, items[..k]);
    StartRanks(c, vanishing, items[k], name);
    StartsInList(c, items, k);
  }

  lemma LeadsDown(c: RuleCertificate, trees: Trees, names: set<string>, n: string, m: string)
    requires RulesOk(c, trees, names) && Leads(trees, names, n, m) && Vanishing(trees, names) <= c.nullable
    ensures m in c.rank && n in c.rank && c.rank[m] < c.rank[n]
  {
    hide StartOfList, RepeatsRead, Vanishing;
    assert RuleOk(c, n, trees[n]) && RuleOk(c, m, trees[m]);
    ListRanks(c, Vanishing(trees, names), trees[n], m);
  }

  lemma {:induction false} WayGoesDown(c: RuleCertificate, trees: Trees, names: set<string>, way: seq<string>)
    requires RulesOk(c, trees, names) && IsWay(trees, names, way) && Vanishing(trees, names) <= c.nullable
    ensures way[0] in c.rank && way[|way| - 1] in c.rank && c.rank[way[|way| - 1]] < c.rank[way[0]]
    decreases |way|
  {
    hide RulesOk, Leads, Vanishing;
    assert LeadsOn(trees, names, way, 0);
    LeadsDown(c, trees, names, way[0], way[1]);
    if |way| > 2 {
      forall k | 0 <= k < |way| - 2
        ensures LeadsOn(trees, names, way[1..], k)
      {
        assert LeadsOn(trees, names, way, k + 1);
      }
      WayGoesDown(c, trees, names, way[1..]);
    }
  }

  lemma CertificateIsClosed(c: RuleCertificate, trees: Trees, names: set<string>)
    requires RulesOk(c, trees, names)
    ensures Vanishing(trees, names) <= c.nullable
  {
    hide StartRank, RepeatsRead, AllMayBeEmpty;
    forall n | n in names && n in trees && AllMayBeEmpty(Given(c.nullable), trees[n])
      ensures n in c.nullable
    {
      AllMayBeEmptyGrows(Given(c.nullable), c, trees[n]);
      assert RuleOk(c, n, trees[n]);
    }
    VanishingIsLeast(trees, names, c.nullable);
  }

  lemma CertifiedIsNotLeftRecursive(c: RuleCertificate, trees: Trees, names: set<string>)
    requires RulesOk(c, trees, names)
    ensures NotLeftRecursive(trees, names)
  {
    hide Vanishing, LeadsOn, StartRank;
    CertificateIsClosed(c, trees, names);
    forall n | n in names
      ensures n in trees && !Reaches(trees, names, n, n) && RepeatsRead(Given(Vanishing(trees, names)), Group(trees[n]))
    {
      assert RuleOk(c, n, trees[n]);
      RepeatsReadShrinks(Given(Vanishing(trees, names)), c, Group(trees[n]));
      forall way | IsWay(trees, names, way)
        ensures |way| >= 2 && (way[0] != n || way[|way| - 1] != n)
      {
        WayGoesDown(c, trees, names, way);
      }
    }
  }

  // ---------------------------------------------------------------- to a certificate

  lemma LeadsIsWay(trees: Trees, names: set<string>, n: string, m: string)
    requires Leads(trees, names, n, m)
    ensures Reaches(trees, names, n, m)
  {
    var way := [n, m];
    assert LeadsOn(trees, names, way, 0);
    assert IsWay(trees, names, way);
  }

  lemma LeadsThenReaches(trees: Trees, names: set<string>, n: string, m: string, o: string)
    requires Leads(trees, names, n, m) && Reaches(trees, names, m, o)
    ensures Reaches(trees, names, n, o)
  {
    hide Leads;
    var way :| IsWay(trees, names, way) && way[0] == m && way[|way| - 1] == o;
    var longer := [n] + way;
    forall k | 0 <= k < |longer| - 1
      ensures LeadsOn(trees, names, longer, k)
    {
      assert k > 0 ==> LeadsOn(trees, names, way, k - 1);
    }
    assert IsWay(trees, names, longer);
  }

  ghost function Reached(trees: Trees, names: set<string>, n: string): set<string> {
    set m | m in names && Reaches(trees, names, n, m)
  }

  lemma FewerElements(a: set<string>, b: set<string>, m: string)
    requires a <= b && m in b && m !in a
    ensures |a| < |b|
  {
    assert b == a + (b - a) && m in b - a;
  }

  lemma ReachesFewer(trees: Trees, names: set<string>, n: string, m: string)
    requires NotLeftRecursive(trees, names) && Leads(trees, names, n, m)
    ensures |Reached(trees, names, m)| < |Reached(trees, names, n)|
  {
    hide Reaches, RepeatsRead, Vanishing, ListStartsWith;
    LeadsIsWay(trees, names, n, m);
    forall o | o in names && Reaches(trees, names, m, o)
      ensures Reaches(trees, names, n, o)
    {
      LeadsThenReaches(trees, names, n, m, o);
    }
    FewerElements(Reached(trees, names, m), Reached(trees, names, n), m);
  }

  /** A rule ranks by the number of rules it comes to without reading a token. */
  ghost function CertificateOf(trees: Trees, names: set<string>): RuleCertificate {
    RuleCertificate(Vanishing(trees, names), map n | n in names :: |Reached(trees, names, n)|)
  }

  ghost predicate StaysBelow(c: RuleCertificate, name: string, bound: nat) { name in c.rank ==> c.rank[name] < bound }

  lemma {:induction false} StartsBelow(c: RuleCertificate, i: Item, bound: nat)
    requires forall m :: StartsWithRule(c.nullable, i, m) ==> StaysBelow(c, m, bound)
    ensures StartRank(c, i) <= bound
    decreases i, 0
  {
    hide StaysBelow;
    match i
    case Word(_) =>
    case Rule(name) => RuleBelow(c, name, bound);
    case Group(items) => ListBelow(c, items, bound);
    case ZeroOrOne(j) => StartsBelow(c, j, bound);
    case ZeroOrMore(j) => StartsBelow(c, j, bound);
    case OneOrMore(j) => StartsBelow(c, j, bound);
    case Either(options) => AnyBelow(c, options, bound);
  }

  lemma RuleBelow(c: RuleCertificate, name: string, bound: nat)
    requires forall m :: StartsWithRule(c.nullable, Rule(name), m) ==> StaysBelow(c, m, bound)
    ensures StartRank(c, Rule(name)) <= bound
  {
    assert StartsWithRule(c.nullable, Rule(name), name);
  }

  lemma {:induction false} ListBelow(c: RuleCertificate, items: seq<Item>, bound: nat)
    requires forall m :: ListStartsWith(c.nullable, items, m) ==> StaysBelow(c, m, bound)
    ensures StartOfList(c, items) <= bound
    decreases items, 1
  {
    hide StaysBelow, StartsWithRule, MayBeEmpty, ListStartsWith;
    if items != [] {
      forall m | StartsWithRule(c.nullable, items[0], m)
        ensures StaysBelow(c, m, bound)
      {
        FirstStarts(c.nullable, items, m);
      }
      StartsBelow(c, items[0], bound);
      if MayBeEmpty(c, items[0]) {
        forall m | ListStartsWith(c.nullable, items[1..], m)
          ensures StaysBelow(c, m, bound)
        {
          RestStarts(c, items, m);
        }
        ListBelow(c, items[1..], bound);
      }
    }
  }

  lemma FirstStarts(vanishing: set<string>, items: seq<Item>, m: string)
    requires items != [] && StartsWithRule(vanishing, items[0], m)
    ensures ListStartsWith(vanishing, items, m)
  {
    assert AllMayBeEmpty(Given(vanishing), items[..0]);
  }

  lemma RestStarts(c: RuleCertificate, items: seq<Item>, m: string)
    requires items != [] && MayBeEmpty(c, items[0]) && ListStartsWith(c.nullable, items[1..], m)
    ensures ListStartsWith(c.nullable, items, m)
  {
    hide MayBeEmpty, StartsWithRule;
    var given, rest := Given(c.nullable), items[1..];
    MayBeEmptyGrows(c, given, items[0]);
    var k :| 0 <= k < |rest| && AllMayBeEmpty(given, rest[..k]) && StartsWithRule(c.nullable, rest[k], m);
    var longer := items[..k + 1];
    forall j | 0 <= j < |longer|
      ensures MayBeEmpty(given, longer[j])
    {
      assert j > 0 ==> longer[j] == rest[..k][j - 1];
    }
    assert items[k + 1] == rest[k];
  }

  lemma {:induction false} AnyBelow(c: RuleCertificate, options: seq<Item>, bound: nat)
    requires forall m, k :: 0 <= k < |options| && StartsWithRule(c.nullable, options[k], m) ==> StaysBelow(c, m, bound)
    ensures StartOfAny(c, options) <= bound
    decreases options, 1
  {
    hide StaysBelow, StartsWithRule;
    if options != [] {
      StartsBelow(c, options[0], bound);
      assert forall k :: 0 <= k < |options| - 1 ==> options[1..][k] == options[k + 1];
      AnyBelow(c, options[1..], bound);
    }
  }

  lemma NotLeftRecursiveIsCertified(trees: Trees, names: set<string>)
    requires NotLeftRecursive(trees, names)
    ensures RulesOk(CertificateOf(trees, names), trees, names)
  {
    hide Vanishing, NotLeftRecursive, StartRank, RepeatsRead;
    var c := CertificateOf(trees, names);
    forall n | n in names
      ensures n in trees && RuleOk(c, n, trees[n])
    {
      RuleIsCertified(trees, names, n);
    }
  }

  lemma RuleIsCertified(trees: Trees, names: set<string>, n: string)
    requires NotLeftRecursive(trees, names) && n in names
    ensures n in trees && RuleOk(CertificateOf(trees, names), n, trees[n])
  {
    hide Reaches, Reached, Vanishing, RepeatsRead, StartOfList, ListStartsWith, AllMayBeEmpty;
    var c, items := CertificateOf(trees, names), trees[n];
    RepeatsReadShrinks(c, Given(Vanishing(trees, names)), Group(items));
    VanishingIsClosed(trees, names);
    if AllMayBeEmpty(c, items) {
      AllMayBeEmptyGrows(c, Given(c.nullable), items);
    }
    forall m | ListStartsWith(c.nullable, items, m)
      ensures StaysBelow(c, m, c.rank[n])
    {
      if m in names {
        ReachesFewer(trees, names, n, m);
      }
    }
    ListBelow(c, items, c.rank[n]);
  }

  /** A table has a certificate exactly when no rule can come to itself without a token being read and none repeats
      an item that may read nothing. */
  lemma LeftRecursionExactly(trees: Trees, names: set<string>)
    ensures AreWellFormed(trees, names) <==> NotLeftRecursive(trees, names)
  {
    hide RulesOk, NotLeftRecursive;
    if c :| RulesOk(c, trees, names) {
      CertifiedIsNotLeftRecursive(c, trees, names);
    }
    if NotLeftRecursive(trees, names) {
      NotLeftRecursiveIsCertified(trees, names);
    }
  }
}
