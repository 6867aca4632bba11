/**
 What the cleanup writes, told on the fields of the configurations alone: which paths a configuration inherits, which
 of its groups and paths stay, and in what order.
 */
module ConfigWritten {
  import opened Options
  import opened Subsequences
  import opened ConfigFiles
  import opened ConfigCleanup

  // ---------------------------------------------------------------- what is listed and inherited

  /** The path stands in some group. */
  ghost predicate IsIn(groups: seq<Group>, path: string) {
    exists g :: 0 <= g < |groups| && groups[g].paths.Some? && path in groups[g].paths.value
  }

  ghost predicate Lists(c: Config, path: string) {
    c.skipTests.Some? && IsIn(c.skipTests.value, path)
  }

  lemma {:induction false} PathsAreListed(groups: seq<Group>, path: string)
    ensures path in PathsIn(groups) <==> IsIn(groups, path)
  {
    if groups != [] {
      PathsAreListed(groups[1..], path);
      FirstOrLater(groups[0], groups[1..], path);
      assert groups == [groups[0]] + groups[1..];
    }
  }

  lemma FirstOrLater(g: Group, groups: seq<Group>, path: string)
    ensures IsIn([g] + groups, path) <==> (g.paths.Some? && path in g.paths.value) || IsIn(groups, path)
  {
    var all := [g] + groups;
    if IsIn(all, path) {
      var k :| 0 <= k < |all| && all[k].paths.Some? && path in all[k].paths.value;
      if k > 0 {
        assert all[k] == groups[k - 1];
      }
    }
    if g.paths.Some? && path in g.paths.value {
      assert all[0] == g;
    }
    if IsIn(groups, path) {
      var k :| 0 <= k < |groups| && groups[k].paths.Some? && path in groups[k].paths.value;
      assert all[k + 1] == groups[k];
    }
  }

  lemma OwnIsListed(c: Config, path: string)
    ensures path in Own(c) <==> Lists(c, path)
  {
    if c.skipTests.Some? {
      PathsAreListed(c.skipTests.value, path);
    }
  }

  /** Each configuration names the next one as the one it inherits from, and all of them are there. */
  ghost predicate IsChain(files: Files, chain: seq<string>) {
    && chain != []
    && (forall k :: 0 <= k < |chain| ==> chain[k] in files)
    && forall k :: 0 <= k < |chain| - 1 ==> files[chain[k]].inherit == Some(chain[k + 1])
  }

  ghost predicate LeadsUp(files: Files, name: string, chain: seq<string>, above: string) {
    IsChain(files, chain) && chain[0] == name && chain[|chain| - 1] == above
  }

  lemma {:induction false} UpIsChain(files: Files, name: string, n: nat) returns (chain: seq<string>)
    requires Up(files, name, n).Some?
    ensures |chain| == n + 1 && LeadsUp(files, name, chain, Up(files, name, n).value)
    decreases n
  {
    if n == 0 {
      chain := [name];
    } else {
      var rest := UpIsChain(files, Parent(files, name).value, n - 1);
      chain := [name] + rest;
    }
  }

  lemma {:induction false} ChainIsUp(files: Files, chain: seq<string>)
    requires IsChain(files, chain)
    ensures Up(files, chain[0], |chain| - 1) == Some(chain[|chain| - 1])
    decreases |chain|
  {
    if |chain| > 1 {
      var rest := chain[1..];
      assert files[chain[0]].inherit == Some(rest[0]);
      ChainIsUp(files, rest);
    }
  }

  /** Some configuration further up lists the path. */
  ghost predicate Receives(files: Files, name: string, path: string) {
    exists chain, above :: |chain| > 1 && LeadsUp(files, name, chain, above) && Lists(files[above], path)
  }

  lemma InheritsExactly(files: Files, name: string, path: string)
    ensures Inherits(files, name, path) <==> Receives(files, name, path)
  {
    if Inherits(files, name, path) {
      var n: nat :| n >= 1 && SkipsAt(files, name, n, path);
      var chain := UpIsChain(files, name, n);
      OwnIsListed(files[chain[n]], path);
    }
    if Receives(files, name, path) {
      var chain, above :| |chain| > 1 && LeadsUp(files, name, chain, above) && Lists(files[above], path);
      ChainIsUp(files, chain);
      OwnIsListed(files[above], path);
      assert SkipsAt(files, name, |chain| - 1, path);
    }
  }

  // ---------------------------------------------------------------- what stays

  /** Of the paths those that are not inherited, in their order. */
  ghost predicate AreKept(paths: seq<string>, inherited: set<string>, kept: seq<string>) {
    exists at :: PickedAt(paths, at, kept) && forall k: nat :: k in at <==> k < |paths| && paths[k] !in inherited
  }

  lemma KeptExactly(paths: seq<string>, inherited: set<string>, kept: seq<string>)
    ensures kept == Without(paths, inherited) <==> AreKept(paths, inherited, kept)
  {
    var at := KeptAt(paths, inherited);
    if AreKept(paths, inherited, kept) {
      var bt :| PickedAt(paths, bt, kept) && forall k: nat :: k in bt <==> k < |paths| && paths[k] !in inherited;
      OnePick(paths, at, Without(paths, inherited), bt, kept);
    }
  }

  lemma {:induction false} KeptAt(paths: seq<string>, inherited: set<string>) returns (at: seq<nat>)
    ensures PickedAt(paths, at, Without(paths, inherited))
    ensures forall k: nat :: k in at <==> k < |paths| && paths[k] !in inherited
    decreases |paths|
  {
    hide Without;
    at := [];
    WithoutNone(inherited);
    if paths != [] {
      var last := |paths| - 1;
      at := KeptAt(paths[..last], inherited);
      WithoutLast(paths[..last], paths[last], inherited);
      assert paths[..last] + [paths[last]] == paths;
      if paths[last] !in inherited {
        at := at + [last];
      }
    }
  }

  lemma WithoutNone(inherited: set<string>)
    ensures Without([], inherited) == []
  {
  }

  lemma {:induction false} WithoutLast(paths: seq<string>, p: string, inherited: set<string>)
    ensures Without(paths + [p], inherited) == Without(paths, inherited) + if p in inherited then [] else [p]
  {
    if paths != [] {
      WithoutLast(paths[1..], p, inherited);
      assert (paths + [p])[0] == paths[0] && (paths + [p])[1..] == paths[1..] + [p];
    }
  }

  /** A group stays if it has no paths at all, or one that is not inherited. */
  ghost predicate Stays(g: Group, inherited: set<string>) {
    g.paths.None? || exists p :: p in g.paths.value && p !in inherited
  }

  /** What a group that stays is written as. */
  ghost predicate IsWrittenAs(g: Group, inherited: set<string>, w: Group) {
    && w.other == g.other
    && match g.paths
       case None => w.paths == None
       case Some(paths) => w.paths.Some? && AreKept(paths, inherited, w.paths.value)
  }

  /** The groups that stay, in their order, with the paths that are not inherited. */
  ghost predicate AreWritten(groups: seq<Group>, inherited: set<string>, written: seq<Group>) {
    exists at: seq<nat>, picked :: PickedAt(groups, at, picked) && StaysAt(groups, inherited, at)
                                   && AllWrittenAs(picked, inherited, written)
  }

  ghost predicate StaysAt(groups: seq<Group>, inherited: set<string>, at: seq<nat>) {
    forall k: nat :: k in at <==> k < |groups| && Stays(groups[k], inherited)
  }

  ghost predicate AllWrittenAs(picked: seq<Group>, inherited: set<string>, written: seq<Group>) {
    |picked| == |written| && forall i :: 0 <= i < |picked| ==> IsWrittenAs(picked[i], inherited, written[i])
  }

  lemma GroupExactly(g: Group, inherited: set<string>)
    ensures Stays(g, inherited) <==> CleanGroup(g, inherited) != []
    ensures Stays(g, inherited) ==> forall w :: IsWrittenAs(g, inherited, w) <==> CleanGroup(g, inherited) == [w]
  {
    if g.paths.Some? {
      var kept := Without(g.paths.value, inherited);
      assert kept != [] ==> kept[0] in kept;
      forall w: Group | w.paths.Some?
        ensures w.paths.value == kept <==> AreKept(g.paths.value, inherited, w.paths.value)
      {
        KeptExactly(g.paths.value, inherited, w.paths.value);
      }
    }
  }

  lemma {:induction false} GroupsAt(groups: seq<Group>, inherited: set<string>) returns (at: seq<nat>, picked: seq<Group>)
    ensures PickedAt(groups, at, picked) && StaysAt(groups, inherited, at)
    ensures AllWrittenAs(picked, inherited, CleanGroups(groups, inherited))
    decreases |groups|
  {
    hide Stays, IsWrittenAs, CleanGroup;
    at, picked := [], [];
    if groups != [] {
      var last := |groups| - 1;
      var front := groups[..last];
      at, picked := GroupsAt(front, inherited);
      CleanLast(front, groups[last], inherited);
      GroupExactly(groups[last], inherited);
      assert front + [groups[last]] == groups;
      if Stays(groups[last], inherited) {
        at, picked := at + [last], picked + [groups[last]];
        SingleGroup(groups[last], inherited);
      }
    }
  }

  lemma SingleGroup(g: Group, inherited: set<string>)
    requires Stays(g, inherited)
    ensures |CleanGroup(g, inherited)| == 1 && IsWrittenAs(g, inherited, CleanGroup(g, inherited)[0])
  {
    hide IsWrittenAs;
    GroupExactly(g, inherited);
  }

  lemma {:induction false} CleanLast(groups: seq<Group>, g: Group, inherited: set<string>)
    ensures CleanGroups(groups + [g], inherited) == CleanGroups(groups, inherited) + CleanGroup(g, inherited)
  {
    hide CleanGroup;
    if groups != [] {
      CleanLast(groups[1..], g, inherited);
      assert (groups + [g])[1..] == groups[1..] + [g];
    }
  }

  /** The cleaned groups are exactly the groups so written. */
  lemma GroupsExactly(groups: seq<Group>, inherited: set<string>, written: seq<Group>)
    ensures written == CleanGroups(groups, inherited) <==> AreWritten(groups, inherited, written)
  {
    hide CleanGroups, PickedAt, StaysAt, AllWrittenAs;
    var at, picked := GroupsAt(groups, inherited);
    if AreWritten(groups, inherited, written) {
      var bt, others :| PickedAt(groups, bt, others) && StaysAt(groups, inherited, bt)
                        && AllWrittenAs(others, inherited, written);
      SameIndexes(groups, inherited, at, bt);
      OnePick(groups, at, picked, bt, others);
      OneWriting(groups, at, picked, inherited, written, CleanGroups(groups, inherited));
    }
  }

  lemma SameIndexes(groups: seq<Group>, inherited: set<string>, at: seq<nat>, bt: seq<nat>)
    requires StaysAt(groups, inherited, at) && StaysAt(groups, inherited, bt)
    ensures forall k :: k in at <==> k in bt
  {
    hide Stays;
  }

  lemma OneWriting(groups: seq<Group>, at: seq<nat>, picked: seq<Group>, inherited: set<string>, v: seq<Group>, w: seq<Group>)
    requires PickedAt(groups, at, picked) && StaysAt(groups, inherited, at)
    requires AllWrittenAs(picked, inherited, v) && AllWrittenAs(picked, inherited, w)
    ensures v == w
  {
    forall i | 0 <= i < |picked|
      ensures v[i] == w[i]
    {
      hide Stays, IsWrittenAs, CleanGroup;
      assert at[i] in at;
      GroupExactly(picked[i], inherited);
    }
  }

  // ---------------------------------------------------------------- one configuration

  /** A listed path is inherited. */
  ghost predicate ListsInherited(c: Config, inherited: set<string>) {
    exists path :: path in inherited && Lists(c, path)
  }

  /** A configuration with no inherited path is left as it is; of another one only the groups are written anew, and no
      group at all is written when none stays. */
  ghost predicate IsCleaned(c: Config, inherited: set<string>, after: Config) {
    if ListsInherited(c, inherited) then
      && after.inherit == c.inherit && after.other == c.other
      && match after.skipTests
         case Some(written) => written != [] && AreWritten(c.skipTests.value, inherited, written)
         case None => AreWritten(c.skipTests.value, inherited, [])
    else after == c
  }

  lemma CleanedExactly(c: Config, inherited: set<string>, after: Config)
    ensures HasRedundant(c, inherited) <==> ListsInherited(c, inherited)
    ensures after == CleanConfig(c, inherited) <==> IsCleaned(c, inherited, after)
  {
    hide AreWritten, CleanGroups, Lists, PathsIn;
    forall path
      ensures c.skipTests.Some? ==> (path in PathsIn(c.skipTests.value) <==> Lists(c, path))
      ensures c.skipTests.None? ==> !Lists(c, path)
    {
      OwnIsListed(c, path);
    }
    if c.skipTests.Some? {
      GroupsExactly(c.skipTests.value, inherited, if after.skipTests.Some? then after.skipTests.value else []);
    }
  }

  /** One step of the cleanup changes a file if and only if it lists a path that it receives from further up.  It then
      writes that configuration without all such paths, and nothing else. */
  lemma StepExactly(files: Files, name: string) returns (inherited: set<string>)
    requires name in files
    ensures forall path :: path in inherited <==> Receives(files, name, path)
    ensures IsChanged(files, name) <==> exists path :: Receives(files, name, path) && Lists(files[name], path)
    ensures forall other :: other in files && other != name ==> Step(files, name)[other] == files[other]
    ensures IsCleaned(files[name], inherited, Step(files, name)[name])
  {
    hide Receives, Lists, IsCleaned, CleanConfig, HasRedundant;
    inherited := Collected(files, name, {});
    CollectedIsExact(files, name);
    forall path
      ensures path in inherited <==> Receives(files, name, path)
    {
      InheritsExactly(files, name, path);
    }
    CleanedExactly(files[name], inherited, Step(files, name)[name]);
    if !IsChanged(files, name) {
      Unchanged(files[name], inherited);
    }
  }

  lemma Unchanged(c: Config, inherited: set<string>)
    requires !HasRedundant(c, inherited)
    ensures CleanConfig(c, inherited) == c
  {
  }
}
