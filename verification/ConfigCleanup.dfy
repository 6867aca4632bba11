/**
 The cleanup of configurations on disk, one after the other: what each step writes, and what a run keeps.
 */
module ConfigCleanup {
  import opened Options
  import opened ConfigFiles

  // ---------------------------------------------------------------- one configuration, on values

  ghost predicate IsChanged(files: Files, name: string) {
    name in files && HasRedundant(files[name], Collected(files, name, {}))
  }

  /** The files after one configuration was cleaned. */
  ghost function Step(files: Files, name: string): (after: Files)
    ensures after.Keys == files.Keys
  {
    if IsChanged(files, name) then files[name := CleanConfig(files[name], Collected(files, name, {}))] else files
  }

  ghost function Run(files: Files, order: seq<string>): (after: Files)
    ensures after.Keys == files.Keys
  {
    if order == [] then files else Run(Step(files, order[0]), order[1..])
  }

  /** How many files a run says it cleaned. */
  ghost function Count(files: Files, order: seq<string>, dryRun: bool): nat {
    if order == [] then 0
    else (if IsChanged(files, order[0]) then 1 else 0) + Count(if dryRun then files else Step(files, order[0]), order[1..], dryRun)
  }

  // ---------------------------------------------------------------- the script

  class Visited {
    var names: set<string>
    constructor () ensures names == {} { names := {}; }
  }

  class ConfigStore {
    var files: Files

    /** Collects what a configuration inherits; `visited` stops it from going in circles. */
    method GetInheritedSkipTests(name: string, visited: Visited) returns (inherited: set<string>)
      requires name in files
      modifies visited
      ensures inherited == Collected(files, name, old(visited.names))
      decreases files.Keys - visited.names
    {
      if name in visited.names {
        return {};
      }
      visited.names := visited.names + {name};
      var config := files[name];
      inherited := {};
      if config.inherit.Some? {
        var parent := config.inherit.value;
        if parent in files {
          var above := GetInheritedSkipTests(parent, visited);
          inherited := above;
          var parentConfig := files[parent];
          if parentConfig.skipTests.Some? {
            inherited := inherited + PathsIn(parentConfig.skipTests.value);
          }
        }
      }
    }

    /** Takes the inherited paths out of the groups. */
    method FilterGroups(groups: seq<Group>, inherited: set<string>) returns (kept: seq<Group>, changed: bool)
      ensures kept == CleanGroups(groups, inherited) && changed == AnyRedundant(groups, inherited)
    {
      hide AnyRedundant, CleanGroups, PathsIn;
      kept, changed := [], false;
      NoGroups(inherited);
      assert groups[0..] == groups && groups[|groups|..] == [];
      for i := 0 to |groups|
        invariant kept + CleanGroups(groups[i..], inherited) == CleanGroups(groups, inherited)
        invariant AnyRedundant(groups, inherited) == (changed || AnyRedundant(groups[i..], inherited))
      {
        var g := groups[i];
        GroupStep(groups, i, inherited, kept);
        if g.paths.None? {
          kept := kept + [g];
        } else {
          var filtered := Without(g.paths.value, inherited);
          if Removed(g.paths.value, inherited) != [] {
            changed := true;
          }
          if filtered != [] {
            kept := kept + [g.(paths := Some(filtered))];
          }
        }
      }
    }

    /** Cleans one configuration.  It is written only when a listed path went away, and then without its
        emptied groups. */
    method CleanupConfig(name: string, dryRun: bool) returns (changed: bool)
      requires name in files
      modifies this
      ensures changed == old(IsChanged(files, name))
      ensures files == if dryRun then old(files) else old(Step(files, name))
    {
      var config := files[name];
      if config.skipTests.None? || config.inherit.None? {
        return false;
      }
      var visited := new Visited();
      var inherited := GetInheritedSkipTests(name, visited);
      if inherited == {} {
        return false;
      }
      var kept;
      kept, changed := FilterGroups(config.skipTests.value, inherited);
      if changed && !dryRun {
        files := files[name := config.(skipTests := if kept == [] then None else Some(kept))];
      }
    }

    /** Cleans the configurations in the given order; one that cannot be loaded is passed over. */
    method CleanAll(names: seq<string>, dryRun: bool) returns (total: nat)
      modifies this
      ensures files == if dryRun then old(files) else old(Run(files, names))
      ensures total == old(Count(files, names, dryRun))
    {
      total := 0;
      ghost var all := if dryRun then files else Run(files, names);
      ghost var count := Count(files, names, dryRun);
      for i := 0 to |names|
        invariant all == if dryRun then files else Run(files, names[i..])
        invariant dryRun ==> files == old(files)
        invariant count == total + Count(files, names[i..], dryRun)
      {
        assert names[i..][1..] == names[i + 1..];
        if names[i] in files {
          var changed := CleanupConfig(names[i], dryRun);
          if changed {
            total := total + 1;
          }
        }
      }
    }
  }

  lemma NoGroups(inherited: set<string>)
    ensures CleanGroups([], inherited) == [] && !AnyRedundant([], inherited)
  {
  }

  lemma GroupStep(groups: seq<Group>, i: nat, inherited: set<string>, kept: seq<Group>)
    requires i < |groups|
    ensures kept + CleanGroups(groups[i..], inherited)
         == kept + CleanGroup(groups[i], inherited) + CleanGroups(groups[i + 1..], inherited)
    ensures AnyRedundant(groups[i..], inherited)
        <==> (groups[i].paths.Some? && Removed(groups[i].paths.value, inherited) != [])
             || AnyRedundant(groups[i + 1..], inherited)
  {
    hide CleanGroup, AnyRedundant, PathsIn;
    assert groups[i..][0] == groups[i] && groups[i..][1..] == groups[i + 1..];
    RedundantStep(groups[i..], inherited);
  }

  lemma RedundantStep(groups: seq<Group>, inherited: set<string>)
    requires groups != []
    ensures AnyRedundant(groups, inherited)
        <==> (groups[0].paths.Some? && Removed(groups[0].paths.value, inherited) != []) || AnyRedundant(groups[1..], inherited)
  {
    var g := groups[0];
    if g.paths.Some? {
      var removed := Removed(g.paths.value, inherited);
      if removed != [] {
        assert removed[0] in PathsIn(groups) && removed[0] in inherited;
      } else {
        assert forall p :: p in g.paths.value && p in inherited ==> p in removed;
      }
    }
    assert forall p :: p in PathsIn(groups[1..]) ==> p in PathsIn(groups);
  }
}
