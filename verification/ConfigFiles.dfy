/**
 Test configurations that inherit skipped tests from each other, and what a configuration skips in effect.
 */
module ConfigFiles {
  import opened Options

  /** A group of skipped tests; `other` stands for its other fields, such as the reason. */
  datatype Group = Group(paths: Option<seq<string>>, other: string)

  datatype Config = Config(inherit: Option<string>, skipTests: Option<seq<Group>>, other: string)

  type Files = map<string, Config>

  /** The paths listed in groups. */
  function PathsIn(groups: seq<Group>): set<string> {
    if groups == [] then {}
    else (if groups[0].paths.Some? then set p | p in groups[0].paths.value else {}) + PathsIn(groups[1..])
  }

  /** The paths a configuration lists itself. */
  function Own(c: Config): set<string> {
    if c.skipTests.Some? then PathsIn(c.skipTests.value) else {}
  }

  /** The file a configuration inherits from, if that file is there. */
  function Parent(files: Files, name: string): Option<string> {
    if name in files && files[name].inherit.Some? && files[name].inherit.value in files
    then files[name].inherit else None
  }

  /** The configuration `n` steps up. */
  function Up(files: Files, name: string, n: nat): Option<string>
    decreases n
  {
    if n == 0 then if name in files then Some(name) else None
    else
      var p := Parent(files, name);
      if p.None? then None else Up(files, p.value, n - 1)
  }

  ghost predicate SkipsAt(files: Files, name: string, n: nat, path: string) {
    var up := Up(files, name, n);
    up.Some? && up.value in files && path in Own(files[up.value])
  }

  /** A configuration inherits what any configuration above it lists. */
  ghost predicate Inherits(files: Files, name: string, path: string) {
    exists n: nat :: n >= 1 && SkipsAt(files, name, n, path)
  }

  /** What a configuration skips in effect: its own paths and the inherited ones. */
  ghost predicate Skips(files: Files, name: string, path: string) {
    exists n: nat :: SkipsAt(files, name, n, path)
  }

  ghost predicate IsAbove(files: Files, name: string, n: nat, above: string) {
    Up(files, name, n) == Some(above)
  }

  /** No configuration is above itself. */
  ghost predicate Acyclic(files: Files) {
    forall name, n: nat :: n >= 1 ==> !IsAbove(files, name, n, name)
  }

  // ---------------------------------------------------------------- collecting what is inherited

  /** What the recursive collection returns when some names were visited before. */
  ghost function Collected(files: Files, name: string, visited: set<string>): set<string>
    decreases files.Keys - visited
  {
    if name in visited || name !in files then {}
    else
      var p := Parent(files, name);
      if p.None? then {} else Collected(files, p.value, visited + {name}) + Own(files[p.value])
  }

  lemma {:induction false} UpStays(files: Files, name: string, n: nat)
    ensures Up(files, name, n).Some? ==> Up(files, name, n).value in files
    decreases n
  {
    if n > 0 && Parent(files, name).Some? {
      UpStays(files, Parent(files, name).value, n - 1);
    }
  }

  lemma {:induction false} UpAgain(files: Files, name: string, m: nat, n: nat)
    ensures Up(files, name, m + n) == if Up(files, name, m).Some? then Up(files, Up(files, name, m).value, n) else None
    decreases m
  {
    if m > 0 && Parent(files, name).Some? {
      UpAgain(files, Parent(files, name).value, m - 1, n);
    }
  }

  lemma {:induction false} CollectedIsInherited(files: Files, name: string, visited: set<string>, path: string)
    requires path in Collected(files, name, visited)
    ensures Inherits(files, name, path)
    decreases files.Keys - visited
  {
    var q := Parent(files, name).value;
    if path in Own(files[q]) {
      assert SkipsAt(files, name, 1, path);
    } else {
      CollectedIsInherited(files, q, visited + {name}, path);
      var n: nat :| n >= 1 && SkipsAt(files, q, n, path);
      assert SkipsAt(files, name, n + 1, path);
    }
  }

  /** Every visited configuration leads to another one, or to the one at hand. */
  ghost predicate Trail(files: Files, name: string, visited: set<string>) {
    forall v :: v in visited ==> Parent(files, v).Some? && Parent(files, v).value in visited + {name}
  }

  ghost predicate IsParentOf(files: Files, above: string, v: string) {
    Parent(files, v) == Some(above)
  }

  /** Whatever is above is collected here, or by the caller that visited a configuration right below it. */
  lemma {:induction false} AboveIsCollected(files: Files, name: string, visited: set<string>, n: nat, above: string)
    requires name in files && Trail(files, name, visited) && n >= 1 && IsAbove(files, name, n, above)
    ensures above in files
    ensures Own(files[above]) <= Collected(files, name, visited) || exists v :: v in visited && IsParentOf(files, above, v)
    decreases files.Keys - visited
  {
    UpStays(files, name, n);
    if name in visited {
      var v := OnTrail(files, name, visited, n, above);
    } else {
      var q := Parent(files, name).value;
      if n > 1 {
        AboveIsCollected(files, q, visited + {name}, n - 1, above);
      }
      if exists v :: v in visited + {name} && IsParentOf(files, above, v) {
        var v :| v in visited + {name} && IsParentOf(files, above, v);
      }
    }
  }

  lemma {:induction false} OnTrail(files: Files, name: string, visited: set<string>, n: nat, above: string) returns (v: string)
    requires name in visited && Trail(files, name, visited) && n >= 1 && IsAbove(files, name, n, above)
    ensures v in visited && IsParentOf(files, above, v)
    decreases n
  {
    if n == 1 {
      v := name;
    } else {
      var q := Parent(files, name).value;
      assert Trail(files, q, visited) by {
        assert visited + {name} == visited;
      }
      v := OnTrail(files, q, visited, n - 1, above);
    }
  }

  /** The collection finds exactly what is inherited, also when the inheritance runs in a circle. */
  lemma CollectedIsExact(files: Files, name: string)
    requires name in files
    ensures forall path :: path in Collected(files, name, {}) <==> Inherits(files, name, path)
  {
    forall path
      ensures path in Collected(files, name, {}) <==> Inherits(files, name, path)
    {
      if path in Collected(files, name, {}) {
        CollectedIsInherited(files, name, {}, path);
      }
      if Inherits(files, name, path) {
        var n: nat :| n >= 1 && SkipsAt(files, name, n, path);
        var above := Up(files, name, n).value;
        assert IsAbove(files, name, n, above);
        AboveIsCollected(files, name, {}, n, above);
      }
    }
  }

  // ---------------------------------------------------------------- removing what is inherited

  function Without(paths: seq<string>, inherited: set<string>): (kept: seq<string>)
    ensures forall p :: p in kept <==> p in paths && p !in inherited
  {
    if paths == [] then []
    else (if paths[0] in inherited then [] else [paths[0]]) + Without(paths[1..], inherited)
  }

  function Removed(paths: seq<string>, inherited: set<string>): (removed: seq<string>)
    ensures forall p :: p in removed <==> p in paths && p in inherited
  {
    if paths == [] then []
    else (if paths[0] in inherited then [paths[0]] else []) + Removed(paths[1..], inherited)
  }

  /** Groups without paths stay; of the others the inherited paths go, and the group with its last path. */
  function CleanGroup(g: Group, inherited: set<string>): seq<Group> {
    if g.paths.None? then [g]
    else
      var kept := Without(g.paths.value, inherited);
      if kept == [] then [] else [g.(paths := Some(kept))]
  }

  function CleanGroups(groups: seq<Group>, inherited: set<string>): (cleaned: seq<Group>)
    ensures PathsIn(cleaned) == PathsIn(groups) - inherited
  {
    if groups == [] then []
    else
      var first, rest := CleanGroup(groups[0], inherited), CleanGroups(groups[1..], inherited);
      assert first != [] ==> (first + rest)[1..] == rest;
      assert first == [] ==> first + rest == rest;
      first + rest
  }

  /** Some path in the groups is inherited. */
  ghost predicate AnyRedundant(groups: seq<Group>, inherited: set<string>) {
    exists p :: p in PathsIn(groups) && p in inherited
  }

  ghost predicate HasRedundant(c: Config, inherited: set<string>) {
    c.skipTests.Some? && AnyRedundant(c.skipTests.value, inherited)
  }

  ghost function CleanConfig(c: Config, inherited: set<string>): (cleaned: Config)
    ensures cleaned.inherit == c.inherit && Own(cleaned) == Own(c) - inherited
  {
    if !HasRedundant(c, inherited) then c
    else
      var groups := CleanGroups(c.skipTests.value, inherited);
      c.(skipTests := if groups == [] then None else Some(groups))
  }
}
