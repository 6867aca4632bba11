/**
 What a cleanup keeps: everything that is skipped when no configuration inherits from itself, and otherwise
 exactly under a condition on the files and the run.
 */
module ConfigCleanupLaws {
  import opened Options
  import opened ConfigFiles
  import opened ConfigCleanup

  ghost predicate SameLinks(files: Files, after: Files) {
    after.Keys == files.Keys && forall n :: n in files ==> after[n].inherit == files[n].inherit
  }

  lemma {:induction false} SameUp(files: Files, after: Files, name: string, n: nat)
    requires SameLinks(files, after)
    ensures Up(after, name, n) == Up(files, name, n)
    decreases n
  {
    if n > 0 && Parent(files, name).Some? {
      SameUp(files, after, Parent(files, name).value, n - 1);
    }
  }

  /** The paths of the cleaned configuration are those that it does not inherit; the others keep theirs. */
  lemma StepOwn(files: Files, a: string)
    ensures var after := Step(files, a);
            && SameLinks(files, after)
            && (forall c :: c in files ==>
                  Own(after[c]) == if c == a then Own(files[c]) - Collected(files, a, {}) else Own(files[c]))
  {
    hide Own;
    if a in files {
      NothingToRemove(files[a], Collected(files, a, {}));
    }
  }

  lemma NothingToRemove(c: Config, inherited: set<string>)
    ensures !HasRedundant(c, inherited) ==> Own(c) - inherited == Own(c)
  {
  }

  ghost predicate OnCircle(files: Files, name: string) {
    exists n: nat :: n >= 1 && IsAbove(files, name, n, name)
  }

  /** A configuration above `name` that the run does not clean lists the path. */
  ghost predicate KeptAbove(files: Files, order: seq<string>, name: string, path: string) {
    exists k: nat :: k >= 1 && SkipsAt(files, name, k, path) && Up(files, name, k).value !in order
  }

  /** Every path that a configuration of the run lists while it inherits from itself stays listed above it. */
  ghost predicate CirclesKeep(files: Files, order: seq<string>) {
    forall name, path :: name in order && name in files && OnCircle(files, name) && path in Own(files[name])
      ==> KeptAbove(files, order, name, path)
  }

  lemma SameCircle(files: Files, after: Files, name: string)
    requires SameLinks(files, after)
    ensures OnCircle(after, name) <==> OnCircle(files, name)
  {
    forall n: nat
      ensures IsAbove(after, name, n, name) <==> IsAbove(files, name, n, name)
    {
      SameUp(files, after, name, n);
    }
  }

  /** What a cleaned path is listed by besides: something above that is not the configuration itself. */
  lemma OtherAbove(files: Files, order: seq<string>, a: string, path: string) returns (k: nat)
    requires CirclesKeep(files, order) && a in order && a in files && path in Own(files[a]) && Inherits(files, a, path)
    ensures k >= 1 && SkipsAt(files, a, k, path) && Up(files, a, k).value != a
  {
    if OnCircle(files, a) {
      k :| k >= 1 && SkipsAt(files, a, k, path) && Up(files, a, k).value !in order;
    } else {
      k :| k >= 1 && SkipsAt(files, a, k, path);
      assert !IsAbove(files, a, k, a);
    }
  }

  lemma StepKeeps(files: Files, order: seq<string>, a: string, b: string, n: nat, path: string)
    requires CirclesKeep(files, order) && a in order && SkipsAt(files, b, n, path)
    ensures exists m: nat :: m >= n && SkipsAt(Step(files, a), b, m, path)
  {
    hide Step, Own, CirclesKeep;
    var after := Step(files, a);
    StepOwn(files, a);
    SameUp(files, after, b, n);
    var c := Up(files, b, n).value;
    if c == a && path in Collected(files, a, {}) {
      CollectedIsExact(files, a);
      var k := OtherAbove(files, order, a, path);
      UpAgain(files, b, n, k);
      SameUp(files, after, b, n + k);
      assert SkipsAt(after, b, n + k, path);
    } else {
      assert SkipsAt(after, b, n, path);
    }
  }

  lemma StepAddsNothing(files: Files, a: string, b: string, n: nat, path: string)
    requires SkipsAt(Step(files, a), b, n, path)
    ensures SkipsAt(files, b, n, path)
  {
    hide Step, Own;
    StepOwn(files, a);
    SameUp(files, Step(files, a), b, n);
  }

  lemma StepStaysAcyclic(files: Files, a: string)
    requires Acyclic(files)
    ensures Acyclic(Step(files, a))
  {
    hide Step, Own;
    StepOwn(files, a);
    var after := Step(files, a);
    forall name, n: nat | n >= 1
      ensures !IsAbove(after, name, n, name)
    {
      SameUp(files, after, name, n);
      assert !IsAbove(files, name, n, name);
    }
  }

  /** The same configurations skip and inherit the same paths. */
  ghost predicate SameSkips(files: Files, after: Files) {
    forall name, path ::
      && (Skips(after, name, path) <==> Skips(files, name, path))
      && (Inherits(after, name, path) <==> Inherits(files, name, path))
  }

  lemma StepKeepsSkips(files: Files, order: seq<string>, a: string)
    requires CirclesKeep(files, order) && a in order
    ensures SameSkips(files, Step(files, a))
  {
    hide Step, SkipsAt, CirclesKeep;
    var after := Step(files, a);
    forall b, path, n: nat | SkipsAt(files, b, n, path)
      ensures exists m: nat :: m >= n && SkipsAt(after, b, m, path)
    {
      StepKeeps(files, order, a, b, n, path);
    }
    forall b, path, n: nat | SkipsAt(after, b, n, path)
      ensures SkipsAt(files, b, n, path)
    {
      StepAddsNothing(files, a, b, n, path);
    }
  }

  lemma AcyclicStepKeepsSkips(files: Files, a: string)
    requires Acyclic(files)
    ensures SameSkips(files, Step(files, a))
  {
    assert CirclesKeep(files, [a]);
    StepKeepsSkips(files, [a], a);
  }

  lemma SameCollected(files: Files, after: Files, name: string)
    requires SameSkips(files, after) && name in files && name in after
    ensures Collected(after, name, {}) == Collected(files, name, {})
  {
    hide Inherits, Skips;
    CollectedIsExact(files, name);
    CollectedIsExact(after, name);
    forall path
      ensures path in Collected(after, name, {}) <==> path in Collected(files, name, {})
    {
      assert Inherits(after, name, path) <==> Inherits(files, name, path);
    }
  }

  // ---------------------------------------------------------------- whole runs

  /** A run in any order keeps what every configuration skips and inherits. */
  lemma {:induction false} RunKeepsSkips(files: Files, order: seq<string>)
    requires Acyclic(files)
    ensures SameSkips(files, Run(files, order)) && Acyclic(Run(files, order))
  {
    hide Step, Skips, Inherits;
    if order != [] {
      AcyclicStepKeepsSkips(files, order[0]);
      StepStaysAcyclic(files, order[0]);
      RunKeepsSkips(Step(files, order[0]), order[1..]);
    }
  }

  lemma CleanTwice(c: Config, inherited: set<string>)
    ensures !HasRedundant(CleanConfig(c, inherited), inherited)
    ensures CleanConfig(CleanConfig(c, inherited), inherited) == CleanConfig(c, inherited)
  {
  }

  /** The order does not matter: every configuration of the run is cleaned of what it inherited at the start,
      and no other is touched. */
  lemma {:induction false} RunCleansEach(files: Files, order: seq<string>, name: string)
    requires Acyclic(files) && name in files
    ensures Run(files, order)[name]
         == if name in order then CleanConfig(files[name], Collected(files, name, {})) else files[name]
  {
    hide CleanConfig, Collected, HasRedundant;
    if order != [] {
      var after := Step(files, order[0]);
      AcyclicStepKeepsSkips(files, order[0]);
      StepStaysAcyclic(files, order[0]);
      SameCollected(files, after, name);
      RunCleansEach(after, order[1..], name);
      if order[0] == name {
        CleanTwice(files[name], Collected(files, name, {}));
        CleanOnlyIfRedundant(files[name], Collected(files, name, {}));
      }
    }
  }

  lemma CleanOnlyIfRedundant(c: Config, inherited: set<string>)
    ensures !HasRedundant(c, inherited) ==> CleanConfig(c, inherited) == c
  {
  }

  /** No configuration of the run lists a path that it inherits. */
  lemma RunLeavesNothingRedundant(files: Files, order: seq<string>, name: string)
    requires Acyclic(files) && name in files && name in order
    ensures var after := Run(files, order);
            !IsChanged(after, name) && forall path :: path in Own(after[name]) ==> !Inherits(after, name, path)
  {
    hide CleanConfig, Own, Inherits;
    var after := Run(files, order);
    RunCleansEach(files, order, name);
    RunKeepsSkips(files, order);
    SameCollected(files, after, name);
    CollectedIsExact(after, name);
    CleanTwice(files[name], Collected(files, name, {}));
    CleanedOwn(files[name], Collected(files, name, {}));
  }

  lemma CleanedOwn(c: Config, inherited: set<string>)
    ensures Own(CleanConfig(c, inherited)) == Own(c) - inherited
  {
  }

  lemma {:induction false} IdleRun(files: Files, order: seq<string>)
    requires forall k :: 0 <= k < |order| ==> !IsChanged(files, order[k])
    ensures Run(files, order) == files && Count(files, order, false) == 0
  {
    if order != [] {
      IdleRun(files, order[1..]);
    }
  }

  /** A second run over the same configurations, in any order, changes nothing. */
  lemma SecondRunIsIdle(files: Files, order: seq<string>, again: seq<string>)
    requires Acyclic(files) && forall k :: 0 <= k < |again| ==> again[k] in order
    ensures Run(Run(files, order), again) == Run(files, order) && Count(Run(files, order), again, false) == 0
  {
    forall k | 0 <= k < |again|
      ensures !IsChanged(Run(files, order), again[k])
    {
      if again[k] in files {
        RunLeavesNothingRedundant(files, order, again[k]);
      }
    }
    IdleRun(Run(files, order), again);
  }

  // ---------------------------------------------------------------- circles

  /** The condition carries over to the rest of a run: what is kept above is not cleaned by the first step. */
  lemma CirclesStillKeep(files: Files, order: seq<string>)
    requires order != [] && CirclesKeep(files, order)
    ensures CirclesKeep(Step(files, order[0]), order[1..])
  {
    hide Step, Own;
    var after, rest := Step(files, order[0]), order[1..];
    StepOwn(files, order[0]);
    forall name, path | name in rest && name in after && OnCircle(after, name) && path in Own(after[name])
      ensures KeptAbove(after, rest, name, path)
    {
      SameCircle(files, after, name);
      assert KeptAbove(files, order, name, path);
      var k: nat :| k >= 1 && SkipsAt(files, name, k, path) && Up(files, name, k).value !in order;
      SameUp(files, after, name, k);
      assert SkipsAt(after, name, k, path);
    }
  }

  lemma {:induction false} CircleRunKeepsSkips(files: Files, order: seq<string>)
    requires CirclesKeep(files, order)
    ensures SameSkips(files, Run(files, order))
    decreases |order|
  {
    hide Step, Skips, Inherits, CirclesKeep;
    if order != [] {
      StepKeepsSkips(files, order, order[0]);
      CirclesStillKeep(files, order);
      CircleRunKeepsSkips(Step(files, order[0]), order[1..]);
    }
  }

  /** A run changes no links and only takes paths away; a configuration that inherits from itself loses all. */
  lemma {:induction false} RunOwn(files: Files, order: seq<string>, name: string)
    requires name in files
    ensures SameLinks(files, Run(files, order)) && Own(Run(files, order)[name]) <= Own(files[name])
    ensures name in order && OnCircle(files, name) ==> Own(Run(files, order)[name]) == {}
    decreases |order|
  {
    hide Step, Own, OnCircle;
    if order != [] {
      var after := Step(files, order[0]);
      StepOwn(files, order[0]);
      SameCircle(files, after, name);
      RunOwn(after, order[1..], name);
      if order[0] == name && OnCircle(files, name) {
        InheritsItself(files, name);
      }
    }
  }

  lemma InheritsItself(files: Files, name: string)
    requires name in files && OnCircle(files, name)
    ensures Own(files[name]) <= Collected(files, name, {})
  {
    hide Own;
    CollectedIsExact(files, name);
    var n: nat :| n >= 1 && IsAbove(files, name, n, name);
    forall path | path in Own(files[name])
      ensures path in Collected(files, name, {})
    {
      assert SkipsAt(files, name, n, path);
    }
  }

  /** Everything above a configuration on a circle is on a circle. */
  lemma AboveIsOnCircle(files: Files, name: string, k: nat)
    requires OnCircle(files, name) && Up(files, name, k).Some?
    ensures OnCircle(files, Up(files, name, k).value)
  {
    var n: nat :| n >= 1 && IsAbove(files, name, n, name);
    UpAgain(files, name, n, k);
    UpAgain(files, name, k, n);
    assert IsAbove(files, Up(files, name, k).value, n, Up(files, name, k).value);
  }

  /** If the run keeps what a configuration on a circle skips, something it does not clean lists it above. */
  lemma KeptSkipIsAbove(files: Files, order: seq<string>, name: string, path: string)
    requires name in order && name in files && OnCircle(files, name) && path in Own(files[name])
    requires Skips(Run(files, order), name, path)
    ensures KeptAbove(files, order, name, path)
  {
    hide Step, Own, OnCircle;
    var after := Run(files, order);
    var k: nat :| SkipsAt(after, name, k, path);
    RunOwn(files, order, name);
    SameUp(files, after, name, k);
    var c := Up(files, name, k).value;
    AboveIsOnCircle(files, name, k);
    RunOwn(files, order, c);
    assert k != 0;
    assert SkipsAt(files, name, k, path);
  }

  /** A run keeps what every configuration skips and inherits if and only if every path that a cleaned
      configuration lists, while it inherits from itself, is listed by one above it that the run does not clean. */
  lemma RunKeepsSkipsExactly(files: Files, order: seq<string>)
    ensures SameSkips(files, Run(files, order)) <==> CirclesKeep(files, order)
  {
    hide Step, Own, OnCircle, Inherits, KeptAbove;
    if CirclesKeep(files, order) {
      CircleRunKeepsSkips(files, order);
    }
    if SameSkips(files, Run(files, order)) {
      forall name, path | name in order && name in files && OnCircle(files, name) && path in Own(files[name])
        ensures KeptAbove(files, order, name, path)
      {
        assert SkipsAt(files, name, 0, path) && Skips(files, name, path);
        KeptSkipIsAbove(files, order, name, path);
      }
    }
  }

  /** Two configurations that inherit from each other and list the same path: the run takes the path from both,
      and no one skips it any more. */
  lemma CircleLosesSkips()
    ensures var group := Group(Some(["t"]), "");
            var files := map["a" := Config(Some("b"), Some([group]), ""), "b" := Config(Some("a"), Some([group]), "")];
            && Skips(files, "a", "t") && Skips(files, "b", "t")
            && forall name :: !Skips(Run(files, ["a", "b"]), name, "t")
  {
    hide Step;
    var group := Group(Some(["t"]), "");
    var a, b := Config(Some("b"), Some([group]), ""), Config(Some("a"), Some([group]), "");
    var files := map["a" := a, "b" := b];
    assert SkipsAt(files, "a", 0, "t") && SkipsAt(files, "b", 0, "t");
    CircleInherits(files);
    StepOwn(files, "a");
    var once := Step(files, "a");
    CircleInherits(once);
    StepOwn(once, "b");
    var twice := Step(once, "b");
    RunOfTwo(files, "a", "b");
    NobodySkips(twice, "t");
  }

  lemma RunOfTwo(files: Files, a: string, b: string)
    ensures Run(files, [a, b]) == Step(Step(files, a), b)
  {
    hide Step;
    assert [a, b][1..] == [b] && [b][1..] == [];
    assert Run(Step(Step(files, a), b), []) == Step(Step(files, a), b);
    assert Run(Step(files, a), [b]) == Step(Step(files, a), b);
  }

  lemma NobodySkips(files: Files, path: string)
    requires forall n :: n in files ==> path !in Own(files[n])
    ensures forall name :: !Skips(files, name, path)
  {
  }

  lemma CircleInherits(files: Files)
    requires files.Keys == {"a", "b"} && files["a"].inherit == Some("b") && files["b"].inherit == Some("a")
    ensures Collected(files, "a", {}) == Own(files["a"]) + Own(files["b"]) == Collected(files, "b", {})
  {
    assert Collected(files, "a", {"a", "b"}) == {} == Collected(files, "b", {"a", "b"});
    assert {} + {"a"} + {"b"} == {"a", "b"} == {} + {"b"} + {"a"};
    assert Collected(files, "b", {"a"}) == Own(files["a"]);
    assert Collected(files, "a", {"b"}) == Own(files["b"]);
  }
}
