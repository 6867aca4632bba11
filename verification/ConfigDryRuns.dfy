/**
 What a dry run announces, compared with what the real run cleans: for all configurations, those that inherit in a
 circle included.
 */
module ConfigDryRuns {
  import opened Options
  import opened ConfigFiles
  import opened ConfigCleanup
  import opened ConfigCleanupLaws

  // ---------------------------------------------------------------- what is listed when a turn comes

  /** Above `name` a configuration on a circle that was not cleaned yet lists the path. */
  ghost predicate CircleListed(files: Files, done: seq<string>, name: string, path: string) {
    exists k: nat :: k >= 1 && SkipsAt(files, name, k, path) && FreshOnCircle(files, done, Up(files, name, k).value)
  }

  ghost predicate FreshOnCircle(files: Files, done: seq<string>, name: string) { OnCircle(files, name) && name !in done }

  /** Whenever it was the turn of `name`, no circle above listed the path any more. */
  ghost predicate Untouched(files: Files, done: seq<string>, name: string, path: string) {
    forall j :: 0 <= j < |done| && done[j] == name ==> !CircleListed(files, done[..j], name, path)
  }

  /** Above `name` an untouched configuration lists the path. */
  ghost predicate StillListedAbove(files: Files, done: seq<string>, name: string, path: string) {
    exists k: nat :: k >= 1 && SkipsAt(files, name, k, path) && Untouched(files, done, Up(files, name, k).value, path)
  }

  lemma {:induction false} RunMore(files: Files, done: seq<string>, b: string)
    ensures Run(files, done + [b]) == Step(Run(files, done), b)
    decreases |done|
  {
    hide Step;
    if done == [] {
      assert [b][1..] == [] && done + [b] == [b];
    } else {
      assert (done + [b])[1..] == done[1..] + [b];
      RunMore(Step(files, done[0]), done[1..], b);
    }
  }

  lemma {:induction false} RunLeavesOthers(files: Files, done: seq<string>, c: string)
    requires c in files && c !in done
    ensures Run(files, done)[c] == files[c]
    decreases |done|
  {
    if done != [] {
      RunLeavesOthers(Step(files, done[0]), done[1..], c);
    }
  }

  lemma UntouchedMore(files: Files, done: seq<string>, b: string, name: string, path: string)
    ensures Untouched(files, done + [b], name, path) <==>
            Untouched(files, done, name, path) && (b == name ==> !CircleListed(files, done, name, path))
  {
    hide CircleListed;
    assert forall j :: 0 <= j < |done| ==> (done + [b])[j] == done[j] && (done + [b])[..j] == done[..j];
    assert (done + [b])[|done|] == b && (done + [b])[..|done|] == done;
  }

  /** What is listed after a run was listed before and is untouched. */
  lemma {:induction false} ListedIsUntouched(files: Files, done: seq<string>, name: string, path: string)
    requires name in files && path in Own(Run(files, done)[name])
    ensures path in Own(files[name]) && Untouched(files, done, name, path)
    decreases |done|
  {
    hide Step, Own, CircleListed, Untouched;
    if done == [] {
      NothingDone(files, name, path);
    } else {
      var first, b := done[..|done| - 1], done[|done| - 1];
      assert done == first + [b];
      RunMore(files, first, b);
      var before := Run(files, first);
      StepOwn(before, b);
      ListedIsUntouched(files, first, name, path);
      UntouchedMore(files, first, b, name, path);
      if CircleListed(files, first, name, path) {
        CircleIsInherited(files, first, name, path);
      }
      CollectedIsExact(before, name);
    }
  }

  lemma NothingDone(files: Files, name: string, path: string)
    ensures Untouched(files, [], name, path)
  {
  }

  /** What a fresh configuration on a circle lists is inherited still. */
  lemma CircleIsInherited(files: Files, done: seq<string>, name: string, path: string)
    requires CircleListed(files, done, name, path)
    ensures Inherits(Run(files, done), name, path)
  {
    hide Step, Own;
    var k: nat :| k >= 1 && SkipsAt(files, name, k, path) && FreshOnCircle(files, done, Up(files, name, k).value);
    var c := Up(files, name, k).value;
    RunLeavesOthers(files, done, c);
    RunOwn(files, done, c);
    SameUp(files, Run(files, done), name, k);
    assert SkipsAt(Run(files, done), name, k, path);
  }

  /** What is untouched is skipped still, if not by the configuration itself then by one above it. */
  lemma {:induction false} UntouchedIsSkipped(files: Files, done: seq<string>, name: string, path: string)
    requires name in files && path in Own(files[name]) && Untouched(files, done, name, path)
    ensures Skips(Run(files, done), name, path)
    decreases |done|
  {
    hide Step, Own, CircleListed, Untouched, SkipsAt;
    if done == [] {
      SkipsOwn(files, name, path);
    } else {
      var first, b := done[..|done| - 1], done[|done| - 1];
      assert done == first + [b];
      RunMore(files, first, b);
      UntouchedMore(files, first, b, name, path);
      UntouchedIsSkipped(files, first, name, path);
      StepStillSkips(files, first, b, name, path);
    }
  }

  lemma SkipsOwn(files: Files, name: string, path: string)
    requires name in files && path in Own(files[name])
    ensures Skips(files, name, path)
  {
    assert SkipsAt(files, name, 0, path);
  }

  lemma StepStillSkips(files: Files, done: seq<string>, b: string, name: string, path: string)
    requires name in files && path in Own(files[name]) && Untouched(files, done + [b], name, path)
    requires Skips(Run(files, done), name, path)
    ensures Skips(Step(Run(files, done), b), name, path)
  {
    hide Step, Own, CircleListed, Untouched;
    var before := Run(files, done);
    var after := Step(before, b);
    var m: nat :| SkipsAt(before, name, m, path);
    StepOwn(before, b);
    SameUp(before, after, name, m);
    if Up(before, name, m).value != b || path in Own(after[b]) {
      assert SkipsAt(after, name, m, path);
    } else {
      CollectedIsExact(before, b);
      if k: nat :| k >= 1 && SkipsAt(before, b, k, path) && Up(before, b, k).value != b {
        UpAgain(before, name, m, k);
        SameUp(before, after, name, m + k);
        assert SkipsAt(after, name, m + k, path);
      } else {
        ListerIsOnCircle(files, done, b, path);
        LastLister(files, done, b, name, m, path);
        SkipsOwn(after, name, path);
      }
    }
  }

  lemma ListerIsOnCircle(files: Files, done: seq<string>, b: string, path: string)
    requires Inherits(Run(files, done), b, path)
    requires forall k: nat :: k >= 1 && SkipsAt(Run(files, done), b, k, path) ==> Up(Run(files, done), b, k).value == b
    ensures OnCircle(files, b)
  {
    hide Own, Step;
    var before := Run(files, done);
    var k: nat :| k >= 1 && SkipsAt(before, b, k, path);
    assert IsAbove(before, b, k, b);
    UpStays(before, b, k);
    RunOwn(files, done, b);
    SameCircle(files, before, b);
  }

  lemma FreshIsListed(files: Files, done: seq<string>, name: string, m: nat, path: string)
    requires m >= 1 && SkipsAt(files, name, m, path) && FreshOnCircle(files, done, Up(files, name, m).value)
    ensures CircleListed(files, done, name, path)
  {
  }

  /** A configuration on a circle is untouched only if it was not cleaned. */
  lemma {:induction false} UntouchedIsFresh(files: Files, done: seq<string>, b: string, path: string, j: nat)
    requires b in files && path in Own(files[b]) && OnCircle(files, b) && Untouched(files, done, b, path) && j <= |done|
    ensures b !in done[..j]
    decreases j
  {
    hide Own, OnCircle;
    if j > 0 {
      UntouchedIsFresh(files, done, b, path, j - 1);
      ListsItself(files, done[..j - 1], b, path);
    }
  }

  lemma ListsItself(files: Files, done: seq<string>, b: string, path: string)
    requires b in files && path in Own(files[b]) && OnCircle(files, b) && b !in done
    ensures CircleListed(files, done, b, path)
  {
    hide Own;
    var n: nat :| n >= 1 && IsAbove(files, b, n, b);
    assert SkipsAt(files, b, n, path);
    FreshIsListed(files, done, b, n, path);
  }

  /** When a configuration on a circle loses a path, those below that list the path and are untouched were not
      cleaned. */
  lemma LastLister(files: Files, done: seq<string>, b: string, name: string, m: nat, path: string)
    requires name in files && path in Own(files[name]) && Untouched(files, done + [b], name, path)
    requires SkipsAt(Run(files, done), name, m, path) && Up(Run(files, done), name, m).value == b
    requires OnCircle(files, b)
    ensures name in Step(Run(files, done), b) && path in Own(Step(Run(files, done), b)[name])
  {
    hide Own, Step, OnCircle, CircleListed, Untouched;
    var before := Run(files, done);
    RunOwn(files, done, name);
    SameUp(files, before, name, m);
    ListedIsUntouched(files, done, b, path);
    UntouchedIsFresh(files, done, b, path, |done|);
    assert done[..|done|] == done;
    UntouchedMore(files, done, b, name, path);
    ListsItself(files, done, b, path);
    assert name != b;
    BelowIsFresh(files, done, b, name, m, path);
    RunLeavesOthers(files, done, name);
    StepOwn(before, b);
  }

  lemma BelowIsFresh(files: Files, done: seq<string>, b: string, name: string, m: nat, path: string)
    requires m >= 1 && SkipsAt(files, name, m, path) && Up(files, name, m).value == b && OnCircle(files, b) && b !in done
    requires Untouched(files, done, name, path)
    ensures name !in done
  {
    hide SkipsAt, OnCircle, CircleListed;
    forall j | 0 <= j < |done|
      ensures done[j] != name
    {
      FreshIsListed(files, done[..j], name, m, path);
    }
  }

  /** What a configuration inherits after a run, told from the files and the order of the run: what an untouched
      configuration above it lists. */
  lemma InheritsAfter(files: Files, done: seq<string>, name: string, path: string)
    ensures Inherits(Run(files, done), name, path) <==> StillListedAbove(files, done, name, path)
  {
    hide Own, Step, Untouched;
    var after := Run(files, done);
    if name in files {
      RunOwn(files, done, name);
      forall k: nat
        ensures Up(after, name, k) == Up(files, name, k)
      {
        SameUp(files, after, name, k);
      }
      if k: nat :| k >= 1 && SkipsAt(after, name, k, path) {
        ListedIsUntouched(files, done, Up(after, name, k).value, path);
        assert SkipsAt(files, name, k, path);
      }
      if k: nat :| k >= 1 && SkipsAt(files, name, k, path) && Untouched(files, done, Up(files, name, k).value, path) {
        var c := Up(files, name, k).value;
        UntouchedIsSkipped(files, done, c, path);
        var m: nat :| SkipsAt(after, c, m, path);
        UpAgain(after, name, k, m);
        assert SkipsAt(after, name, k + m, path);
      }
    }
  }

  // ---------------------------------------------------------------- dry runs

  /** It is the configuration's first turn, and a path that it lists is still listed above it. */
  ghost predicate ChangesAtTurn(files: Files, done: seq<string>, name: string) {
    name in files && name !in done && exists path :: path in Own(files[name]) && StillListedAbove(files, done, name, path)
  }

  lemma ChangedMeans(files: Files, name: string)
    ensures IsChanged(files, name) <==> name in files && exists path :: path in Own(files[name]) && Inherits(files, name, path)
  {
    hide Inherits;
    if name in files {
      CollectedIsExact(files, name);
    }
  }

  /** A configuration that was cleaned stays clean. */
  lemma {:induction false} CleanedOnce(files: Files, done: seq<string>, name: string)
    requires name in done
    ensures !IsChanged(Run(files, done), name)
    decreases |done|
  {
    hide Step, Own, Inherits;
    var first, b := done[..|done| - 1], done[|done| - 1];
    assert done == first + [b];
    RunMore(files, first, b);
    var before := Run(files, first);
    ChangedMeans(before, name);
    ChangedMeans(Step(before, b), name);
    StepOwn(before, b);
    if name in files {
      CollectedIsExact(before, name);
      forall path | Inherits(Step(before, b), name, path)
        ensures Inherits(before, name, path)
      {
        StepInheritsLess(before, b, name, path);
      }
    }
    if b != name {
      CleanedOnce(files, first, name);
    }
  }

  lemma StepInheritsLess(files: Files, b: string, name: string, path: string)
    requires Inherits(Step(files, b), name, path)
    ensures Inherits(files, name, path)
  {
    hide Step, SkipsAt;
    var n: nat :| n >= 1 && SkipsAt(Step(files, b), name, n, path);
    StepAddsNothing(files, b, name, n, path);
  }

  /** What the real run counts at a turn, told from the files and the order. */
  lemma TurnExactly(files: Files, done: seq<string>, name: string)
    ensures IsChanged(Run(files, done), name) <==> ChangesAtTurn(files, done, name)
  {
    hide Own, Inherits, StillListedAbove, IsChanged;
    if name in done {
      CleanedOnce(files, done, name);
    } else {
      ChangedMeans(Run(files, done), name);
      if name in files {
        RunLeavesOthers(files, done, name);
        forall path
          ensures Inherits(Run(files, done), name, path) <==> StillListedAbove(files, done, name, path)
        {
          InheritsAfter(files, done, name, path);
        }
      }
    }
  }

  lemma TurnWasChanged(files: Files, done: seq<string>, name: string)
    ensures ChangesAtTurn(files, done, name) ==> IsChanged(files, name)
  {
    hide Own, Untouched, SkipsAt;
    ChangedMeans(files, name);
    if ChangesAtTurn(files, done, name) {
      var path :| path in Own(files[name]) && StillListedAbove(files, done, name, path);
      assert Inherits(files, name, path);
    }
  }

  /** Every configuration that would change still does when its turn comes. */
  ghost predicate TurnsKeep(files: Files, done: seq<string>, order: seq<string>) {
    forall i :: 0 <= i < |order| && IsChanged(files, order[i]) ==> ChangesAtTurn(files, done + order[..i], order[i])
  }

  lemma TurnsStep(files: Files, done: seq<string>, order: seq<string>)
    requires order != []
    ensures TurnsKeep(files, done, order) <==>
            (IsChanged(files, order[0]) ==> ChangesAtTurn(files, done, order[0])) && TurnsKeep(files, done + [order[0]], order[1..])
  {
    hide IsChanged, ChangesAtTurn;
    var rest := order[1..];
    assert done + order[..0] == done;
    forall i | 0 <= i < |rest|
      ensures rest[i] == order[i + 1] && done + [order[0]] + rest[..i] == done + order[..i + 1]
    {
    }
    assert forall i :: 1 <= i < |order| ==> order[i] == rest[i - 1];
  }

  lemma {:induction false} CountsFrom(files: Files, done: seq<string>, order: seq<string>)
    ensures Count(Run(files, done), order, false) <= Count(files, order, true)
    ensures Count(Run(files, done), order, false) == Count(files, order, true) <==> TurnsKeep(files, done, order)
    decreases |order|
  {
    hide IsChanged, Step, ChangesAtTurn, TurnsKeep;
    if order == [] {
      NoTurns(files, done);
    } else {
      RunMore(files, done, order[0]);
      TurnExactly(files, done, order[0]);
      TurnWasChanged(files, done, order[0]);
      TurnsStep(files, done, order);
      CountsFrom(files, done + [order[0]], order[1..]);
    }
  }

  lemma NoTurns(files: Files, done: seq<string>)
    ensures TurnsKeep(files, done, [])
  {
  }

  /** A dry run announces as many files as the real run cleans, or more.  It is the same number if and only if every
      configuration that would change is named once, and when its turn comes a path that it lists is still listed
      above it. */
  lemma DryRunCounts(files: Files, order: seq<string>)
    ensures Count(files, order, false) <= Count(files, order, true)
    ensures Count(files, order, true) == Count(files, order, false) <==> TurnsKeep(files, [], order)
  {
    CountsFrom(files, [], order);
  }

  /** The run would change some configuration that is named twice. */
  ghost predicate ChangesTwice(files: Files, order: seq<string>) {
    exists i, j :: 0 <= i < j < |order| && order[i] == order[j] && IsChanged(files, order[i])
  }

  /** When circles keep their skips, and so without circles, only a configuration that is named twice makes a
      difference. */
  lemma DryRunCountsTwice(files: Files, order: seq<string>)
    requires CirclesKeep(files, order)
    ensures Count(files, order, true) == Count(files, order, false) <==> !ChangesTwice(files, order)
  {
    hide IsChanged, Step, ChangesAtTurn, CirclesKeep;
    DryRunCounts(files, order);
    forall i | 0 <= i < |order| && IsChanged(files, order[i])
      ensures ChangesAtTurn(files, [] + order[..i], order[i]) <==> order[i] !in order[..i]
    {
      assert [] + order[..i] == order[..i];
      KeptTurn(files, order, i);
    }
    TwiceMeans(files, order);
  }

  lemma TwiceMeans(files: Files, order: seq<string>)
    ensures ChangesTwice(files, order) <==> exists i :: 0 <= i < |order| && IsChanged(files, order[i]) && order[i] in order[..i]
  {
    hide IsChanged;
    if i, j :| 0 <= i < j < |order| && order[i] == order[j] && IsChanged(files, order[i]) {
      assert order[j] == order[..j][i];
    }
  }

  lemma KeptTurn(files: Files, order: seq<string>, i: nat)
    requires CirclesKeep(files, order) && i < |order| && IsChanged(files, order[i])
    ensures ChangesAtTurn(files, order[..i], order[i]) <==> order[i] !in order[..i]
  {
    hide Step, Own, IsChanged, StillListedAbove;
    var name, done := order[i], order[..i];
    PrefixKeeps(files, order, i);
    RunKeepsSkipsExactly(files, done);
    ChangedMeans(files, name);
    var path :| path in Own(files[name]) && Inherits(files, name, path);
    InheritsAfter(files, done, name, path);
  }

  lemma PrefixKeeps(files: Files, order: seq<string>, i: nat)
    requires CirclesKeep(files, order) && i <= |order|
    ensures CirclesKeep(files, order[..i])
  {
    hide OnCircle, Own, SkipsAt;
    forall name, path | name in order[..i] && name in files && OnCircle(files, name) && path in Own(files[name])
      ensures KeptAbove(files, order[..i], name, path)
    {
      assert KeptAbove(files, order, name, path);
    }
  }

  lemma TwoTurns(files: Files, a: string, c: string)
    ensures Count(files, [a, c], true) == (if IsChanged(files, a) then 1 else 0) + if IsChanged(files, c) then 1 else 0
    ensures Count(files, [a, c], false)
         == (if IsChanged(files, a) then 1 else 0) + if IsChanged(Run(files, [a]), c) then 1 else 0
  {
    hide IsChanged, Step;
    assert [a, c][1..] == [c] && [c][1..] == [] && [a][1..] == [];
    assert Run(files, [a]) == Run(Step(files, a), []) == Step(files, a);
    assert forall f: Files, dryRun :: Count(f, [c], dryRun) == (if IsChanged(f, c) then 1 else 0);
  }

  lemma ListsT(inherit: Option<string>)
    ensures Own(Config(inherit, Some([Group(Some(["t"]), "")]), "")) == {"t"}
  {
    var groups := [Group(Some(["t"]), "")];
    assert groups[1..] == [];
    assert PathsIn(groups) == (set p | p in ["t"]) + PathsIn([]);
  }

  /** For example, with a configuration that inherits from itself and one below it that lists the same path: the
      dry run announces both, but once the first is cleaned the other inherits nothing. */
  lemma CircleCountsLess()
    ensures var group := Group(Some(["t"]), "");
            var files := map["a" := Config(Some("a"), Some([group]), ""), "c" := Config(Some("a"), Some([group]), "")];
            Count(files, ["a", "c"], true) == 2 && Count(files, ["a", "c"], false) == 1
  {
    hide Step, IsChanged, CircleListed, Count, Own;
    var group := Group(Some(["t"]), "");
    var files := map["a" := Config(Some("a"), Some([group]), ""), "c" := Config(Some("a"), Some([group]), "")];
    ListsT(Some("a"));
    AboveIsA(files, "a", 1);
    AboveIsA(files, "c", 1);
    assert SkipsAt(files, "a", 1, "t") && SkipsAt(files, "c", 1, "t");
    ChangedMeans(files, "a");
    ChangedMeans(files, "c");
    assert IsAbove(files, "a", 1, "a");
    FreshIsListed(files, [], "a", 1, "t");
    assert ["a"][..0] == [];
    forall k: nat | k >= 1
      ensures Up(files, "c", k) == Some("a")
    {
      AboveIsA(files, "c", k);
    }
    assert !Untouched(files, ["a"], "a", "t");
    TurnExactly(files, ["a"], "c");
    TwoTurns(files, "a", "c");
  }

  lemma {:induction false} AboveIsA(files: Files, name: string, k: nat)
    requires k >= 1 && (name == "a" || name == "c") && files.Keys == {"a", "c"}
    requires files["a"].inherit == files["c"].inherit == Some("a")
    ensures Up(files, name, k) == Some("a")
    decreases k
  {
    if k > 1 {
      AboveIsA(files, "a", k - 1);
    } else {
      assert Up(files, "a", 0) == Some("a");
    }
  }
}
