/**
 The two evaluators.  Both trust `ValidatePath`: their preconditions say only that it accepted the
 path.  That every index into the path is in range, that no step fails to parse and that the default
 branch is dead is proved here.
 */
module JsonPathEvaluators {
  import opened Options
  import opened JsonValues
  import opened JsonPathReader
  import opened JsonPathEval
  import opened JsonLocations

  /** `path` from `ptr` on is something the validator accepts. */
  ghost predicate Accepted(path: string, ptr: nat) {
    ptr <= |path| && StepsAt(path, ptr).Steps?
  }

  ghost function StepsFrom(path: string, ptr: nat): seq<Step>
    requires Accepted(path, ptr)
  {
    StepsAt(path, ptr).steps
  }

  /** An accepted path that has not ended starts with a step, strictly shortens by it, and stays accepted. */
  lemma AcceptedStep(path: string, ptr: nat)
    requires Accepted(path, ptr) && ptr < |path|
    ensures StepAt(path, ptr).StepRead? && ptr + 1 < StepAt(path, ptr).next <= |path|
    ensures path[ptr] == '.' || path[ptr] == '['
    ensures Accepted(path, StepAt(path, ptr).next)
    ensures StepsFrom(path, ptr) == [StepAt(path, ptr).step] + StepsFrom(path, StepAt(path, ptr).next)
    ensures AnyWild(StepsFrom(path, ptr))
       <==> StepAt(path, ptr).step.IsWild() || AnyWild(StepsFrom(path, StepAt(path, ptr).next))
  {
    var step, rest := StepAt(path, ptr).step, StepsFrom(path, StepAt(path, ptr).next);
    var steps := [step] + rest;
    assert steps[1..] == rest;
    if AnyWild(rest) {
      var i :| 0 <= i < |rest| && rest[i].IsWild();
      assert steps[i + 1].IsWild();
    }
    assert steps[0] == step;
  }

  lemma FitsInto(v: Json, step: Step)
    requires Fits(v) && !step.IsWild()
    ensures StepInto(v, step).Some? ==> Fits(StepInto(v, step).value)
  {
    AllFitEach(Children(v));
    if v.Obj? && step.Key? && Find(v.members, step.key).Some? {
      var i :| 0 <= i < |v.members| && v.members[i] == Member(step.key, Find(v.members, step.key).value);
      assert Values(v.members)[i] == v.members[i].value;
    }
  }

  /** The child an array index leads to. */
  method ArrayElement(v: Json, arrayIndex: nat, fromBack: bool) returns (r: Option<Json>)
    requires v.Arr? && Fits(v) && arrayIndex < INVALID_INDEX
    ensures r == StepInto(v, if fromBack then BackIndex(arrayIndex) else Index(arrayIndex))
    ensures r.Some? ==> Fits(r.value)
  {
    var index := arrayIndex;
    if fromBack && index != 0 {
      index := (|v.elements| - index) % 0x1_0000_0000_0000_0000;
    }
    WrapAroundSelectsNothing(v, arrayIndex, fromBack);
    FitsInto(v, if fromBack then BackIndex(arrayIndex) else Index(arrayIndex));
    r := if index < |v.elements| then Some(v.elements[index]) else None;
  }

  ghost function EvalOneFrom(v: Option<Json>, steps: seq<Step>): Option<Json>
    requires !AnyWild(steps)
  {
    if v.None? then None else EvalOne(v.value, steps)
  }

  lemma EvalOneStep(v: Json, path: string, ptr: nat)
    requires Accepted(path, ptr) && ptr < |path| && !AnyWild(StepsFrom(path, ptr))
    ensures StepAt(path, ptr).StepRead? && !StepAt(path, ptr).step.IsWild()
    ensures Accepted(path, StepAt(path, ptr).next) && !AnyWild(StepsFrom(path, StepAt(path, ptr).next))
    ensures EvalOne(v, StepsFrom(path, ptr))
         == EvalOneFrom(StepInto(v, StepAt(path, ptr).step), StepsFrom(path, StepAt(path, ptr).next))
  {
    hide StepAt;
    AcceptedStep(path, ptr);
    assert StepsFrom(path, ptr)[1..] == StepsFrom(path, StepAt(path, ptr).next);
  }

  /** Takes one step without wildcards. */
  method TakeStep(v: Json, path: string, start: nat) returns (val: Option<Json>, ptr: nat)
    requires Accepted(path, start) && start < |path| && !StepAt(path, start).step.IsWild() && Fits(v)
    ensures val == StepInto(v, StepAt(path, start).step) && start < ptr <= |path|
    ensures val.Some? ==> ptr == StepAt(path, start).next && Fits(val.value)
  {
    AcceptedStep(path, start);
    FitsInto(v, StepAt(path, start).step);
    if path[start] == '.' {
      val, ptr := TakeField(v, path, start);
    } else {
      val, ptr := TakeIndex(v, path, start);
    }
  }

  method TakeField(v: Json, path: string, start: nat) returns (val: Option<Json>, ptr: nat)
    requires start + 1 < |path| && path[start] == '.'
    requires StepAt(path, start).StepRead? && !StepAt(path, start).step.IsWild()
    ensures val == StepInto(v, StepAt(path, start).step) && start < ptr <= |path|
    ensures val.Some? ==> ptr == StepAt(path, start).next
  {
    hide KeyAt;
    ptr := start + 1;
    if !v.Obj? {
      return None, ptr;
    }
    var key := ReadKey(path, ptr);
    ptr := ptr + key.charsRead;
    val := Find(v.members, key.key);
  }

  method TakeIndex(v: Json, path: string, start: nat) returns (val: Option<Json>, ptr: nat)
    requires start + 1 < |path| && path[start] == '[' && Fits(v)
    requires StepAt(path, start).StepRead? && !StepAt(path, start).step.IsWild()
    ensures val == StepInto(v, StepAt(path, start).step) && start < ptr <= |path|
    ensures val.Some? ==> ptr == StepAt(path, start).next
  {
    hide IndexAt, Fits;
    ptr := start + 1;
    if !v.Arr? {
      return None, ptr;
    }
    var ok, next, arrayIndex, fromBack := ReadArrayIndex(path, ptr);
    ptr := next;
    val := ArrayElement(v, arrayIndex, fromBack);
  }

  /** Evaluates a path that the validator classified as regular. */
  method GetPath(document: Json, path: string) returns (val: Option<Json>)
    requires |path| >= 1 && path[0] == '$' && Fits(document)
    requires Accepted(path, 1) && !AnyWild(StepsFrom(path, 1))
    ensures val == EvalOne(document, StepsFrom(path, 1))
    ensures val.None? ==> forall t :: !IsTrace(document, StepsFrom(path, 1), t)
    ensures val.Some? ==>
              exists t :: IsTrace(document, StepsFrom(path, 1), t) && IsWay(document, t) && val.value == EndOf(document, t)
  {
    hide StepAt, EvalOne, AnyWild, Fits, IsTrace, IsWay;
    OneTraced(document, StepsFrom(path, 1));
    val := Some(document);
    var ptr := 1;
    while val.Some? && ptr != |path|
      invariant val.Some? ==> Accepted(path, ptr) && !AnyWild(StepsFrom(path, ptr)) && Fits(val.value)
      invariant EvalOne(document, StepsFrom(path, 1))
             == if val.None? then None else EvalOne(val.value, StepsFrom(path, ptr))
      decreases |path| - ptr
    {
      EvalOneStep(val.value, path, ptr);
      AcceptedStep(path, ptr);
      val, ptr := TakeStep(val.value, path, ptr);
    }
    EvalOneOfNothing(val);
  }

  lemma EvalOneOfNothing(val: Option<Json>)
    ensures val.Some? ==> EvalOne(val.value, []) == val
  {
  }

  // ---------------------------------------------------------------- paths with wildcards

  /** The list that the wildcard evaluator appends its results to. */
  class Results {
    var vals: seq<Json>

    constructor ()
      ensures vals == []
    {
      vals := [];
    }
  }

  /** Re-entering the path at the second '.' of a `..key` step reads the plain step `.key`. */
  lemma ReEntry(path: string, start: nat)
    requires Accepted(path, start) && start < |path| && StepAt(path, start).step.DescendKey?
    requires StepAt(path, start).StepRead?
    ensures Accepted(path, start + 1)
    ensures StepsFrom(path, start + 1)
         == [Key(StepAt(path, start).step.key)] + StepsFrom(path, StepAt(path, start).next)
  {
    AcceptedStep(path, start);
    var key := KeyAt(path, start + 1);
    assert key.recursive && !key.IsWildCard() && path[start + 1] == '.';
    assert path[start + 2] != '*' && path[start + 2] != '.';
    assert KeyAt(path, start + 2) == KeyRead(key.charsRead - 1, false, key.key);
    assert StepAt(path, start + 1) == StepRead(Key(key.key), StepAt(path, start).next);
  }

  /** Appends the children of a value to the work list, in document order. */
  method PushChildren(v: Json, recVals: seq<Json>) returns (extended: seq<Json>)
    ensures extended == recVals + Children(v)
  {
    extended := recVals;
    if v.Arr? {
      for idx := 0 to |v.elements|
        invariant extended == recVals + v.elements[..idx]
      {
        extended := extended + [v.elements[idx]];
      }
    } else if v.Obj? {
      for idx := 0 to |v.members|
        invariant extended == recVals + Values(v.members)[..idx]
      {
        extended := extended + [v.members[idx].value];
      }
    }
  }

  /** Evaluates the rest of the path on each value in turn. */
  method EvalEach(values: seq<Json>, path: string, ptr: nat, results: Results)
    requires Accepted(path, ptr) && AllFit(values)
    modifies results
    ensures results.vals == old(results.vals) + EvalAll(values, StepsFrom(path, ptr))
    decreases |path| - ptr, 3
  {
    AllFitEach(values);
    hide Eval, Fits, StepsAt;
    for idx := 0 to |values|
      invariant results.vals == old(results.vals) + EvalAll(values[..idx], StepsFrom(path, ptr))
    {
      EvalAllOneMore(values, idx, StepsFrom(path, ptr));
      GetWildcardPathInternal(Some(values[idx]), path, ptr, results);
    }
    assert values[..|values|] == values;
  }

  /** The values on which a recursive step has evaluated the rest of the path: at the end of the path
      the start itself is left out. */
  ghost function Scanned(seen: seq<Json>, atEnd: bool): seq<Json> {
    if atEnd && seen != [] then seen[1..] else seen
  }

  /** All the values a recursive step visits, in breadth-first order. */
  ghost function Visited(v: Json, atEnd: bool): seq<Json> {
    if atEnd then LevelOrder(Children(v)) else LevelOrder([v])
  }

  /** Scanning one value of the work list: its children join the end of the list, and the list still to
      be scanned gets smaller. */
  lemma ScanQueue(recVals: seq<Json>, i: nat)
    requires i < |recVals|
    ensures var extended := recVals + Children(recVals[i]);
            && SizeOfAll(extended[i + 1..]) < SizeOfAll(recVals[i..])
            && extended[..i + 1] + Walk(extended[i + 1..]) == recVals[..i] + Walk(recVals[i..])
  {
    var extended, queue := recVals + Children(recVals[i]), recVals[i..];
    assert extended[i + 1..] == queue[1..] + Children(queue[0]);
    QueueShrinks(queue);
    assert Walk(queue) == [queue[0]] + Walk(extended[i + 1..]);
    hide Walk, Children, SizeOfAll;
    assert extended[..i + 1] == recVals[..i] + [queue[0]];
    assert recVals[..i] + ([queue[0]] + Walk(extended[i + 1..])) == recVals[..i] + [queue[0]] + Walk(extended[i + 1..]);
  }

  lemma ScanFits(recVals: seq<Json>, i: nat)
    requires i < |recVals| && AllFit(recVals)
    ensures Fits(recVals[i]) && AllFit(recVals + Children(recVals[i]))
  {
    AllFitEach(recVals);
    AllFitEach(Children(recVals[i]));
    AllFitEach(recVals + Children(recVals[i]));
  }

  lemma ScanResults(recVals: seq<Json>, i: nat, more: seq<Json>, atEnd: bool, steps: seq<Step>)
    requires i < |recVals|
    ensures EvalAll(Scanned((recVals + more)[..i + 1], atEnd), steps)
         == EvalAll(Scanned(recVals[..i], atEnd), steps) + if i > 0 || !atEnd then Eval(recVals[i], steps) else []
  {
    hide Eval;
    var seen := Scanned((recVals + more)[..i + 1], atEnd);
    if i > 0 || !atEnd {
      assert seen == Scanned(recVals[..i], atEnd) + [recVals[i]];
      assert seen[..|seen| - 1] == Scanned(recVals[..i], atEnd);
    } else {
      assert seen == [];
    }
  }

  lemma ScannedEverything(v: Json, recVals: seq<Json>, atEnd: bool)
    requires recVals + Walk([]) == Walk([v])
    ensures Scanned(recVals, atEnd) == Visited(v, atEnd)
  {
    DescendantsOnce(v);
    WalkIsLevelOrder([v]);
    assert recVals + [] == recVals;
  }

  /** Scans one value of the work list: its children join the list, and the rest of the path is evaluated
      on it unless it is the start and the path has ended. */
  method ScanOne(recVals: seq<Json>, i: nat, path: string, ptr: nat, results: Results) returns (extended: seq<Json>)
    requires i < |recVals| && Accepted(path, ptr) && AllFit(recVals)
    modifies results
    ensures extended == recVals + Children(recVals[i]) && AllFit(extended)
    ensures results.vals == old(results.vals)
         + if i > 0 || ptr != |path| then Eval(recVals[i], StepsFrom(path, ptr)) else []
    decreases |path| - ptr, 3
  {
    ScanFits(recVals, i);
    hide Eval, Fits, AllFit, StepsAt, Children, Accepted;
    extended := PushChildren(recVals[i], recVals);
    if i > 0 || ptr != |path| {
      GetWildcardPathInternal(Some(recVals[i]), path, ptr, results);
    }
  }

  /** The work list `recVals`, of which the first `i` values have been scanned and gave `produced`. */
  ghost predicate WorkList(v: Json, recVals: seq<Json>, i: nat, atEnd: bool, steps: seq<Step>, produced: seq<Json>) {
    && i <= |recVals| && AllFit(recVals)
    && recVals[..i] + Walk(recVals[i..]) == Walk([v])
    && produced == EvalAll(Scanned(recVals[..i], atEnd), steps)
  }

  lemma WorkListStarts(v: Json, atEnd: bool, steps: seq<Step>)
    requires Fits(v)
    ensures WorkList(v, [v], 0, atEnd, steps, [])
  {
    AllFitEach([v]);
    assert [v][0..] == [v] && [] + Walk([v]) == Walk([v]);
  }

  lemma WorkListGrows(v: Json, recVals: seq<Json>, i: nat, atEnd: bool, steps: seq<Step>, produced: seq<Json>)
    requires i < |recVals| && WorkList(v, recVals, i, atEnd, steps, produced)
    ensures WorkList(v, recVals + Children(recVals[i]), i + 1, atEnd, steps,
                     produced + if i > 0 || !atEnd then Eval(recVals[i], steps) else [])
  {
    hide Fits, AllFit, Walk, SizeOfAll, EvalAll, Eval, Scanned;
    ScanFits(recVals, i);
    ScanQueue(recVals, i);
    ScanResults(recVals, i, Children(recVals[i]), atEnd, steps);
  }

  lemma WorkListEnds(v: Json, recVals: seq<Json>, atEnd: bool, steps: seq<Step>, produced: seq<Json>)
    requires WorkList(v, recVals, |recVals|, atEnd, steps, produced)
    ensures produced == EvalAll(Visited(v, atEnd), steps)
  {
    assert recVals[..|recVals|] == recVals && recVals[|recVals|..] == [];
    ScannedEverything(v, recVals, atEnd);
  }

  /** The recursive step: a work list of values that grows while it is scanned. */
  method Recurse(v: Json, path: string, ptr: nat, results: Results)
    requires Accepted(path, ptr) && Fits(v)
    modifies results
    ensures results.vals == old(results.vals) + EvalAll(Visited(v, ptr == |path|), StepsFrom(path, ptr))
    decreases |path| - ptr, 4
  {
    AllFitEach([v]);
    hide Eval, EvalAll, Fits, AllFit, StepsAt, LevelOrder, Walk, SizeOfAll, Children, WorkList, Accepted, Visited;
    ghost var steps: seq<Step>, produced: seq<Json> := StepsFrom(path, ptr), [];
    var recVals := [v];
    var i := 0;
    WorkListStarts(v, ptr == |path|, steps);
    while i < |recVals|
      invariant i <= |recVals| && AllFit(recVals)
      invariant WorkList(v, recVals, i, ptr == |path|, steps, produced)
      invariant results.vals == old(results.vals) + produced
      decreases SizeOfAll(recVals[i..])
    {
      ScanFits(recVals, i);
      ScanQueue(recVals, i);
      WorkListGrows(v, recVals, i, ptr == |path|, steps, produced);
      produced := produced + if i > 0 || ptr != |path| then Eval(recVals[i], steps) else [];
      recVals := ScanOne(recVals, i, path, ptr, results);
      i := i + 1;
    }
    WorkListEnds(v, recVals, ptr == |path|, steps, produced);
  }

  lemma AtPathEnd(path: string, ptr: nat)
    requires Accepted(path, ptr)
    ensures StepsFrom(path, ptr) == [] <==> ptr == |path|
  {
  }

  /** Where the '.' case goes on after reading a recursive key: a wildcard is skipped, and for a key the
      path is re-entered at its second '.'. */
  ghost function DescendPtr(path: string, start: nat): nat
    requires start + 1 < |path|
  {
    var key := KeyAt(path, start + 1);
    if key.IsWildCard() then start + 1 + key.charsRead else start + 1
  }

  lemma DescendMeaning(v: Json, path: string, start: nat)
    requires Accepted(path, start) && start + 1 < |path| && path[start] == '.' && KeyAt(path, start + 1).recursive
    ensures var ptr := DescendPtr(path, start);
            && start < ptr && Accepted(path, ptr)
            && Eval(v, StepsFrom(path, start)) == EvalAll(Visited(v, ptr == |path|), StepsFrom(path, ptr))
  {
    AcceptedStep(path, start);
    FirstStep(v, path, start);
    var key := KeyAt(path, start + 1);
    if key.IsWildCard() {
      AtPathEnd(path, DescendPtr(path, start));
    } else {
      ReEntry(path, start);
    }
    hide KeyAt, EvalAll, LevelOrder, Eval, StepsAt;
  }

  lemma FieldMeaning(v: Json, path: string, start: nat)
    requires Accepted(path, start) && start + 1 < |path| && path[start] == '.' && !KeyAt(path, start + 1).recursive
    ensures var key := KeyAt(path, start + 1);
            var next := start + 1 + key.charsRead;
            && start < next && Accepted(path, next)
            && Eval(v, StepsFrom(path, start))
               == if !v.Obj? then []
                  else if key.IsWildCard() then EvalAll(Values(v.members), StepsFrom(path, next))
                  else EvalSome(Find(v.members, key.key), StepsFrom(path, next))
  {
    hide KeyAt, EvalAll, LevelOrder, Eval, StepsAt;
    AcceptedStep(path, start);
    FirstStep(v, path, start);
  }

  /** What the '[' case has to do, by what `ReadArrayIndex` finds there. */
  lemma IndexStepMeaning(v: Json, path: string, start: nat)
    requires Accepted(path, start) && start < |path| && path[start] == '['
    ensures start + 1 < |path| && !IndexAt(path, start + 1).BadIndex?
    ensures var read := IndexAt(path, start + 1);
            var all := Eval(v, StepsFrom(path, start));
            && start < read.next <= |path| && Accepted(path, read.next)
            && (v.Arr? && read.WildIndex? ==> all == EvalAll(v.elements, StepsFrom(path, read.next)))
            && (v.Arr? && read.NumberedIndex? ==>
                  all == EvalSome(StepInto(v, if read.fromBack then BackIndex(read.index) else Index(read.index)),
                                  StepsFrom(path, read.next)))
            && (!v.Arr? ==> all == [])
  {
    AcceptedStep(path, start);
    FirstStep(v, path, start);
    hide IndexAt, EvalAll, Eval;
  }

  /** Evaluates an object field step, the '.' case.  Either the step branched and everything it selects
      has been appended, or evaluation goes on with one value. */
  method FieldStep(v: Json, path: string, start: nat, results: Results) returns (done: bool, val: Option<Json>, ptr: nat)
    requires Accepted(path, start) && start < |path| && path[start] == '.' && Fits(v)
    modifies results
    ensures start < ptr <= |path|
    ensures done ==> results.vals == old(results.vals) + Eval(v, StepsFrom(path, start))
    ensures !done ==> results.vals == old(results.vals)
    ensures !done && val.Some? ==> Accepted(path, ptr) && Fits(val.value)
    ensures !done ==> Eval(v, StepsFrom(path, start)) == if val.None? then [] else Eval(val.value, StepsFrom(path, ptr))
    decreases |path| - start, 1
  {
    AcceptedStep(path, start);
    hide Eval, StepsAt, KeyAt, StepAt, Fits, Accepted;
    var key := ReadKey(path, start + 1);
    if key.recursive {
      ptr := DescendStep(v, path, start, key, results);
      done, val := true, None;
    } else {
      done, val, ptr := PlainFieldStep(v, path, start, key, results);
    }
  }

  /** The '.' case with a recursive key. */
  method DescendStep(v: Json, path: string, start: nat, key: KeyRead, results: Results) returns (ptr: nat)
    requires Accepted(path, start) && start + 1 < |path| && path[start] == '.' && Fits(v)
    requires key == KeyAt(path, start + 1) && key.recursive
    modifies results
    ensures start < ptr <= |path|
    ensures results.vals == old(results.vals) + Eval(v, StepsFrom(path, start))
    decreases |path| - start, 0
  {
    DescendMeaning(v, path, start);
    hide Eval, EvalAll, StepsAt, KeyAt, Fits, Visited;
    ptr := start + 1;
    if key.IsWildCard() {
      ptr := ptr + key.charsRead;
    }
    assert ptr == DescendPtr(path, start);
    hide DescendPtr, StepsFrom, Accepted;
    Recurse(v, path, ptr, results);
  }

  /** The '.' case with a key of this object only. */
  method PlainFieldStep(v: Json, path: string, start: nat, key: KeyRead, results: Results)
    returns (done: bool, val: Option<Json>, ptr: nat)
    requires Accepted(path, start) && start + 1 < |path| && path[start] == '.' && Fits(v)
    requires key == KeyAt(path, start + 1) && !key.recursive
    modifies results
    ensures start < ptr <= |path|
    ensures done ==> results.vals == old(results.vals) + Eval(v, StepsFrom(path, start))
    ensures !done ==> results.vals == old(results.vals)
    ensures !done && val.Some? ==> Accepted(path, ptr) && Fits(val.value)
    ensures !done ==> Eval(v, StepsFrom(path, start)) == if val.None? then [] else Eval(val.value, StepsFrom(path, ptr))
    decreases |path| - start, 0
  {
    hide Eval, EvalAll, StepsAt, StepsFrom, StepAt, KeyAt, Fits, Find, Accepted, AllFit;
    FieldMeaning(v, path, start);
    FitsChildren(v);
    FitsInto(v, Key(key.key));
    done, val, ptr := false, None, start + 1 + key.charsRead;
    if v.Obj? {
      if key.IsWildCard() {
        EvalEach(Values(v.members), path, ptr, results);
        done := true;
      } else {
        val := Find(v.members, key.key);
      }
    }
  }

  /** Evaluates an array step, the '[' case. */
  method IndexStep(v: Json, path: string, start: nat, results: Results) returns (done: bool, val: Option<Json>, ptr: nat)
    requires Accepted(path, start) && start < |path| && path[start] == '[' && Fits(v)
    modifies results
    ensures start < ptr <= |path|
    ensures done ==> results.vals == old(results.vals) + Eval(v, StepsFrom(path, start))
    ensures !done ==> results.vals == old(results.vals)
    ensures !done && val.Some? ==> Accepted(path, ptr) && Fits(val.value)
    ensures !done ==> Eval(v, StepsFrom(path, start)) == if val.None? then [] else Eval(val.value, StepsFrom(path, ptr))
    decreases |path| - start, 1
  {
    IndexStepMeaning(v, path, start);
    FitsChildren(v);
    hide Eval, StepsAt, IndexAt, StepAt, Fits, EvalAll, Accepted, AllFit;
    done, val, ptr := false, None, start + 1;
    if !v.Arr? {
      return;
    }
    var ok, next, arrayIndex, fromBack := ReadArrayIndex(path, ptr);
    ptr := next;
    if arrayIndex == INVALID_INDEX {
      EvalEach(v.elements, path, ptr, results);
      done := true;
      return;
    }
    val := ArrayElement(v, arrayIndex, fromBack);
  }

  lemma FitsChildren(v: Json)
    requires Fits(v)
    ensures AllFit(Children(v))
  {
  }

  /** What the first step of an accepted path does to a value. */
  lemma FirstStep(v: Json, path: string, start: nat)
    requires Accepted(path, start) && start < |path|
    ensures StepAt(path, start).StepRead? && Accepted(path, StepAt(path, start).next)
    ensures Eval(v, StepsFrom(path, start)) == EvalFirst(v, StepAt(path, start).step, StepsFrom(path, StepAt(path, start).next))
  {
    hide StepAt, StepsAt, EvalFirst;
    AcceptedStep(path, start);
    assert StepsFrom(path, start)[1..] == StepsFrom(path, StepAt(path, start).next);
  }

  /** Appends what the path selects from `value`. */
  method GetWildcardPathInternal(value: Option<Json>, path: string, start: nat, results: Results)
    requires Accepted(path, start) && (value.Some? ==> Fits(value.value))
    modifies results
    ensures results.vals == old(results.vals) + EvalSome(value, StepsFrom(path, start))
    decreases |path| - start, 2
  {
    hide StepAt, Fits, EvalAll;
    var val, ptr := value, start;
    while val.Some? && ptr != |path|
      invariant start <= ptr && (val.Some? ==> Accepted(path, ptr) && Fits(val.value))
      invariant results.vals == old(results.vals)
      invariant EvalSome(value, StepsFrom(path, start)) == if val.None? then [] else Eval(val.value, StepsFrom(path, ptr))
      decreases |path| - ptr
    {
      AcceptedStep(path, ptr);
      var done;
      if path[ptr] == '.' {
        done, val, ptr := FieldStep(val.value, path, ptr, results);
      } else {
        done, val, ptr := IndexStep(val.value, path, ptr, results);
      }
      if done {
        return;
      }
    }
    if val.Some? {
      results.vals := results.vals + [val.value];
    }
  }

  /** Appends everything that an accepted path selects from a document. */
  method GetWildcardPath(document: Json, path: string, results: Results)
    requires |path| >= 1 && path[0] == '$' && Accepted(path, 1) && Fits(document)
    modifies results
    ensures results.vals == old(results.vals) + Eval(document, StepsFrom(path, 1))
    ensures exists traces ::
              old(results.vals) <= results.vals
              && AreTraced(document, StepsFrom(path, 1), results.vals[|old(results.vals)|..], traces)
  {
    hide Eval, AreTraced, StepsAt;
    ghost var traces := EvalTraced(document, StepsFrom(path, 1));
    GetWildcardPathInternal(Some(document), path, 1, results);
    assert results.vals[|old(results.vals)|..] == Eval(document, StepsFrom(path, 1));
  }
}
