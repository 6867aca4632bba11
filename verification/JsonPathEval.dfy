/**
 Evaluating a validated JSON path.  `Eval` says which values a sequence of steps selects, in which
 order; the two evaluators below work on the path text and are proved against it.
 */
module JsonPathEval {
  import opened Options
  import opened JsonValues
  import opened JsonPathReader

  // ---------------------------------------------------------------- what a path selects

  /** A step into every value costs one more than the step it repeats everywhere. */
  function StepWeight(step: Step): nat {
    if step.DescendKey? then 2 else 1
  }

  function Weight(steps: seq<Step>): nat {
    if steps == [] then 0 else StepWeight(steps[0]) + Weight(steps[1..])
  }

  function Element(v: Json, i: int): Option<Json> {
    if v.Arr? && 0 <= i < |v.elements| then Some(v.elements[i]) else None
  }

  /** The value a step without wildcards leads to. */
  function StepInto(v: Json, step: Step): Option<Json>
    requires !step.IsWild()
  {
    match step
    case Key(key) => if v.Obj? then Find(v.members, key) else None
    case Index(n) => Element(v, n)
    case BackIndex(n) => if n == 0 then Element(v, 0) else if v.Arr? then Element(v, |v.elements| - n) else None
  }

  /** All values the steps select from `v`, in order. */
  function Eval(v: Json, steps: seq<Step>): seq<Json>
    decreases Weight(steps), 1
  {
    if steps == [] then [v] else EvalFirst(v, steps[0], steps[1..])
  }

  /** What one step selects, with the rest of the path evaluated on it. */
  function EvalFirst(v: Json, step: Step, rest: seq<Step>): seq<Json>
    decreases StepWeight(step) + Weight(rest), 0
  {
    match step
    case AnyKey => if v.Obj? then EvalAll(Values(v.members), rest) else []
    case AnyIndex => if v.Arr? then EvalAll(v.elements, rest) else []
    case Descend => EvalAll(if rest == [] then LevelOrder(Children(v)) else LevelOrder([v]), rest)
    case DescendKey(key) =>
      assert ([Key(key)] + rest)[1..] == rest;
      EvalAll(LevelOrder([v]), [Key(key)] + rest)
    case _ => EvalSome(StepInto(v, step), rest)
  }

  function EvalSome(v: Option<Json>, steps: seq<Step>): seq<Json>
    decreases Weight(steps), 2
  {
    if v.None? then [] else Eval(v.value, steps)
  }

  function EvalAll(vs: seq<Json>, steps: seq<Step>): seq<Json>
    decreases Weight(steps), 2 + |vs|
  {
    if vs == [] then [] else EvalAll(vs[..|vs| - 1], steps) + Eval(vs[|vs| - 1], steps)
  }

  /** The single value that steps without wildcards lead to. */
  function EvalOne(v: Json, steps: seq<Step>): Option<Json>
    requires !AnyWild(steps)
  {
    if steps == [] then Some(v)
    else
      assert !steps[0].IsWild();
      match StepInto(v, steps[0])
      case None => None
      case Some(next) =>
        assert !AnyWild(steps[1..]) by { TailIsRegular(steps); }
        EvalOne(next, steps[1..])
  }

  lemma TailIsRegular(steps: seq<Step>)
    requires steps != [] && !AnyWild(steps)
    ensures !steps[0].IsWild() && !AnyWild(steps[1..])
  {
    assert forall i :: 0 <= i < |steps[1..]| ==> steps[1..][i] == steps[i + 1];
  }

  /** On a path without wildcards both evaluators agree: one value, or none. */
  lemma {:induction false} RegularPathsAgree(v: Json, steps: seq<Step>)
    requires !AnyWild(steps)
    ensures Eval(v, steps) == match EvalOne(v, steps) case None => [] case Some(x) => [x]
    decreases |steps|
  {
    if steps != [] {
      TailIsRegular(steps);
      assert EvalFirst(v, steps[0], steps[1..]) == EvalSome(StepInto(v, steps[0]), steps[1..]);
      if StepInto(v, steps[0]).Some? {
        RegularPathsAgree(StepInto(v, steps[0]).value, steps[1..]);
      }
    }
  }

  lemma {:induction false} EvalAllConcat(xs: seq<Json>, ys: seq<Json>, steps: seq<Step>)
    ensures EvalAll(xs + ys, steps) == EvalAll(xs, steps) + EvalAll(ys, steps)
    decreases |ys|
  {
    hide Eval;
    if ys == [] {
      assert xs + ys == xs;
    } else {
      var n := |ys| - 1;
      assert (xs + ys)[..|xs| + n] == xs + ys[..n] && (xs + ys)[|xs| + n] == ys[n];
      EvalAllConcat(xs, ys[..n], steps);
    }
  }

  lemma EvalAllOneMore(vs: seq<Json>, i: nat, steps: seq<Step>)
    requires i < |vs|
    ensures EvalAll(vs[..i + 1], steps) == EvalAll(vs[..i], steps) + Eval(vs[i], steps)
  {
    hide Eval;
    assert vs[..i + 1][..i] == vs[..i];
  }

  // ---------------------------------------------------------------- 64-bit indexes

  /** The index an evaluator looks up: from the back, the length minus the index in 64-bit arithmetic. */
  function LookedUp(length: nat, index: nat, fromBack: bool): nat {
    if fromBack && index != 0 then (length - index) % 0x1_0000_0000_0000_0000 else index
  }

  /** An index past the front of the array wraps around to one past its end, so nothing is selected. */
  lemma WrapAroundSelectsNothing(v: Json, index: nat, fromBack: bool)
    requires v.Arr? && |v.elements| < ARRAY_LENGTH_LIMIT && index < INVALID_INDEX
    ensures Element(v, LookedUp(|v.elements|, index, fromBack)) == StepInto(v, if fromBack then BackIndex(index) else Index(index))
    ensures fromBack && 1 <= index <= |v.elements| ==> LookedUp(|v.elements|, index, true) == |v.elements| - index
  {
    var len := |v.elements|;
    if fromBack && index != 0 {
      if index <= len {
        assert (len - index) % 0x1_0000_0000_0000_0000 == len - index;
      } else {
        assert (len - index) % 0x1_0000_0000_0000_0000 == len - index + 0x1_0000_0000_0000_0000;
      }
    }
  }

  /** `[#]` is read as the index 2^32 - 1; it selects nothing exactly in arrays that have no such element. */
  lemma HashSelectsNothing(v: Json)
    requires v.Arr?
    ensures IndexAt("$[#]", 2) == NumberedIndex(UINT32_MAX, false, 4)
    ensures StepInto(v, Index(UINT32_MAX)) == None <==> |v.elements| <= UINT32_MAX
  {
  }
}
