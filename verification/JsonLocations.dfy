/**
 Where the values that a path selects stand in the document.  Every selected value has a trace: for each step the
 way down that it takes, as positions among the parts of a value.  The traces that fit a path are told with the
 document's own constructors, and what is evaluated is proved to be the values at exactly these, in order.
 */
module JsonLocations {
  import opened Options
  import opened JsonValues
  import opened JsonPathReader
  import opened JsonPathEval

  /** A way down: positions of parts, from the outside in. */
  type Place = seq<nat>

  // ---------------------------------------------------------------- places

  function PartCount(v: Json): nat {
    match v
    case Scalar(_) => 0
    case Arr(elements) => |elements|
    case Obj(members) => |members|
  }

  function Part(v: Json, i: nat): Json
    requires i < PartCount(v)
  {
    match v
    case Arr(elements) => elements[i]
    case Obj(members) => members[i].value
  }

  predicate IsPlace(v: Json, p: Place) {
    p == [] || (p[0] < PartCount(v) && IsPlace(Part(v, p[0]), p[1..]))
  }

  function ValueAt(v: Json, p: Place): Json
    requires IsPlace(v, p)
  {
    if p == [] then v else ValueAt(Part(v, p[0]), p[1..])
  }

  lemma {:induction false} PlaceJoins(v: Json, p: Place, q: Place)
    ensures IsPlace(v, p + q) <==> IsPlace(v, p) && IsPlace(ValueAt(v, p), q)
    ensures IsPlace(v, p + q) ==> ValueAt(v, p + q) == ValueAt(ValueAt(v, p), q)
  {
    if p == [] {
      assert p + q == q;
    } else {
      assert (p + q)[0] == p[0] && (p + q)[1..] == p[1..] + q;
      if p[0] < PartCount(v) {
        PlaceJoins(Part(v, p[0]), p[1..], q);
      }
    }
  }

  /** Of two places of the same length the one further left. */
  predicate IsLeftOf(p: Place, q: Place)
    requires |p| == |q|
  {
    p != [] && (p[0] < q[0] || (p[0] == q[0] && IsLeftOf(p[1..], q[1..])))
  }

  /** Breadth first: the shorter place, and of places of the same length the one further left. */
  predicate IsBefore(p: Place, q: Place) {
    |p| < |q| || (|p| == |q| && IsLeftOf(p, q))
  }

  // ---------------------------------------------------------------- traces

  /** The step leads from a value to its part `i`. */
  predicate LeadsTo(v: Json, step: Step, i: nat) {
    match step
    case Key(key) =>
      v.Obj? && i < |v.members| && v.members[i].key == key && forall j :: 0 <= j < i ==> v.members[j].key != key
    case AnyKey => v.Obj? && i < |v.members|
    case Index(n) => v.Arr? && i == n < |v.elements|
    case BackIndex(n) => v.Arr? && i < |v.elements| && if n == 0 then i == 0 else i + n == |v.elements|
    case AnyIndex => v.Arr? && i < |v.elements|
    case _ => false
  }

  /** A trace of the steps through a value: one part for a plain step, any way down for a recursive one.  At the end of
      a path a recursive step without a key does not stay where it is. */
  predicate IsTrace(v: Json, steps: seq<Step>, trace: seq<Place>)
    decreases |trace|
  {
    if steps == [] then trace == []
    else
      && trace != [] && IsPlace(v, trace[0])
      && match steps[0]
         case Descend => (|steps| == 1 ==> trace[0] != []) && IsTrace(ValueAt(v, trace[0]), steps[1..], trace[1..])
         case DescendKey(key) => IsTrace(ValueAt(v, trace[0]), [Key(key)] + steps[1..], trace[1..])
         case step =>
           |trace[0]| == 1 && LeadsTo(v, step, trace[0][0]) && IsTrace(ValueAt(v, trace[0]), steps[1..], trace[1..])
  }

  /** The value that a trace ends at. */
  function EndOf(v: Json, trace: seq<Place>): Json
    requires IsWay(v, trace)
    decreases |trace|
  {
    if trace == [] then v else EndOf(ValueAt(v, trace[0]), trace[1..])
  }

  predicate IsWay(v: Json, trace: seq<Place>)
    decreases |trace|
  {
    trace == [] || (IsPlace(v, trace[0]) && IsWay(ValueAt(v, trace[0]), trace[1..]))
  }

  lemma {:induction false} TraceIsWay(v: Json, steps: seq<Step>, trace: seq<Place>)
    requires IsTrace(v, steps, trace)
    ensures IsWay(v, trace)
    decreases |trace|
  {
    if steps != [] {
      var rest := match steps[0] case DescendKey(key) => [Key(key)] + steps[1..] case _ => steps[1..];
      TraceIsWay(ValueAt(v, trace[0]), rest, trace[1..]);
    }
  }

  /** Traces are compared by their first difference. */
  predicate ComesBefore(t: seq<Place>, u: seq<Place>)
    decreases |t|
  {
    t != [] && u != [] && (IsBefore(t[0], u[0]) || (t[0] == u[0] && ComesBefore(t[1..], u[1..])))
  }

  /** These are the values at all traces of the steps, each once, in order. */
  ghost predicate AreTraced(v: Json, steps: seq<Step>, values: seq<Json>, traces: seq<seq<Place>>) {
    && |values| == |traces|
    && (forall i, j :: 0 <= i < j < |traces| ==> ComesBefore(traces[i], traces[j]))
    && (forall t :: t in traces <==> IsTrace(v, steps, t))
    && (forall i :: 0 <= i < |traces| ==> IsWay(v, traces[i]) && values[i] == EndOf(v, traces[i]))
  }

  // ---------------------------------------------------------------- one step and the rest

  /** Places in order, and the values there. */
  ghost predicate AreHeads(v: Json, heads: seq<Place>, values: seq<Json>) {
    && |heads| == |values|
    && (forall i, j :: 0 <= i < j < |heads| ==> IsBefore(heads[i], heads[j]))
    && (forall i :: 0 <= i < |heads| ==> IsPlace(v, heads[i]) && values[i] == ValueAt(v, heads[i]))
  }

  /** The values at all traces that begin with one of the heads, each once, in order. */
  ghost predicate AreTracedFrom(v: Json, heads: seq<Place>, rest: seq<Step>, values: seq<Json>, traces: seq<seq<Place>>) {
    && |values| == |traces|
    && (forall i, j :: 0 <= i < j < |traces| ==> ComesBefore(traces[i], traces[j]))
    && (forall t :: t in traces <==> IsTraceFrom(v, heads, rest, t))
    && (forall i :: 0 <= i < |traces| ==> IsWay(v, traces[i]) && values[i] == EndOf(v, traces[i]))
  }

  ghost predicate IsTraceFrom(v: Json, heads: seq<Place>, rest: seq<Step>, t: seq<Place>) {
    t != [] && t[0] in heads && IsPlace(v, t[0]) && IsTrace(ValueAt(v, t[0]), rest, t[1..])
  }

  /** All traces through one value, with the way down to it put in front. */
  function Headed(head: Place, traces: seq<seq<Place>>): (r: seq<seq<Place>>)
    ensures |r| == |traces| && forall i :: 0 <= i < |r| ==> r[i] == [head] + traces[i]
  {
    seq(|traces|, i requires 0 <= i < |traces| => [head] + traces[i])
  }

  lemma HeadedTraced(v: Json, head: Place, rest: seq<Step>, values: seq<Json>, traces: seq<seq<Place>>)
    requires IsPlace(v, head) && AreTraced(ValueAt(v, head), rest, values, traces)
    ensures AreTracedFrom(v, [head], rest, values, Headed(head, traces))
  {
    hide IsTrace, IsPlace, ValueAt;
    var headed := Headed(head, traces);
    forall t
      ensures t in headed <==> IsTraceFrom(v, [head], rest, t)
    {
      if t in headed {
        var i :| 0 <= i < |headed| && headed[i] == t;
        assert t[1..] == traces[i] && traces[i] in traces;
      }
      if IsTraceFrom(v, [head], rest, t) {
        var i :| 0 <= i < |traces| && traces[i] == t[1..];
        assert t == [head] + t[1..];
        assert headed[i] == t;
      }
    }
    forall i | 0 <= i < |headed|
      ensures IsWay(v, headed[i]) && values[i] == EndOf(v, headed[i])
    {
      assert headed[i][1..] == traces[i];
    }
    forall i, j | 0 <= i < j < |headed|
      ensures ComesBefore(headed[i], headed[j])
    {
      assert headed[i][1..] == traces[i] && headed[j][1..] == traces[j];
    }
  }

  /** The traces of more heads come behind. */
  lemma TracedJoin(v: Json, heads: seq<Place>, head: Place, rest: seq<Step>, values: seq<Json>, traces: seq<seq<Place>>,
                   more: seq<Json>, others: seq<seq<Place>>)
    requires AreTracedFrom(v, heads, rest, values, traces) && AreTracedFrom(v, [head], rest, more, others)
    requires forall i :: 0 <= i < |heads| ==> IsBefore(heads[i], head)
    ensures AreTracedFrom(v, heads + [head], rest, values + more, traces + others)
  {
    hide IsTrace, IsPlace, ValueAt, IsBefore, IsWay;
    var all := traces + others;
    forall t
      ensures t in all <==> IsTraceFrom(v, heads + [head], rest, t)
    {
      assert t in all <==> t in traces || t in others;
    }
    forall i, j | 0 <= i < j < |all|
      ensures ComesBefore(all[i], all[j])
    {
      if i < |traces| <= j {
        assert traces[i] in traces && others[j - |traces|] in others;
      }
    }
  }

  /** What is evaluated on several values, one after the other. */
  lemma {:induction false} AllTraced(v: Json, heads: seq<Place>, values: seq<Json>, rest: seq<Step>) returns (traces: seq<seq<Place>>)
    requires AreHeads(v, heads, values)
    ensures AreTracedFrom(v, heads, rest, EvalAll(values, rest), traces)
    decreases Weight(rest), 2 + |heads|
  {
    if heads == [] {
      traces := [];
    } else {
      hide Eval, AreTraced, AreTracedFrom, IsPlace;
      var n := |heads| - 1;
      var before := AllTraced(v, heads[..n], values[..n], rest);
      var last := EvalTraced(values[n], rest);
      HeadedTraced(v, heads[n], rest, Eval(values[n], rest), last);
      TracedJoin(v, heads[..n], heads[n], rest, EvalAll(values[..n], rest), before, Eval(values[n], rest), Headed(heads[n], last));
      traces := before + Headed(heads[n], last);
      assert heads == heads[..n] + [heads[n]];
    }
  }

  /** The first step's heads and the rest of the steps make up the traces. */
  lemma TracedFirst(v: Json, steps: seq<Step>, heads: seq<Place>, rest: seq<Step>, values: seq<Json>, traces: seq<seq<Place>>)
    requires AreTracedFrom(v, heads, rest, EvalAll(values, rest), traces) && Eval(v, steps) == EvalAll(values, rest)
    requires forall t :: IsTrace(v, steps, t) <==> IsTraceFrom(v, heads, rest, t)
    ensures AreTraced(v, steps, Eval(v, steps), traces)
  {
    hide IsTrace, IsTraceFrom, Eval, EvalAll, ComesBefore, IsWay, EndOf;
  }

  /** What a path selects are the values at its traces, each once and in order. */
  lemma {:induction false} EvalTraced(v: Json, steps: seq<Step>) returns (traces: seq<seq<Place>>)
    ensures AreTraced(v, steps, Eval(v, steps), traces)
    decreases Weight(steps), 1
  {
    if steps == [] {
      traces := [[]];
    } else {
      hide Eval, EvalAll, AreTracedFrom, AreTraced, AreHeads, IsTrace, IsTraceFrom, LevelOrder, IsPlace;
      EvalOfFirst(v, steps);
      WeightOfFirst(steps);
      var rest := steps[1..];
      match steps[0]
      case Descend =>
        var heads := BelowPlaces(v, rest == []);
        var values := if rest == [] then LevelOrder(Children(v)) else LevelOrder([v]);
        traces := AllTraced(v, heads, values, rest);
        DescendTraces(v, steps, heads);
        TracedFirst(v, steps, heads, rest, values, traces);
      case DescendKey(key) =>
        var heads := BelowPlaces(v, false);
        var again := [Key(key)] + rest;
        traces := AllTraced(v, heads, LevelOrder([v]), again);
        DescendKeyTraces(v, steps, heads);
        TracedFirst(v, steps, heads, again, LevelOrder([v]), traces);
      case step =>
        var heads, values := PlainHeads(v, step, rest);
        traces := AllTraced(v, heads, values, rest);
        PlainTraces(v, steps, heads);
        TracedFirst(v, steps, heads, rest, values, traces);
    }
  }

  lemma EvalOfFirst(v: Json, steps: seq<Step>)
    requires steps != []
    ensures Eval(v, steps)
         == match steps[0]
            case Descend => EvalAll(if steps[1..] == [] then LevelOrder(Children(v)) else LevelOrder([v]), steps[1..])
            case DescendKey(key) => EvalAll(LevelOrder([v]), [Key(key)] + steps[1..])
            case step => EvalFirst(v, step, steps[1..])
  {
    hide EvalAll, LevelOrder;
  }

  lemma WeightOfFirst(steps: seq<Step>)
    requires steps != []
    ensures Weight(steps[1..]) < Weight(steps)
    ensures steps[0].DescendKey? ==> Weight([Key(steps[0].key)] + steps[1..]) < Weight(steps)
  {
    if steps[0].DescendKey? {
      assert ([Key(steps[0].key)] + steps[1..])[1..] == steps[1..];
    }
  }

  lemma DescendTraces(v: Json, steps: seq<Step>, heads: seq<Place>)
    requires steps != [] && steps[0] == Descend
    requires forall p :: p in heads <==> IsPlace(v, p) && (|steps| == 1 ==> p != [])
    ensures forall t :: IsTrace(v, steps, t) <==> IsTraceFrom(v, heads, steps[1..], t)
  {
    hide IsPlace, ValueAt;
  }

  lemma DescendKeyTraces(v: Json, steps: seq<Step>, heads: seq<Place>)
    requires steps != [] && steps[0].DescendKey? && forall p :: p in heads <==> IsPlace(v, p)
    ensures forall t :: IsTrace(v, steps, t) <==> IsTraceFrom(v, heads, [Key(steps[0].key)] + steps[1..], t)
  {
    hide IsPlace, ValueAt;
  }

  lemma PlainTraces(v: Json, steps: seq<Step>, heads: seq<Place>)
    requires steps != [] && !steps[0].Descend? && !steps[0].DescendKey?
    requires forall p :: p in heads <==> |p| == 1 && IsPlace(v, p) && LeadsTo(v, steps[0], p[0])
    ensures forall t :: IsTrace(v, steps, t) <==> IsTraceFrom(v, heads, steps[1..], t)
  {
    hide IsPlace, ValueAt, LeadsTo;
  }

  // ---------------------------------------------------------------- the heads of a plain step

  lemma OnePlace(v: Json, i: nat)
    ensures IsPlace(v, [i]) <==> i < PartCount(v)
    ensures i < PartCount(v) ==> ValueAt(v, [i]) == Part(v, i)
  {
    assert [i][1..] == [];
    if i < PartCount(v) {
      assert IsPlace(Part(v, i), []);
    }
  }

  lemma AllParts(v: Json) returns (heads: seq<Place>)
    ensures AreHeads(v, heads, Children(v))
    ensures forall p :: p in heads <==> |p| == 1 && IsPlace(v, p)
  {
    hide IsPlace, ValueAt;
    heads := seq(PartCount(v), i requires 0 <= i < PartCount(v) => [i]);
    forall i: nat
      ensures IsPlace(v, [i]) <==> i < PartCount(v)
      ensures i < PartCount(v) ==> ValueAt(v, [i]) == Part(v, i)
    {
      OnePlace(v, i);
    }
    forall p: Place
      ensures p in heads <==> |p| == 1 && IsPlace(v, p)
    {
      if |p| == 1 && IsPlace(v, p) {
        assert p == [p[0]] && heads[p[0]] == p;
      }
    }
  }

  lemma OneHead(v: Json, i: nat) returns (heads: seq<Place>, values: seq<Json>)
    requires i < PartCount(v)
    ensures heads == [[i]] && values == [Part(v, i)] && AreHeads(v, heads, values)
    ensures forall p :: p in heads <==> |p| == 1 && IsPlace(v, p) && p[0] == i
  {
    hide IsPlace, ValueAt;
    OnePlace(v, i);
    heads, values := [[i]], [Part(v, i)];
    forall p: Place
      ensures p in heads <==> |p| == 1 && IsPlace(v, p) && p[0] == i
    {
      assert |p| == 1 ==> p == [p[0]];
    }
  }

  /** The part that a step without wildcards leads to. */
  lemma StepIntoPart(v: Json, step: Step) returns (i: nat)
    requires !step.IsWild()
    ensures StepInto(v, step).Some? ==>
              i < PartCount(v) && StepInto(v, step).value == Part(v, i) && forall k :: LeadsTo(v, step, k) <==> k == i
    ensures StepInto(v, step).None? ==> forall k :: !LeadsTo(v, step, k)
  {
    i := 0;
    match step
    case Key(key) =>
      if v.Obj? && Find(v.members, key).Some? {
        i :| 0 <= i < |v.members| && v.members[i] == Member(key, Find(v.members, key).value)
             && forall j :: 0 <= j < i ==> v.members[j].key != key;
      }
    case Index(n) => i := n;
    case BackIndex(n) => i := if n == 0 then 0 else if v.Arr? && n <= |v.elements| then |v.elements| - n else 0;
  }

  /** The parts that a plain step leads to. */
  lemma PlainHeads(v: Json, step: Step, rest: seq<Step>) returns (heads: seq<Place>, values: seq<Json>)
    requires !step.Descend? && !step.DescendKey?
    ensures AreHeads(v, heads, values) && EvalFirst(v, step, rest) == EvalAll(values, rest)
    ensures forall p :: p in heads <==> |p| == 1 && IsPlace(v, p) && LeadsTo(v, step, p[0])
  {
    hide Eval, IsPlace, ValueAt, Find;
    heads, values := [], [];
    forall p: Place | |p| == 1
      ensures IsPlace(v, p) <==> p[0] < PartCount(v)
    {
      assert p == [p[0]];
      OnePlace(v, p[0]);
    }
    if step.AnyKey? || step.AnyIndex? {
      if if step.AnyKey? then v.Obj? else v.Arr? {
        heads := AllParts(v);
        values := Children(v);
      }
    } else {
      var i := StepIntoPart(v, step);
      if StepInto(v, step).Some? {
        heads, values := OneHead(v, i);
        assert EvalAll([Part(v, i)], rest) == EvalAll([], rest) + Eval(Part(v, i), rest) by {
          assert [Part(v, i)][..0] == [];
        }
      }
    }
  }

  // ---------------------------------------------------------------- level by level

  lemma {:induction false} LeftOfExtends(p: Place, q: Place, i: nat, j: nat)
    requires |p| == |q| && (IsLeftOf(p, q) || (p == q && i < j))
    ensures IsLeftOf(p + [i], q + [j])
  {
    if p != [] {
      assert (p + [i])[1..] == p[1..] + [i] && (q + [j])[1..] == q[1..] + [j];
      if p[0] == q[0] {
        LeftOfExtends(p[1..], q[1..], i, j);
      }
    }
  }

  /** The places right below one place. */
  lemma PartsBelow(v: Json, p: Place) returns (heads: seq<Place>)
    requires IsPlace(v, p)
    ensures AreHeads(v, heads, Children(ValueAt(v, p)))
    ensures forall q :: q in heads <==> |q| == |p| + 1 && q[..|p|] == p && IsPlace(v, q)
  {
    hide IsPlace, ValueAt, IsLeftOf, IsBefore;
    var n := PartCount(ValueAt(v, p));
    heads := seq(n, i requires 0 <= i < n => p + [i]);
    forall i: nat
      ensures IsPlace(v, p + [i]) <==> i < n
      ensures i < n ==> ValueAt(v, p + [i]) == Children(ValueAt(v, p))[i]
    {
      PartBelow(v, p, i);
    }
    forall q: Place
      ensures q in heads <==> |q| == |p| + 1 && q[..|p|] == p && IsPlace(v, q)
    {
      if |q| == |p| + 1 && q[..|p|] == p && IsPlace(v, q) {
        assert q == p + [q[|p|]] && heads[q[|p|]] == q;
      }
    }
    forall i, j | 0 <= i < j < n
      ensures IsBefore(heads[i], heads[j])
    {
      PartsInOrder(p, i, j);
    }
  }

  lemma PartBelow(v: Json, p: Place, i: nat)
    requires IsPlace(v, p)
    ensures |Children(ValueAt(v, p))| == PartCount(ValueAt(v, p))
    ensures IsPlace(v, p + [i]) <==> i < PartCount(ValueAt(v, p))
    ensures i < PartCount(ValueAt(v, p)) ==> ValueAt(v, p + [i]) == Children(ValueAt(v, p))[i]
  {
    hide IsPlace, ValueAt;
    PlaceJoins(v, p, [i]);
    OnePlace(ValueAt(v, p), i);
  }

  lemma PartsInOrder(p: Place, i: nat, j: nat)
    requires i < j
    ensures IsBefore(p + [i], p + [j])
  {
    LeftOfExtends(p, p, i, j);
  }

  lemma HeadsJoin(v: Json, first: seq<Place>, xs: seq<Json>, others: seq<Place>, ys: seq<Json>)
    requires AreHeads(v, first, xs) && AreHeads(v, others, ys)
    requires forall p, q :: p in first && q in others ==> IsBefore(p, q)
    ensures AreHeads(v, first + others, xs + ys)
  {
    hide IsPlace, ValueAt, IsBefore;
    forall i, j | 0 <= i < |first| && 0 <= j < |others|
      ensures IsBefore(first[i], others[j])
    {
      assert first[i] in first && others[j] in others;
    }
  }

  lemma {:induction false} NextLevel(v: Json, level: seq<Place>, values: seq<Json>, d: nat) returns (next: seq<Place>)
    requires AreHeads(v, level, values) && forall i :: 0 <= i < |level| ==> |level[i]| == d
    ensures AreHeads(v, next, ChildrenOfAll(values))
    ensures forall q :: q in next <==> |q| == d + 1 && q[..d] in level && IsPlace(v, q)
    decreases |level|
  {
    hide IsPlace, ValueAt, IsLeftOf, IsBefore;
    if level == [] {
      next := [];
    } else {
      var first := PartsBelow(v, level[0]);
      var others := NextLevel(v, level[1..], values[1..], d);
      next := first + others;
      forall p, q | p in first && q in others
        ensures IsBefore(p, q)
      {
        FirstIsLeft(level, d, p, q);
      }
      HeadsJoin(v, first, Children(values[0]), others, ChildrenOfAll(values[1..]));
      hide AreHeads;
      forall q: Place
        ensures q in next <==> |q| == d + 1 && q[..d] in level && IsPlace(v, q)
      {
        FirstOrOther(level, d, q);
        assert q in next <==> q in first || q in others;
      }
    }
  }

  lemma FirstOrOther(level: seq<Place>, d: nat, q: Place)
    requires level != []
    ensures |q| == d + 1 ==> (q[..d] in level <==> q[..d] == level[0] || q[..d] in level[1..])
  {
  }

  lemma FirstIsLeft(level: seq<Place>, d: nat, p: Place, q: Place)
    requires level != [] && (forall i, j :: 0 <= i < j < |level| ==> IsBefore(level[i], level[j]))
    requires forall i :: 0 <= i < |level| ==> |level[i]| == d
    requires |p| == |q| == d + 1 && p[..d] == level[0] && q[..d] in level[1..]
    ensures IsBefore(p, q)
  {
    hide IsLeftOf;
    var k :| 0 <= k < |level[1..]| && level[1..][k] == q[..d];
    assert IsBefore(level[0], level[k + 1]);
    LeftOfExtends(p[..d], q[..d], p[d], q[d]);
    assert p == p[..d] + [p[d]] && q == q[..d] + [q[d]];
  }

  /** All places from a level on, level by level. */
  lemma {:induction false} LevelsFrom(v: Json, level: seq<Place>, values: seq<Json>, d: nat) returns (places: seq<Place>)
    requires AreHeads(v, level, values) && forall i :: 0 <= i < |level| ==> |level[i]| == d
    ensures AreHeads(v, places, LevelOrder(values))
    ensures forall q :: q in places <==> |q| >= d && q[..d] in level && IsPlace(v, q)
    decreases SizeOfAll(values)
  {
    hide IsPlace, ValueAt, IsLeftOf, IsBefore, ChildrenOfAll;
    if level == [] {
      places := [];
    } else {
      LevelShrinks(values);
      var next := NextLevel(v, level, values, d);
      assert forall i :: 0 <= i < |next| ==> next[i] in next;
      var others := LevelsFrom(v, next, ChildrenOfAll(values), d + 1);
      places := level + others;
      forall p, q | p in level && q in others
        ensures IsBefore(p, q)
      {
        ShorterIsBefore(p, q);
      }
      HeadsJoin(v, level, values, others, LevelOrder(ChildrenOfAll(values)));
      LevelMembers(v, level, d, next, others);
    }
  }

  lemma ShorterIsBefore(p: Place, q: Place)
    requires |p| < |q|
    ensures IsBefore(p, q)
  {
  }

  lemma LevelMembers(v: Json, level: seq<Place>, d: nat, next: seq<Place>, others: seq<Place>)
    requires forall i :: 0 <= i < |level| ==> |level[i]| == d && IsPlace(v, level[i])
    requires forall q :: q in next <==> |q| == d + 1 && q[..d] in level && IsPlace(v, q)
    requires forall q :: q in others <==> |q| >= d + 1 && q[..d + 1] in next && IsPlace(v, q)
    ensures forall q :: q in level + others <==> |q| >= d && q[..d] in level && IsPlace(v, q)
  {
    hide IsPlace;
    forall q: Place
      ensures q in level + others <==> |q| >= d && q[..d] in level && IsPlace(v, q)
    {
      LevelOrBelow(v, level, d, q);
      assert |q| > d ==> (q[..d + 1] in next <==> q[..d + 1][..d] in level && IsPlace(v, q[..d + 1]));
    }
  }

  /** A place below a level goes through the next one. */
  lemma LevelOrBelow(v: Json, level: seq<Place>, d: nat, q: Place)
    requires forall i :: 0 <= i < |level| ==> |level[i]| == d && IsPlace(v, level[i])
    ensures q in level ==> |q| == d && q[..d] == q && IsPlace(v, q)
    ensures |q| == d ==> q[..d] == q
    ensures |q| > d && IsPlace(v, q) ==> q[..d + 1][..d] == q[..d] && IsPlace(v, q[..d + 1])
  {
    if |q| > d {
      assert q == q[..d + 1] + q[d + 1..];
      PlaceJoins(v, q[..d + 1], q[d + 1..]);
    }
  }

  /** All places in a document, breadth first, with or without the document itself. */
  lemma BelowPlaces(v: Json, proper: bool) returns (heads: seq<Place>)
    ensures AreHeads(v, heads, if proper then LevelOrder(Children(v)) else LevelOrder([v]))
    ensures forall p :: p in heads <==> IsPlace(v, p) && (proper ==> p != [])
  {
    hide LevelOrder;
    if proper {
      var parts := AllParts(v);
      assert forall i :: 0 <= i < |parts| ==> parts[i] in parts;
      heads := LevelsFrom(v, parts, Children(v), 1);
      forall p: Place | p != []
        ensures IsPlace(v, p) ==> IsPlace(v, p[..1])
      {
        assert p == p[..1] + p[1..];
        PlaceJoins(v, p[..1], p[1..]);
      }
    } else {
      heads := LevelsFrom(v, [[]], [v], 0);
      assert forall p: Place :: p[..0] == [];
    }
  }

  // ---------------------------------------------------------------- paths without recursive steps

  ghost predicate IsFlat(steps: seq<Step>) {
    forall k :: 0 <= k < |steps| ==> !steps[k].Descend? && !steps[k].DescendKey?
  }

  /** The whole way down of a trace. */
  function Joined(trace: seq<Place>): Place {
    if trace == [] then [] else trace[0] + Joined(trace[1..])
  }

  lemma {:induction false} FlatTrace(v: Json, steps: seq<Step>, t: seq<Place>)
    requires IsFlat(steps) && IsTrace(v, steps, t)
    ensures |t| == |steps| == |Joined(t)| && forall k :: 0 <= k < |t| ==> |t[k]| == 1
    decreases |t|
  {
    if steps != [] {
      FlatTrace(ValueAt(v, t[0]), steps[1..], t[1..]);
      assert forall k :: 0 < k < |t| ==> t[k] == t[1..][k - 1];
    }
  }

  lemma {:induction false} NotLeftOfItself(p: Place)
    ensures !IsLeftOf(p, p)
  {
    if p != [] {
      NotLeftOfItself(p[1..]);
    }
  }

  lemma {:induction false} FlatOrder(t: seq<Place>, u: seq<Place>)
    requires |t| == |u| == |Joined(t)| == |Joined(u)| && ComesBefore(t, u)
    requires forall k :: 0 <= k < |t| ==> |t[k]| == |u[k]| == 1
    ensures IsLeftOf(Joined(t), Joined(u))
    decreases |t|
  {
    var p, q := Joined(t), Joined(u);
    assert p[0] == t[0][0] && q[0] == u[0][0] && p[1..] == Joined(t[1..]) && q[1..] == Joined(u[1..]);
    assert t[0] == [t[0][0]] && u[0] == [u[0][0]] && t[0][1..] == [] == u[0][1..];
    NotLeftOfItself(t[0]);
    if t[0] == u[0] {
      FlatOrder(t[1..], u[1..]);
    }
  }

  /** Without recursive steps the selected values stand in document order. */
  lemma FlatIsDocumentOrder(v: Json, steps: seq<Step>, traces: seq<seq<Place>>, i: nat, j: nat)
    requires IsFlat(steps) && AreTraced(v, steps, Eval(v, steps), traces) && i < j < |traces|
    ensures |Joined(traces[i])| == |Joined(traces[j])| == |steps| && IsLeftOf(Joined(traces[i]), Joined(traces[j]))
  {
    hide IsTrace, IsLeftOf, ComesBefore, Joined, IsWay;
    assert traces[i] in traces && traces[j] in traces;
    FlatTrace(v, steps, traces[i]);
    FlatTrace(v, steps, traces[j]);
    FlatOrder(traces[i], traces[j]);
  }

  /** Without any wildcard there is at most one trace, and the value is the one at its end. */
  lemma OneTraced(v: Json, steps: seq<Step>)
    requires !AnyWild(steps)
    ensures EvalOne(v, steps).None? ==> forall t :: !IsTrace(v, steps, t)
    ensures EvalOne(v, steps).Some? ==>
              exists t :: IsTrace(v, steps, t) && IsWay(v, t) && EvalOne(v, steps).value == EndOf(v, t)
                          && forall u :: IsTrace(v, steps, u) ==> u == t
  {
    hide IsTrace, EvalOne, Eval, ComesBefore, IsWay;
    RegularPathsAgree(v, steps);
    var traces := EvalTraced(v, steps);
    if EvalOne(v, steps).Some? {
      assert traces[0] in traces;
    }
  }

  /** An index selects the element at it, counted from the front or from the back. */
  lemma IndexSelects(es: seq<Json>, n: nat)
    ensures !AnyWild([Index(n)]) && !AnyWild([BackIndex(n)])
    ensures EvalOne(Arr(es), [Index(n)]) == if n < |es| then Some(es[n]) else None
    ensures n >= 1 ==> EvalOne(Arr(es), [BackIndex(n)]) == if n <= |es| then Some(es[|es| - n]) else None
  {
    assert [Index(n)][1..] == [] && [BackIndex(n)][1..] == [];
  }
}
