/**
 JSON documents as the path evaluators see them: objects keep their members in document order and
 may repeat a key, arrays know their length.
 */
module JsonValues {
  import opened Options

  const ARRAY_LENGTH_LIMIT: nat := 0x100_0000_0000_0000  // a value's tag has 56 bits for its length

  datatype Json = Scalar(text: string) | Arr(elements: seq<Json>) | Obj(members: seq<Member>)

  datatype Member = Member(key: string, value: Json)

  /** The value of the first member with this key. */
  function Find(members: seq<Member>, key: string): (v: Option<Json>)
    ensures v.None? <==> forall i :: 0 <= i < |members| ==> members[i].key != key
    ensures v.Some? ==> exists i :: 0 <= i < |members| && members[i] == Member(key, v.value)
                                    && forall j :: 0 <= j < i ==> members[j].key != key
  {
    if members == [] then None
    else if members[0].key == key then assert members[0] == Member(key, members[0].value); Some(members[0].value)
    else
      var v := Find(members[1..], key);
      assert v.Some? ==> exists i :: 0 <= i < |members| && members[i] == Member(key, v.value)
                                     && forall j :: 0 <= j < i ==> members[j].key != key by {
        if v.Some? {
          var i :| 0 <= i < |members[1..]| && members[1..][i] == Member(key, v.value)
                   && forall j :: 0 <= j < i ==> members[1..][j].key != key;
          assert members[i + 1] == Member(key, v.value);
          assert forall j :: 0 < j < i + 1 ==> members[j] == members[1..][j - 1];
        }
      }
      v
  }

  function Values(members: seq<Member>): (vs: seq<Json>)
    ensures |vs| == |members| && forall i :: 0 <= i < |vs| ==> vs[i] == members[i].value
  {
    seq(|members|, i requires 0 <= i < |members| => members[i].value)
  }

  /** The direct parts of a value, in document order. */
  function Children(v: Json): seq<Json> {
    match v
    case Scalar(_) => []
    case Arr(elements) => elements
    case Obj(members) => Values(members)
  }

  /** The number of values in a document, counting the document itself. */
  function Size(v: Json): (n: nat)
    ensures n > 0
  {
    match v
    case Scalar(_) => 1
    case Arr(elements) => 1 + SizeOfAll(elements)
    case Obj(members) => 1 + SizeOfMembers(members)
  }

  function SizeOfAll(vs: seq<Json>): nat {
    if vs == [] then 0 else Size(vs[0]) + SizeOfAll(vs[1..])
  }

  function SizeOfMembers(ms: seq<Member>): nat {
    if ms == [] then 0 else Size(ms[0].value) + SizeOfMembers(ms[1..])
  }

  lemma {:induction false} SizeOfMembersIsValues(ms: seq<Member>)
    ensures SizeOfMembers(ms) == SizeOfAll(Values(ms))
  {
    if ms != [] {
      SizeOfMembersIsValues(ms[1..]);
      assert Values(ms)[1..] == Values(ms[1..]);
    }
  }

  lemma SizeOfChildren(v: Json)
    ensures Size(v) == 1 + SizeOfAll(Children(v))
  {
    if v.Obj? {
      SizeOfMembersIsValues(v.members);
    }
  }

  lemma {:induction false} SizeOfConcat(xs: seq<Json>, ys: seq<Json>)
    ensures SizeOfAll(xs + ys) == SizeOfAll(xs) + SizeOfAll(ys)
  {
    if xs == [] {
      assert xs + ys == ys;
    } else {
      SizeOfConcat(xs[1..], ys);
      assert (xs + ys)[1..] == xs[1..] + ys;
    }
  }

  lemma QueueShrinks(queue: seq<Json>)
    requires queue != []
    ensures SizeOfAll(queue[1..] + Children(queue[0])) < SizeOfAll(queue)
  {
    SizeOfConcat(queue[1..], Children(queue[0]));
    SizeOfChildren(queue[0]);
  }

  /** What a work list visits that takes its first value and appends that value's children. */
  function Walk(queue: seq<Json>): seq<Json>
    decreases SizeOfAll(queue)
  {
    if queue == [] then []
    else
      QueueShrinks(queue);
      [queue[0]] + Walk(queue[1..] + Children(queue[0]))
  }

  function ChildrenOfAll(level: seq<Json>): seq<Json> {
    if level == [] then [] else Children(level[0]) + ChildrenOfAll(level[1..])
  }

  lemma {:induction false} LevelShrinks(level: seq<Json>)
    ensures SizeOfAll(level) == |level| + SizeOfAll(ChildrenOfAll(level))
  {
    if level != [] {
      LevelShrinks(level[1..]);
      SizeOfChildren(level[0]);
      SizeOfConcat(Children(level[0]), ChildrenOfAll(level[1..]));
    }
  }

  /** Breadth-first order: a level, then the level of its children, and so on. */
  function LevelOrder(level: seq<Json>): seq<Json>
    decreases SizeOfAll(level)
  {
    if level == [] then []
    else
      LevelShrinks(level);
      level + LevelOrder(ChildrenOfAll(level))
  }

  /** All values of a document, each as often as it occurs. */
  function Nodes(v: Json): multiset<Json>
    decreases Size(v), 0
  {
    SizeOfChildren(v);
    multiset{v} + NodesOfAll(Children(v))
  }

  function NodesOfAll(vs: seq<Json>): multiset<Json>
    decreases SizeOfAll(vs), 1
  {
    if vs == [] then multiset{} else Nodes(vs[0]) + NodesOfAll(vs[1..])
  }

  /** Every array in the document has a length that a value's tag can hold. */
  ghost predicate Fits(v: Json)
    decreases Size(v), 0
  {
    SizeOfChildren(v);
    (v.Arr? ==> |v.elements| < ARRAY_LENGTH_LIMIT) && AllFit(Children(v))
  }

  ghost predicate AllFit(vs: seq<Json>)
    decreases SizeOfAll(vs), 1
  {
    vs == [] || (Fits(vs[0]) && AllFit(vs[1..]))
  }

  lemma {:induction false} AllFitEach(vs: seq<Json>)
    ensures AllFit(vs) <==> forall i :: 0 <= i < |vs| ==> Fits(vs[i])
  {
    if vs != [] {
      hide Fits;
      AllFitEach(vs[1..]);
      assert AllFit(vs) <==> Fits(vs[0]) && AllFit(vs[1..]);
      assert forall i :: 0 < i < |vs| ==> vs[i] == vs[1..][i - 1];
      if forall i :: 0 <= i < |vs| ==> Fits(vs[i]) {
        assert forall i :: 0 <= i < |vs[1..]| ==> vs[1..][i] == vs[i + 1];
      }
    }
  }

  lemma {:induction false} WalkTakesLevel(level: seq<Json>, next: seq<Json>)
    ensures Walk(level + next) == level + Walk(next + ChildrenOfAll(level))
  {
    hide Children, SizeOfAll;
    if level == [] {
      assert level + next == next == next + ChildrenOfAll(level);
      assert level + Walk(next) == Walk(next);
    } else {
      var rest := next + Children(level[0]);
      assert (level + next)[1..] + Children(level[0]) == level[1..] + rest;
      WalkTakesLevel(level[1..], rest);
      assert rest + ChildrenOfAll(level[1..]) == next + ChildrenOfAll(level);
      assert level == [level[0]] + level[1..];
    }
  }

  /** The growing work list visits a document level by level. */
  lemma {:induction false} WalkIsLevelOrder(level: seq<Json>)
    ensures Walk(level) == LevelOrder(level)
    decreases SizeOfAll(level)
  {
    if level != [] {
      LevelShrinks(level);
      WalkTakesLevel(level, []);
      assert level + [] == level && [] + ChildrenOfAll(level) == ChildrenOfAll(level);
      WalkIsLevelOrder(ChildrenOfAll(level));
    }
  }

  lemma {:induction false} NodesOfConcat(xs: seq<Json>, ys: seq<Json>)
    ensures NodesOfAll(xs + ys) == NodesOfAll(xs) + NodesOfAll(ys)
  {
    hide Nodes;
    if xs == [] {
      assert xs + ys == ys;
    } else {
      NodesOfConcat(xs[1..], ys);
      assert (xs + ys)[0] == xs[0] && (xs + ys)[1..] == xs[1..] + ys;
      assert NodesOfAll(xs + ys) == Nodes(xs[0]) + NodesOfAll(xs[1..] + ys);
      assert NodesOfAll(xs) == Nodes(xs[0]) + NodesOfAll(xs[1..]);
    }
  }

  /** ... and visits every value exactly once. */
  lemma {:induction false} WalkVisitsAll(queue: seq<Json>)
    ensures multiset(Walk(queue)) == NodesOfAll(queue)
    decreases SizeOfAll(queue)
  {
    if queue != [] {
      QueueShrinks(queue);
      WalkVisitsAll(queue[1..] + Children(queue[0]));
      NodesOfConcat(queue[1..], Children(queue[0]));
    }
  }

  /** Level order starts with the document itself; what follows are its proper descendants, each once. */
  lemma DescendantsOnce(v: Json)
    ensures LevelOrder([v]) == [v] + LevelOrder(Children(v))
    ensures multiset(LevelOrder(Children(v))) == NodesOfAll(Children(v))
  {
    assert ChildrenOfAll([v]) == Children(v) + ChildrenOfAll([]) == Children(v);
    WalkIsLevelOrder(Children(v));
    WalkVisitsAll(Children(v));
  }
}
