/**
 What it means that some elements of a sequence were picked, in their order.
 */
module Subsequences {
  import opened Options

  /** `picked` holds the elements of `s` at the indexes `at`, which increase. */
  ghost predicate PickedAt<T>(s: seq<T>, at: seq<nat>, picked: seq<T>) {
    && |at| == |picked|
    && (forall i, j :: 0 <= i < j < |at| ==> at[i] < at[j])
    && (forall i :: 0 <= i < |at| ==> at[i] < |s| && picked[i] == s[at[i]])
  }

  /** What was picked are exactly the elements whose answer is true; an unknown answer counts as false. */
  ghost predicate PickedWhereTrue<T>(s: seq<T>, answers: seq<Option<bool>>, picked: seq<T>) {
    exists at :: PickedAt(s, at, picked) && forall k: nat :: k in at <==> k < |answers| && answers[k] == Some(true)
  }

  /** The indexes decide what is picked. */
  lemma {:induction false} OnePick<T>(s: seq<T>, at: seq<nat>, picked: seq<T>, bt: seq<nat>, others: seq<T>)
    requires PickedAt(s, at, picked) && PickedAt(s, bt, others)
    requires forall k :: k in at <==> k in bt
    ensures picked == others
    decreases |at|
  {
    BothEmpty(at, bt);
    if at != [] {
      var m, n := |at| - 1, |bt| - 1;
      assert at[m] in bt && bt[n] in at;
      assert at[m] == bt[n];
      forall k
        ensures k in at[..m] <==> k in bt[..n]
      {
        assert k in at[..m] <==> k in at && k != at[m];
        assert k in bt[..n] <==> k in bt && k != bt[n];
      }
      OnePick(s, at[..m], picked[..m], bt[..n], others[..n]);
    }
  }

  lemma BothEmpty(at: seq<nat>, bt: seq<nat>)
    requires forall k :: k in at <==> k in bt
    ensures at == [] <==> bt == []
  {
    if at != [] {
      assert at[0] in bt;
    }
    if bt != [] {
      assert bt[0] in at;
    }
  }
}
