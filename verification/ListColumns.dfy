/**
 The data that the list lambdas work on: a list column in the engine's unified format, and the
 rows it stands for.  `Rows()` is the abstract value; selection vectors and offsets into the
 shared child vector are only a way to lay it out.
 */
module ListColumns {

  /** One row's slice of a child vector. */
  datatype ListEntry = ListEntry(offset: nat, length: nat)

  datatype ListColumn<T> = ListColumn(sel: seq<nat>, validity: seq<bool>, entries: seq<ListEntry>, child: seq<T>)
  {
    ghost predicate WellFormed() {
      && |validity| == |entries|
      && (forall r :: 0 <= r < |sel| ==> sel[r] < |entries|)
      && (forall e :: 0 <= e < |entries| && validity[e] ==> entries[e].offset + entries[e].length <= |child|)
    }

    predicate RowIsValid(r: nat)
      requires WellFormed() && r < |sel|
    {
      validity[sel[r]]
    }

    /** The list in row `r`; a NULL row contributes no elements. */
    function Row(r: nat): seq<T>
      requires WellFormed() && r < |sel|
    {
      if RowIsValid(r)
      then child[entries[sel[r]].offset..entries[sel[r]].offset + entries[sel[r]].length]
      else []
    }

    function Rows(): (rows: seq<seq<T>>)
      requires WellFormed()
      ensures |rows| == |sel| && forall r :: 0 <= r < |sel| ==> rows[r] == Row(r)
    {
      seq(|sel|, r requires 0 <= r < |sel| => Row(r))
    }
  }

  /** The number of elements in the rows before row `r`. */
  function Before<T>(rows: seq<seq<T>>, r: nat): nat
    requires r <= |rows|
  {
    if r == 0 then 0 else Before(rows, r - 1) + |rows[r - 1]|
  }

  /** The row and the index in that row of the `g`-th element of the flattened rows before row `r`. */
  function Locate<T>(rows: seq<seq<T>>, r: nat, g: nat): (at: (nat, nat))
    requires r <= |rows| && g < Before(rows, r)
    ensures at.0 < r && at.1 < |rows[at.0]|
    ensures Before(rows, at.0) + at.1 == g
  {
    if Before(rows, r - 1) <= g then (r - 1, g - Before(rows, r - 1)) else Locate(rows, r - 1, g)
  }

  lemma {:induction false} BeforeMonotone<T>(rows: seq<seq<T>>, q: nat, r: nat)
    requires q <= r <= |rows|
    ensures Before(rows, q) <= Before(rows, r)
    ensures q < r ==> Before(rows, q) + |rows[q]| <= Before(rows, r)
    decreases r
  {
    if q < r {
      BeforeMonotone(rows, q, r - 1);
    }
  }

  /** An element has only one position: the position found by `Locate` is the one it was put at. */
  lemma {:induction false} LocateUnique<T>(rows: seq<seq<T>>, n: nat, r: nat, k: nat)
    requires r < n <= |rows| && k < |rows[r]|
    ensures Before(rows, r) + k < Before(rows, n)
    ensures Locate(rows, n, Before(rows, r) + k) == (r, k)
  {
    BeforeMonotone(rows, r, n);
    if r < n - 1 {
      BeforeMonotone(rows, r, n - 1);
      LocateUnique(rows, n - 1, r, k);
    }
  }

  /** A call of a list lambda: the source rows and the lambda, which sees an element, its row (for the
      other argument columns) and, when it asks for it, the element's 1-based index (0 stands for none). */
  datatype LambdaCall<!T, !U> = LambdaCall(rows: seq<seq<T>>, lambda: (T, nat, nat) -> U, hasIndex: bool)
  {
    function Total(): nat {
      Before(rows, |rows|)
    }

    function Index(k: nat): nat {
      if hasIndex then k + 1 else 0
    }

    /** The lambda's answer for the element at index `k` of row `r`. */
    function AnswerIn(r: nat, k: nat): U
      requires r < |rows| && k < |rows[r]|
    {
      lambda(rows[r][k], r, Index(k))
    }

    /** The `g`-th element of the flattened rows, and the lambda's answer for it. */
    function ElementAt(g: nat): T
      requires g < Total()
    {
      var at := Locate(rows, |rows|, g); rows[at.0][at.1]
    }

    function AnswerAt(g: nat): U
      requires g < Total()
    {
      var at := Locate(rows, |rows|, g); AnswerIn(at.0, at.1)
    }

    /** `input` and `answers` are a contiguous stretch of the flattened rows, from element `done` on. */
    ghost predicate IsBatch(done: nat, input: seq<T>, answers: seq<U>) {
      && |input| == |answers| && done + |input| <= Total()
      && forall i :: 0 <= i < |input| ==> input[i] == ElementAt(done + i) && answers[i] == AnswerAt(done + i)
    }
  }
}
