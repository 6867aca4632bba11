/**
 list_filter: the lists of a whole column are flattened into batches of at most `V` elements, the
 lambda runs once per batch, and a cursor that survives from batch to batch rebuilds the rows.
 */
module ListFilter {
  import opened Options
  import opened ListColumns
  import opened LambdaBatches
  import opened Subsequences

  /** A filter's lambda answers true, false or NULL. */
  type FilterCall<!T> = LambdaCall<T, Option<bool>>

  /** The elements among the first `n` of row `r` that the lambda answers true for, in order. */
  function Kept<T>(call: FilterCall<T>, r: nat, n: nat): (s: seq<T>)
    requires r < |call.rows| && n <= |call.rows[r]|
    ensures |s| <= n
  {
    if n == 0 then []
    else Kept(call, r, n - 1) + if call.AnswerIn(r, n - 1) == Some(true) then [call.rows[r][n - 1]] else []
  }

  /** The indexes of the kept elements. */
  ghost function KeptIndexes<T>(call: FilterCall<T>, r: nat, n: nat): seq<nat>
    requires r < |call.rows| && n <= |call.rows[r]|
  {
    if n == 0 then []
    else KeptIndexes(call, r, n - 1) + if call.AnswerIn(r, n - 1) == Some(true) then [n - 1] else []
  }

  /** `Kept` picks exactly the elements the lambda accepts, each once and in source order. */
  lemma {:induction false} KeptIsTheFilter<T>(call: FilterCall<T>, r: nat, n: nat)
    requires r < |call.rows| && n <= |call.rows[r]|
    ensures var at := KeptIndexes(call, r, n);
            && |Kept(call, r, n)| == |at|
            && (forall i :: 0 <= i < |at| ==> at[i] < n && Kept(call, r, n)[i] == call.rows[r][at[i]])
            && (forall i, j :: 0 <= i < j < |at| ==> at[i] < at[j])
            && (forall k: nat :: k in at <==> k < n && call.AnswerIn(r, k) == Some(true))
  {
    if n > 0 {
      KeptIsTheFilter(call, r, n - 1);
    }
  }

  /** What per-row filtering gives for row `r`. */
  function FilteredRow<T>(call: FilterCall<T>, r: nat): seq<T>
    requires r < |call.rows|
  {
    Kept(call, r, |call.rows[r]|)
  }

  /** The filtered rows before row `r`, one after the other. */
  function KeptBefore<T>(call: FilterCall<T>, r: nat): seq<T>
    requires r <= |call.rows|
  {
    if r == 0 then [] else KeptBefore(call, r - 1) + FilteredRow(call, r - 1)
  }

  function EntryOf<T>(call: FilterCall<T>, r: nat): ListEntry
    requires r < |call.rows|
  {
    ListEntry(|KeptBefore(call, r)|, |FilteredRow(call, r)|)
  }

  /** Row `r` of the concatenation is found where its entry says. */
  lemma {:induction false} FilteredRowAt<T>(call: FilterCall<T>, n: nat, r: nat)
    requires r < n <= |call.rows|
    ensures |KeptBefore(call, r)| + |FilteredRow(call, r)| <= |KeptBefore(call, n)|
    ensures KeptBefore(call, n)[|KeptBefore(call, r)|..|KeptBefore(call, r)| + |FilteredRow(call, r)|] == FilteredRow(call, r)
  {
    if r < n - 1 {
      FilteredRowAt(call, n - 1, r);
      var p, q := |KeptBefore(call, r)|, |KeptBefore(call, r)| + |FilteredRow(call, r)|;
      assert KeptBefore(call, n)[p..q] == KeptBefore(call, n - 1)[p..q];
    }
  }

  /** The result vector: one entry per row, a validity mask and the child vector. */
  class FilterResult<T> {
    const entries: array<ListEntry>
    var validity: seq<bool>
    var child: seq<T>

    constructor (rowCount: nat)
      ensures fresh(entries) && entries.Length == rowCount
      ensures child == [] && validity == seq(rowCount, _ => true)
    {
      entries := new ListEntry[rowCount](_ => ListEntry(0, 0));
      validity := seq(rowCount, _ => true);
      child := [];
    }
  }

  ghost predicate InRange(sel: seq<nat>, size: nat) {
    forall j :: 0 <= j < |sel| ==> sel[j] < size
  }

  /** The elements a selection vector picks, in its order. */
  function Select<T>(input: seq<T>, sel: seq<nat>): (s: seq<T>)
    requires InRange(sel, |input|)
    ensures |s| == |sel|
  {
    seq(|sel|, j requires 0 <= j < |sel| => input[sel[j]])
  }

  lemma SelectOneMore<T>(child: seq<T>, input: seq<T>, sel: seq<nat>, i: nat)
    requires InRange(sel, |input|) && i < |input|
    ensures InRange(sel + [i], |input|)
    ensures child + Select(input, sel + [i]) == child + Select(input, sel) + [input[i]]
    ensures child + Select(input, sel) == child + Select(input, sel) + []
  {
    assert Select(input, sel + [i]) == Select(input, sel) + [input[i]];
  }

  /** The cursor's fields as a value: `srcLength` elements of row `rowIdx` have been seen, `length` of
      them were kept, and the rows before it hold `offset` kept elements. */
  datatype Cursor = Cursor(rowIdx: nat, srcLength: nat, length: nat, offset: nat)

  /** Cursor `c` is where it should be after `done` elements, with `n` rows announced so far. */
  ghost predicate AtElement<T>(call: FilterCall<T>, n: nat, c: Cursor, done: nat) {
    && c.rowIdx <= n <= |call.rows|
    && (c.srcLength == 0 || (c.rowIdx < n && c.srcLength < |call.rows[c.rowIdx]|))
    && done == Before(call.rows, c.rowIdx) + c.srcLength
    && c.offset == |KeptBefore(call, c.rowIdx)|
    && c.length == (if c.srcLength == 0 then 0 else |Kept(call, c.rowIdx, c.srcLength)|)
  }

  /** Everything kept among the first `done` elements. */
  ghost function KeptSoFar<T>(call: FilterCall<T>, n: nat, c: Cursor, done: nat): seq<T>
    requires AtElement(call, n, c, done)
  {
    KeptBefore(call, c.rowIdx) + (if c.srcLength == 0 then [] else Kept(call, c.rowIdx, c.srcLength))
  }

  /** The rows before `k` have their final entries. */
  ghost predicate FinishedRows<T>(call: FilterCall<T>, entries: seq<ListEntry>, k: nat) {
    && k <= |call.rows| == |entries|
    && forall r :: 0 <= r < k ==> entries[r] == EntryOf(call, r)
  }

  ghost predicate LengthsOfRows<T>(call: FilterCall<T>, lengths: seq<nat>) {
    && |lengths| <= |call.rows| && Before(call.rows, |lengths|) <= call.Total()
    && forall r :: 0 <= r < |lengths| ==> lengths[r] == |call.rows[r]|
  }

  ghost predicate OnElement<T>(call: FilterCall<T>, n: nat, c: Cursor) {
    c.rowIdx < n <= |call.rows| && 0 < |call.rows[c.rowIdx]|
  }

  /** A cursor that is past the empty rows stands on the next element of the flattened column. */
  lemma CursorIsHere<T>(call: FilterCall<T>, n: nat, c: Cursor, done: nat)
    requires AtElement(call, n, c, done) && done < Before(call.rows, n)
    requires c.rowIdx == n || OnElement(call, n, c)
    ensures OnElement(call, n, c)
    ensures done < call.Total() && Locate(call.rows, |call.rows|, done) == (c.rowIdx, c.srcLength)
  {
    LocateUnique(call.rows, |call.rows|, c.rowIdx, c.srcLength);
  }

  /** After all elements of the announced rows, a cursor past the empty rows is past every row. */
  lemma CursorAtEnd<T>(call: FilterCall<T>, n: nat, c: Cursor)
    requires n <= |call.rows| && AtElement(call, n, c, Before(call.rows, n))
    requires c.rowIdx == n || OnElement(call, n, c)
    ensures c.rowIdx == n && KeptSoFar(call, n, c, Before(call.rows, n)) == KeptBefore(call, n)
  {
    if c.rowIdx < n {
      BeforeMonotone(call.rows, c.rowIdx, n);
    }
  }

  lemma SkipKeepsCursor<T>(call: FilterCall<T>, n: nat, c: Cursor, done: nat)
    requires AtElement(call, n, c, done) && c.rowIdx < n && |call.rows[c.rowIdx]| == 0
    ensures EntryOf(call, c.rowIdx) == ListEntry(c.offset, 0)
    ensures AtElement(call, n, c.(rowIdx := c.rowIdx + 1), done)
    ensures KeptSoFar(call, n, c.(rowIdx := c.rowIdx + 1), done) == KeptSoFar(call, n, c, done)
  {
  }

  lemma AdvanceInsideRow<T>(call: FilterCall<T>, n: nat, c: Cursor, done: nat, keep: bool)
    requires AtElement(call, n, c, done) && OnElement(call, n, c)
    requires keep <==> call.AnswerIn(c.rowIdx, c.srcLength) == Some(true)
    requires c.srcLength + 1 < |call.rows[c.rowIdx]|
    ensures var next := c.(srcLength := c.srcLength + 1, length := c.length + if keep then 1 else 0);
            && AtElement(call, n, next, done + 1)
            && KeptSoFar(call, n, next, done + 1)
               == KeptSoFar(call, n, c, done) + if keep then [call.rows[c.rowIdx][c.srcLength]] else []
  {
    assert Kept(call, c.rowIdx, 0) == [];
  }

  lemma AdvanceEndsRow<T>(call: FilterCall<T>, n: nat, c: Cursor, done: nat, keep: bool)
    requires AtElement(call, n, c, done) && OnElement(call, n, c)
    requires keep <==> call.AnswerIn(c.rowIdx, c.srcLength) == Some(true)
    requires c.srcLength + 1 == |call.rows[c.rowIdx]|
    ensures var length := c.length + if keep then 1 else 0;
            var next := Cursor(c.rowIdx + 1, 0, 0, c.offset + length);
            && EntryOf(call, c.rowIdx) == ListEntry(c.offset, length)
            && AtElement(call, n, next, done + 1)
            && KeptSoFar(call, n, next, done + 1)
               == KeptSoFar(call, n, c, done) + if keep then [call.rows[c.rowIdx][c.srcLength]] else []
  {
    assert Kept(call, c.rowIdx, 0) == [];
    assert FilteredRow(call, c.rowIdx)
        == Kept(call, c.rowIdx, c.srcLength) + if keep then [call.rows[c.rowIdx][c.srcLength]] else [];
  }

  /** The row at the cursor, if there is one, has its announced length and a place in the result. */
  ghost predicate NextRowFits<T>(call: FilterCall<T>, lengths: seq<nat>, entries: seq<ListEntry>, c: Cursor) {
    && c.rowIdx <= |lengths|
    && (c.rowIdx < |lengths| ==>
          && c.rowIdx < |call.rows| == |entries| && lengths[c.rowIdx] == |call.rows[c.rowIdx]|
          && (lengths[c.rowIdx] > 0 ==> OnElement(call, |lengths|, c)))
  }

  lemma NextRow<T>(call: FilterCall<T>, lengths: seq<nat>, entries: seq<ListEntry>, c: Cursor, done: nat)
    requires LengthsOfRows(call, lengths) && AtElement(call, |lengths|, c, done) && FinishedRows(call, entries, c.rowIdx)
    ensures NextRowFits(call, lengths, entries, c)
  {
  }

  /** The row at the cursor, its announced length, and its place in the result. */
  lemma CurrentRow<T>(call: FilterCall<T>, lengths: seq<nat>, entries: seq<ListEntry>, c: Cursor, done: nat)
    requires LengthsOfRows(call, lengths) && AtElement(call, |lengths|, c, done) && OnElement(call, |lengths|, c)
    requires FinishedRows(call, entries, c.rowIdx)
    ensures c.rowIdx < |lengths| && c.rowIdx < |entries| && c.rowIdx < |call.rows|
    ensures lengths[c.rowIdx] == |call.rows[c.rowIdx]| && c.srcLength < lengths[c.rowIdx]
  {
  }

  lemma FinishRow<T>(call: FilterCall<T>, entries: seq<ListEntry>, k: nat)
    requires FinishedRows(call, entries, k) && k < |call.rows|
    ensures FinishedRows(call, entries[k := EntryOf(call, k)], k + 1)
  {
    hide EntryOf;
  }

  /** The cursor into the source rows, kept from one flush to the next. */
  class ListFilterInfo {
    var entryLengths: seq<nat>
    var length: nat
    var offset: nat
    var rowIdx: nat
    var srcLength: nat

    constructor ()
      ensures entryLengths == [] && View() == Cursor(0, 0, 0, 0)
    {
      entryLengths := [];
      length, offset, rowIdx, srcLength := 0, 0, 0, 0;
    }

    ghost function View(): Cursor
      reads this
    {
      Cursor(rowIdx, srcLength, length, offset)
    }

    /** The state between two flushes, after `done` elements. */
    ghost predicate Between<T>(call: FilterCall<T>, entries: array<ListEntry>, done: nat)
      reads this, entries
    {
      && LengthsOfRows(call, entryLengths)
      && AtElement(call, |entryLengths|, View(), done)
      && FinishedRows(call, entries[..], rowIdx)
    }

    ghost function Contents<T>(call: FilterCall<T>, done: nat): seq<T>
      requires AtElement(call, |entryLengths|, View(), done)
      reads this
    {
      KeptSoFar(call, |entryLengths|, View(), done)
    }

    /** Announces the length of the next source row, 0 for a NULL row. */
    method PushLength<T>(n: nat, entries: array<ListEntry>, ghost call: FilterCall<T>, ghost done: nat)
      requires Between(call, entries, done)
      requires |entryLengths| < |call.rows| && n == |call.rows[|entryLengths|]|
      modifies this`entryLengths
      ensures Between(call, entries, done) && entryLengths == old(entryLengths) + [n]
      ensures Contents(call, done) == old(Contents(call, done))
    {
      hide Kept, KeptBefore, FilteredRow;
      BeforeMonotone(call.rows, |entryLengths| + 1, |call.rows|);
      entryLengths := entryLengths + [n];
    }

    /** Passes over the empty and NULL rows at the cursor and writes their entries. */
    method SkipEmptyLists<T>(entries: array<ListEntry>, ghost call: FilterCall<T>, ghost done: nat)
      requires Between(call, entries, done)
      modifies this`rowIdx, entries
      ensures Between(call, entries, done) && Contents(call, done) == old(Contents(call, done))
      ensures rowIdx == |entryLengths| || OnElement(call, |entryLengths|, View())
    {
      hide AtElement, KeptSoFar, FinishedRows, LengthsOfRows, OnElement, EntryOf;
      NextRow(call, entryLengths, entries[..], View(), done);
      while rowIdx < |entryLengths| && entryLengths[rowIdx] == 0
        invariant Between(call, entries, done) && Contents(call, done) == old(Contents(call, done))
        invariant NextRowFits(call, entryLengths, entries[..], View())
      {
        SkipKeepsCursor(call, |entryLengths|, View(), done);
        FinishRow(call, entries[..], rowIdx);
        ghost var before := entries[..];
        entries[rowIdx] := ListEntry(offset, 0);
        assert entries[..] == before[rowIdx := ListEntry(offset, 0)];
        rowIdx := rowIdx + 1;
        NextRow(call, entryLengths, entries[..], View(), done);
      }
    }

    /** Moves the cursor over one element and closes its row when that was the last one. */
    method Advance<T>(keep: bool, entries: array<ListEntry>, ghost call: FilterCall<T>, ghost done: nat)
      requires Between(call, entries, done) && OnElement(call, |entryLengths|, View())
      requires keep <==> call.AnswerIn(rowIdx, srcLength) == Some(true)
      modifies this`length, this`offset, this`rowIdx, this`srcLength, entries
      ensures Between(call, entries, done + 1)
      ensures Contents(call, done + 1)
           == old(Contents(call, done)) + if keep then [call.rows[old(rowIdx)][old(srcLength)]] else []
    {
      hide Kept, KeptBefore, FilteredRow, AtElement, KeptSoFar, FinishedRows, LengthsOfRows, OnElement, EntryOf;
      CurrentRow(call, entryLengths, entries[..], View(), done);
      if srcLength + 1 == |call.rows[rowIdx]| {
        AdvanceEndsRow(call, |entryLengths|, View(), done, keep);
        FinishRow(call, entries[..], rowIdx);
      } else {
        AdvanceInsideRow(call, |entryLengths|, View(), done, keep);
      }
      if keep {
        length := length + 1;
      }
      srcLength := srcLength + 1;
      if entryLengths[rowIdx] == srcLength {
        ghost var before := entries[..];
        entries[rowIdx] := ListEntry(offset, length);
        assert entries[..] == before[rowIdx := ListEntry(offset, length)];
        offset := offset + length;
        rowIdx := rowIdx + 1;
        length := 0;
        srcLength := 0;
      }
    }

    /** Moves the cursor over the next element of the flattened column, wherever its row begins. */
    method TakeElement<T>(keep: bool, entries: array<ListEntry>, ghost call: FilterCall<T>, ghost done: nat)
      requires Between(call, entries, done) && done < Before(call.rows, |entryLengths|)
      requires keep <==> call.AnswerAt(done) == Some(true)
      modifies this`length, this`offset, this`rowIdx, this`srcLength, entries
      ensures Between(call, entries, done + 1)
      ensures Contents(call, done + 1)
           == old(Contents(call, done)) + if keep then [call.ElementAt(done)] else []
    {
      SkipEmptyLists(entries, call, done);
      CursorIsHere(call, |entryLengths|, View(), done);
      Advance(keep, entries, call, done);
    }

    /** Uses the lambda's answers for one batch to append the kept elements to the result. */
    method AppendResult<T>(result: FilterResult<T>, lambdaVector: seq<Option<bool>>, input: seq<T>,
                           ghost call: FilterCall<T>, ghost done: nat)
      requires Between(call, result.entries, done) && result.child == Contents(call, done)
      requires call.IsBatch(done, input, lambdaVector) && done + |input| <= Before(call.rows, |entryLengths|)
      modifies this`length, this`offset, this`rowIdx, this`srcLength, result`child, result.entries
      ensures Between(call, result.entries, done + |input|)
      ensures result.child == Contents(call, done + |input|)
      ensures rowIdx == |entryLengths| || OnElement(call, |entryLengths|, View())
    {
      hide Kept, KeptBefore, FilteredRow, Locate, AtElement;
      var sel: seq<nat> := [];
      var i: nat := 0;
      while i < |input|
        invariant i <= |input| && InRange(sel, |input|)
        invariant Between(call, result.entries, done + i)
        invariant Contents(call, done + i) == result.child + Select(input, sel)
      {
        var keep := lambdaVector[i] == Some(true);
        TakeElement(keep, result.entries, call, done + i);
        SelectOneMore(result.child, input, sel, i);
        if keep {
          sel := sel + [i];
        }
        i := i + 1;
      }
      SkipEmptyLists(result.entries, call, done + |input|);
      result.child := result.child + Select(input, sel);
    }
  }

  /** What list_filter promises of its result. */
  ghost predicate IsFilterResult<T>(call: FilterCall<T>, column: ListColumn<T>, result: FilterResult<T>)
    requires column.WellFormed()
    reads result, result.entries
  {
    && result.entries.Length == |result.validity| == |call.rows| == |column.sel|
    && result.child == KeptBefore(call, |call.rows|)
    && forall r :: 0 <= r < |call.rows| ==>
         && result.validity[r] == column.RowIsValid(r)
         && result.entries[r] == EntryOf(call, r)
  }

  /** Both cursors agree: the batch starts where the filter's cursor stands. */
  ghost predicate InStep<T>(call: FilterCall<T>, child: seq<T>, result: FilterResult<T>, info: ListFilterInfo, batch: LambdaBatch)
    reads result, result.entries, info, batch
  {
    && info.Between(call, result.entries, batch.flushed)
    && result.child == info.Contents(call, batch.flushed)
    && batch.Valid() && 0 < batch.capacity && batch.Holds(child, call)
    && batch.flushed + batch.size <= Before(call.rows, |info.entryLengths|)
  }

  /** Runs the lambda on the batch and hands its answers to the cursor. */
  method Flush<T>(column: ListColumn<T>, lambda: (T, nat, nat) -> Option<bool>, hasIndex: bool,
                  result: FilterResult<T>, info: ListFilterInfo, batch: LambdaBatch, ghost call: FilterCall<T>)
    requires InStep(call, column.child, result, info, batch) && call.lambda == lambda && call.hasIndex == hasIndex
    modifies result`child, result.entries, info`length, info`offset, info`rowIdx, info`srcLength, batch`size, batch`flushed
    ensures InStep(call, column.child, result, info, batch)
    ensures batch.size == 0 && batch.flushed == old(batch.flushed + batch.size)
    ensures info.rowIdx == |info.entryLengths| || OnElement(call, |info.entryLengths|, info.View())
  {
    var input, lambdaVector := batch.ExecuteExpression(column.child, lambda, hasIndex, call);
    info.AppendResult(result, lambdaVector, input, call, batch.flushed);
    batch.Clear();
  }

  lemma NextElement<T>(call: FilterCall<T>, n: nat, r: nat, k: nat)
    requires r < n <= |call.rows| && k < |call.rows[r]|
    ensures var g := Before(call.rows, r) + k;
            && g < Before(call.rows, n) && g < call.Total() && Locate(call.rows, |call.rows|, g) == (r, k)
  {
    hide Locate, Before;
    BeforeMonotone(call.rows, r, n);
    BeforeMonotone(call.rows, n, |call.rows|);
    LocateUnique(call.rows, |call.rows|, r, k);
  }

  /** Adds one element to the batch, flushing it first when it is full. */
  method BatchElement<T>(column: ListColumn<T>, lambda: (T, nat, nat) -> Option<bool>, hasIndex: bool, r: nat, k: nat,
                         childPosition: nat, result: FilterResult<T>, info: ListFilterInfo, batch: LambdaBatch,
                         ghost call: FilterCall<T>)
    requires call.lambda == lambda && call.hasIndex == hasIndex
    requires InStep(call, column.child, result, info, batch)
    requires r < |info.entryLengths| && batch.flushed + batch.size == Before(call.rows, r) + k
    requires k < |call.rows[r]| && childPosition < |column.child| && column.child[childPosition] == call.rows[r][k]
    modifies result`child, result.entries, info`length, info`offset, info`rowIdx, info`srcLength, batch
    ensures InStep(call, column.child, result, info, batch)
    ensures batch.flushed + batch.size == Before(call.rows, r) + k + 1
  {
    hide Before, Locate, Kept, KeptBefore, FilteredRow, AtElement, FinishedRows, OnElement, KeptSoFar;
    NextElement(call, |info.entryLengths|, r, k);
    if batch.size == batch.capacity {
      Flush(column, lambda, hasIndex, result, info, batch, call);
    }
    batch.Add(childPosition, r, k, hasIndex, column.child, call);
  }

  /** Puts the elements of the list in row `r` into the batch. */
  method BatchList<T>(column: ListColumn<T>, lambda: (T, nat, nat) -> Option<bool>, hasIndex: bool, r: nat,
                      result: FilterResult<T>, info: ListFilterInfo, batch: LambdaBatch, ghost call: FilterCall<T>)
    requires column.WellFormed() && call.lambda == lambda && call.hasIndex == hasIndex
    requires r < |call.rows| == |column.sel| && call.rows[r] == column.Row(r)
    requires column.RowIsValid(r) && |info.entryLengths| == r + 1
    requires InStep(call, column.child, result, info, batch)
    requires batch.flushed + batch.size == Before(call.rows, r)
    modifies result`child, result.entries, info`length, info`offset, info`rowIdx, info`srcLength, batch
    ensures InStep(call, column.child, result, info, batch)
    ensures batch.flushed + batch.size == Before(call.rows, r + 1)
  {
    hide InStep, Locate, Kept, KeptBefore, FilteredRow;
    var entry := column.entries[column.sel[r]];
    for childIdx := 0 to entry.length
      invariant InStep(call, column.child, result, info, batch)
      invariant batch.flushed + batch.size == Before(call.rows, r) + childIdx
    {
      BatchElement(column, lambda, hasIndex, r, childIdx, entry.offset + childIdx, result, info, batch, call);
    }
  }

  /** Handles row `r`: a NULL row counts as empty. */
  method FilterRow<T>(column: ListColumn<T>, lambda: (T, nat, nat) -> Option<bool>, hasIndex: bool, r: nat,
                      result: FilterResult<T>, info: ListFilterInfo, batch: LambdaBatch, ghost call: FilterCall<T>)
    requires column.WellFormed() && call.lambda == lambda && call.hasIndex == hasIndex
    requires r < |call.rows| == |column.sel| == |result.validity| && call.rows[r] == column.Row(r)
    requires InStep(call, column.child, result, info, batch) && |info.entryLengths| == r
    requires batch.flushed + batch.size == Before(call.rows, r) && result.validity[r]
    modifies result, result.entries, info, batch
    ensures InStep(call, column.child, result, info, batch) && |info.entryLengths| == r + 1
    ensures batch.flushed + batch.size == Before(call.rows, r + 1)
    ensures result.validity == old(result.validity)[r := column.RowIsValid(r)]
  {
    hide Locate, Kept, KeptBefore, FilteredRow;
    if !column.RowIsValid(r) {
      result.validity := result.validity[r := false];
      info.PushLength(0, result.entries, call, batch.flushed);
    } else {
      info.PushLength(column.entries[column.sel[r]].length, result.entries, call, batch.flushed);
      BatchList(column, lambda, hasIndex, r, result, info, batch, call);
    }
  }

  /** list_filter on a whole column, in batches of at most `vectorSize` elements. */
  method ListFilterFunction<T>(column: ListColumn<T>, lambda: (T, nat, nat) -> Option<bool>, hasIndex: bool, vectorSize: nat)
    returns (result: FilterResult<T>)
    requires column.WellFormed() && vectorSize >= 1
    ensures IsFilterResult(LambdaCall(column.Rows(), lambda, hasIndex), column, result)
    ensures |result.validity| == result.entries.Length == |column.sel|
    ensures EntriesTile(result.entries[..], |result.child|)
    ensures forall r :: 0 <= r < |column.sel| ==>
              && result.validity[r] == column.validity[column.sel[r]]
              && FilteredSlice(column, lambda, hasIndex, r, result.child, result.entries[r])
  {
    hide FilteredSlice, EntriesTile, EntryOf, FilteredRow, Locate;
    ghost var call := LambdaCall(column.Rows(), lambda, hasIndex);
    result := new FilterResult(|column.sel|);
    var info := new ListFilterInfo();
    var batch := new LambdaBatch(vectorSize);
    assert InStep(call, column.child, result, info, batch);
    FilterRows(column, lambda, hasIndex, result, info, batch, call);
    ResultIsFiltered(column, lambda, hasIndex, result);
  }

  /** The result told on the argument column alone. */
  lemma ResultIsFiltered<T>(column: ListColumn<T>, lambda: (T, nat, nat) -> Option<bool>, hasIndex: bool, result: FilterResult<T>)
    requires column.WellFormed() && IsFilterResult(LambdaCall(column.Rows(), lambda, hasIndex), column, result)
    ensures |result.validity| == result.entries.Length == |column.sel|
    ensures EntriesTile(result.entries[..], |result.child|)
    ensures forall r :: 0 <= r < |column.sel| ==>
              && result.validity[r] == column.validity[column.sel[r]]
              && FilteredSlice(column, lambda, hasIndex, r, result.child, result.entries[r])
  {
    hide FilteredSlice, EntriesTile, KeptBefore, EntryOf, FilteredRow;
    EntriesAreTiles(LambdaCall(column.Rows(), lambda, hasIndex), result.entries[..]);
    forall r | 0 <= r < |column.sel|
      ensures FilteredSlice(column, lambda, hasIndex, r, result.child, result.entries[r])
    {
      SliceIsFiltered(column, lambda, hasIndex, r, result.child);
    }
  }

  /** The entries cut the child vector into consecutive stretches, without gaps. */
  ghost predicate EntriesTile(entries: seq<ListEntry>, size: nat) {
    && (entries != [] ==> entries[0].offset == 0)
    && (forall q, r :: 0 <= q < r == q + 1 < |entries| ==> entries[q].offset + entries[q].length == entries[r].offset)
    && size == if entries == [] then 0 else entries[|entries| - 1].offset + entries[|entries| - 1].length
  }

  lemma EntriesAreTiles<T>(call: FilterCall<T>, entries: seq<ListEntry>)
    requires |entries| == |call.rows| && forall r :: 0 <= r < |entries| ==> entries[r] == EntryOf(call, r)
    ensures EntriesTile(entries, |KeptBefore(call, |call.rows|)|)
  {
    hide FilteredRow;
  }

  /** The slice of the child vector that belongs to row `r`. */
  ghost predicate FilteredSlice<T>(column: ListColumn<T>, lambda: (T, nat, nat) -> Option<bool>, hasIndex: bool, r: nat,
                                   child: seq<T>, entry: ListEntry)
    requires column.WellFormed() && r < |column.sel|
  {
    var list := column.entries[column.sel[r]];
    && entry.offset + entry.length <= |child|
    && (!column.validity[column.sel[r]] ==> entry.length == 0)
    && (column.validity[column.sel[r]] ==>
          PickedWhereTrue(column.child[list.offset..list.offset + list.length],
                          seq(list.length, k requires 0 <= k < list.length =>
                                lambda(column.child[list.offset + k], r, if hasIndex then k + 1 else 0)),
                          child[entry.offset..entry.offset + entry.length]))
  }

  lemma SliceIsFiltered<T>(column: ListColumn<T>, lambda: (T, nat, nat) -> Option<bool>, hasIndex: bool, r: nat, child: seq<T>)
    requires column.WellFormed() && r < |column.sel|
    requires var call := LambdaCall(column.Rows(), lambda, hasIndex); child == KeptBefore(call, |call.rows|)
    ensures FilteredSlice(column, lambda, hasIndex, r, child, EntryOf(LambdaCall(column.Rows(), lambda, hasIndex), r))
  {
    hide Kept, KeptBefore;
    var call := LambdaCall(column.Rows(), lambda, hasIndex);
    var list, entry, row := column.entries[column.sel[r]], EntryOf(call, r), call.rows[r];
    FilteredRowAt(call, |call.rows|, r);
    KeptIsTheFilter(call, r, |row|);
    if column.validity[column.sel[r]] {
      var answers := seq(list.length, k requires 0 <= k < list.length =>
                           lambda(column.child[list.offset + k], r, if hasIndex then k + 1 else 0));
      var at := KeptIndexes(call, r, |row|);
      assert PickedAt(row, at, FilteredRow(call, r));
      assert forall k: nat :: k in at <==> k < |answers| && answers[k] == Some(true);
    }
  }

  /** The loop over the rows, and the last flush. */
  method FilterRows<T>(column: ListColumn<T>, lambda: (T, nat, nat) -> Option<bool>, hasIndex: bool,
                       result: FilterResult<T>, info: ListFilterInfo, batch: LambdaBatch, ghost call: FilterCall<T>)
    requires column.WellFormed() && call.lambda == lambda && call.hasIndex == hasIndex
    requires |call.rows| == |column.sel| && forall r :: 0 <= r < |column.sel| ==> call.rows[r] == column.Row(r)
    requires InStep(call, column.child, result, info, batch) && info.entryLengths == [] && batch.flushed == batch.size == 0
    requires |result.validity| == |column.sel| && forall r :: 0 <= r < |column.sel| ==> result.validity[r]
    modifies result, result.entries, info, batch
    ensures IsFilterResult(call, column, result)
  {
    hide InStep, Locate, Kept, KeptBefore, FilteredRow;
    for r := 0 to |column.sel|
      invariant |info.entryLengths| == r
      invariant InStep(call, column.child, result, info, batch)
      invariant batch.flushed + batch.size == Before(call.rows, r)
      invariant |result.validity| == |column.sel|
      invariant forall q :: 0 <= q < |column.sel| ==> result.validity[q] == (q < r ==> column.RowIsValid(q))
    {
      FilterRow(column, lambda, hasIndex, r, result, info, batch, call);
    }
    Flush(column, lambda, hasIndex, result, info, batch, call);
    AllRowsFinished(column, call, result, info, batch);
  }

  /** Once every row was announced and every element flushed, the cursor has passed every row, and the result is
      complete. */
  lemma AllRowsFinished<T>(column: ListColumn<T>, call: FilterCall<T>, result: FilterResult<T>, info: ListFilterInfo,
                           batch: LambdaBatch)
    requires column.WellFormed() && InStep(call, column.child, result, info, batch)
    requires |info.entryLengths| == |call.rows| == |column.sel| == |result.validity|
    requires batch.flushed == Before(call.rows, |call.rows|)
    requires info.rowIdx == |info.entryLengths| || OnElement(call, |info.entryLengths|, info.View())
    requires forall r :: 0 <= r < |call.rows| ==> result.validity[r] == column.RowIsValid(r)
    ensures info.rowIdx == |call.rows| && IsFilterResult(call, column, result)
  {
    CursorAtEnd(call, |call.rows|, info.View());
  }
}
