/**
 list_transform: the same batched loop as list_filter, with a running offset instead of a cursor.
 */
module ListTransform {
  import opened ListColumns
  import opened LambdaBatches

  /** The result vector: one entry per row, a validity mask and the child vector.  The entries of NULL
      rows are never written. */
  class TransformResult<U> {
    const entries: array<ListEntry>
    var validity: seq<bool>
    var child: seq<U>

    constructor (rowCount: nat)
      ensures fresh(entries) && entries.Length == rowCount
      ensures child == [] && validity == seq(rowCount, _ => true)
    {
      entries := new ListEntry[rowCount](_ => ListEntry(0, 0));
      validity := seq(rowCount, _ => true);
      child := [];
    }
  }

  /** The answers of the first elements of the flattened rows. */
  ghost predicate IsAnswersPrefix<T, U>(call: LambdaCall<T, U>, child: seq<U>) {
    && |child| <= call.Total()
    && forall g :: 0 <= g < |child| ==> child[g] == call.AnswerAt(g)
  }

  /** The first `n` rows have their validity, and the valid ones their slice. */
  ghost predicate RowsWritten<T, U>(column: ListColumn<T>, call: LambdaCall<T, U>, n: nat,
                                    entries: seq<ListEntry>, validity: seq<bool>)
    requires column.WellFormed()
  {
    && n <= |call.rows| == |column.sel| == |entries| == |validity|
    && forall r :: 0 <= r < |call.rows| ==>
         && validity[r] == (r < n ==> column.RowIsValid(r))
         && (r < n && column.RowIsValid(r) ==> entries[r] == ListEntry(Before(call.rows, r), |call.rows[r]|))
  }

  /** Element `k` of a slice that starts at `offset` is the lambda's answer for element `k` of row `r`. */
  ghost predicate IsMappedElement<T, U>(call: LambdaCall<T, U>, r: nat, child: seq<U>, offset: nat, k: nat) {
    && r < |call.rows| && k < |call.rows[r]| && offset + k < |child|
    && child[offset + k] == call.AnswerIn(r, k)
  }

  /** The slice of row `r` is the lambda mapped over the source list. */
  ghost predicate IsMappedRow<T, U>(call: LambdaCall<T, U>, r: nat, child: seq<U>, entry: ListEntry)
    requires r < |call.rows|
  {
    && entry.length == |call.rows[r]|
    && forall k: nat :: k < entry.length ==> IsMappedElement(call, r, child, entry.offset, k)
  }

  /** Offsets are prefix sums, so every row's slice of the answers is the row's own mapping. */
  lemma SliceIsMappedRow<T, U>(call: LambdaCall<T, U>, child: seq<U>, r: nat)
    requires IsAnswersPrefix(call, child) && |child| == call.Total() && r < |call.rows|
    ensures IsMappedRow(call, r, child, ListEntry(Before(call.rows, r), |call.rows[r]|))
  {
    hide Before, Locate, IsAnswersPrefix, IsMappedElement;
    forall k: nat | k < |call.rows[r]|
      ensures IsMappedElement(call, r, child, Before(call.rows, r), k)
    {
      AnswerOfRow(call, child, r, k);
    }
  }

  lemma AnswerOfRow<T, U>(call: LambdaCall<T, U>, child: seq<U>, r: nat, k: nat)
    requires IsAnswersPrefix(call, child) && |child| == call.Total()
    requires r < |call.rows| && k < |call.rows[r]|
    ensures IsMappedElement(call, r, child, Before(call.rows, r), k)
  {
    LocateUnique(call.rows, |call.rows|, r, k);
  }

  /** What list_transform promises of its result. */
  ghost predicate IsTransformResult<T, U>(column: ListColumn<T>, call: LambdaCall<T, U>, result: TransformResult<U>)
    requires column.WellFormed()
    reads result, result.entries
  {
    && |call.rows| == |column.sel| == result.entries.Length == |result.validity|
    && |result.child| == call.Total()
    && forall r :: 0 <= r < |call.rows| ==>
         && result.validity[r] == column.RowIsValid(r)
         && (column.RowIsValid(r) ==>
               && result.entries[r] == ListEntry(Before(call.rows, r), |call.rows[r]|)
               && IsMappedRow(call, r, result.child, result.entries[r]))
  }

  /** The batch starts right after the answers already appended. */
  ghost predicate InStep<T, U>(call: LambdaCall<T, U>, child: seq<T>, result: TransformResult<U>, batch: LambdaBatch)
    reads result`child, batch
  {
    && IsAnswersPrefix(call, result.child) && |result.child| == batch.flushed
    && batch.Valid() && 0 < batch.capacity && batch.Holds(child, call)
  }

  /** Runs the lambda on the batch and appends its answers. */
  method Flush<T, U>(child: seq<T>, lambda: (T, nat, nat) -> U, hasIndex: bool,
                     result: TransformResult<U>, batch: LambdaBatch, ghost call: LambdaCall<T, U>)
    requires InStep(call, child, result, batch) && call.lambda == lambda && call.hasIndex == hasIndex
    modifies result`child, batch`size, batch`flushed
    ensures InStep(call, child, result, batch)
    ensures batch.size == 0 && batch.flushed == old(batch.flushed + batch.size)
  {
    hide Locate, Before;
    var input, lambdaVector := batch.ExecuteExpression(child, lambda, hasIndex, call);
    result.child := result.child + lambdaVector;
    batch.Clear();
  }

  /** Puts the elements of the list in row `r` into the batch, flushing it whenever it is full. */
  method BatchList<T, U>(child: seq<T>, entry: ListEntry, lambda: (T, nat, nat) -> U, hasIndex: bool, r: nat,
                         result: TransformResult<U>, batch: LambdaBatch, ghost call: LambdaCall<T, U>)
    requires call.lambda == lambda && call.hasIndex == hasIndex && r < |call.rows|
    requires entry.offset + entry.length <= |child| && call.rows[r] == child[entry.offset..entry.offset + entry.length]
    requires InStep(call, child, result, batch) && batch.flushed + batch.size == Before(call.rows, r)
    modifies result`child, batch
    ensures InStep(call, child, result, batch) && batch.flushed + batch.size == Before(call.rows, r + 1)
  {
    for childIdx := 0 to entry.length
      invariant InStep(call, child, result, batch)
      invariant batch.flushed + batch.size == Before(call.rows, r) + childIdx
    {
      hide Locate, IsAnswersPrefix;
      if batch.size == batch.capacity {
        Flush(child, lambda, hasIndex, result, batch, call);
      }
      LocateUnique(call.rows, |call.rows|, r, childIdx);
      batch.Add(entry.offset + childIdx, r, childIdx, hasIndex, child, call);
    }
  }

  /** list_transform on a whole column, in batches of at most `vectorSize` elements. */
  method ListTransformFunction<T, U>(column: ListColumn<T>, lambda: (T, nat, nat) -> U, hasIndex: bool, vectorSize: nat)
    returns (result: TransformResult<U>)
    requires column.WellFormed() && vectorSize >= 1
    ensures IsTransformResult(column, LambdaCall(column.Rows(), lambda, hasIndex), result)
    ensures |result.validity| == result.entries.Length == |column.sel|
    ensures forall r :: 0 <= r < |column.sel| ==>
              && result.validity[r] == column.validity[column.sel[r]]
              && (result.validity[r] ==> MappedSlice(column, lambda, hasIndex, r, result.child, result.entries[r]))
  {
    ghost var call := LambdaCall(column.Rows(), lambda, hasIndex);
    result := new TransformResult(|column.sel|);
    var batch := new LambdaBatch(vectorSize);
    TransformRows(column, lambda, hasIndex, result, batch, call);
    forall r | 0 <= r < |column.sel| && column.validity[column.sel[r]]
      ensures MappedSlice(column, lambda, hasIndex, r, result.child, result.entries[r])
    {
      SliceIsMapped(column, lambda, hasIndex, r, result.child, result.entries[r]);
    }
  }

  /** The slice of the child vector that belongs to row `r`. */
  ghost predicate MappedSlice<T, U>(column: ListColumn<T>, lambda: (T, nat, nat) -> U, hasIndex: bool, r: nat, child: seq<U>,
                                    entry: ListEntry)
    requires column.WellFormed() && r < |column.sel| && column.validity[column.sel[r]]
  {
    var list := column.entries[column.sel[r]];
    && entry.length == list.length && entry.offset + entry.length <= |child|
    && child[entry.offset..entry.offset + entry.length]
       == seq(list.length, k requires 0 <= k < list.length =>
                lambda(column.child[list.offset + k], r, if hasIndex then k + 1 else 0))
  }

  lemma SliceIsMapped<T, U>(column: ListColumn<T>, lambda: (T, nat, nat) -> U, hasIndex: bool, r: nat, child: seq<U>,
                            entry: ListEntry)
    requires column.WellFormed() && r < |column.sel| && column.validity[column.sel[r]]
    requires var call := LambdaCall(column.Rows(), lambda, hasIndex);
             && |child| == call.Total() && entry == ListEntry(Before(call.rows, r), |call.rows[r]|)
             && IsMappedRow(call, r, child, entry)
    ensures MappedSlice(column, lambda, hasIndex, r, child, entry)
  {
    hide IsMappedRow, Before;
    var call := LambdaCall(column.Rows(), lambda, hasIndex);
    EntryInside(call, r);
    RowIsMapped(call, r, child, entry);
    var list := column.entries[column.sel[r]];
    assert call.rows[r] == column.child[list.offset..list.offset + list.length];
  }

  /** The same, told on the row. */
  lemma RowIsMapped<T, U>(call: LambdaCall<T, U>, r: nat, child: seq<U>, entry: ListEntry)
    requires r < |call.rows| && entry.length == |call.rows[r]| && entry.offset + entry.length <= |child|
    requires IsMappedRow(call, r, child, entry)
    ensures child[entry.offset..entry.offset + entry.length]
         == seq(entry.length, k requires 0 <= k < entry.length =>
                  call.lambda(call.rows[r][k], r, if call.hasIndex then k + 1 else 0))
  {
    hide IsMappedRow;
    var slice := child[entry.offset..entry.offset + entry.length];
    forall k: nat | k < entry.length
      ensures slice[k] == call.lambda(call.rows[r][k], r, if call.hasIndex then k + 1 else 0)
    {
      MappedElement(call, r, child, entry, k);
    }
  }

  lemma EntryInside<T, U>(call: LambdaCall<T, U>, r: nat)
    requires r < |call.rows|
    ensures Before(call.rows, r) + |call.rows[r]| <= call.Total()
  {
    BeforeMonotone(call.rows, r, |call.rows|);
  }

  lemma MappedElement<T, U>(call: LambdaCall<T, U>, r: nat, child: seq<U>, entry: ListEntry, k: nat)
    requires r < |call.rows| && IsMappedRow(call, r, child, entry) && k < entry.length
    ensures k < |call.rows[r]| && entry.offset + k < |child|
    ensures child[entry.offset + k] == call.lambda(call.rows[r][k], r, if call.hasIndex then k + 1 else 0)
  {
    assert IsMappedElement(call, r, child, entry.offset, k);
  }

  /** The loop over the rows, and the last flush. */
  method TransformRows<T, U>(column: ListColumn<T>, lambda: (T, nat, nat) -> U, hasIndex: bool,
                             result: TransformResult<U>, batch: LambdaBatch, ghost call: LambdaCall<T, U>)
    requires column.WellFormed() && call.lambda == lambda && call.hasIndex == hasIndex
    requires |call.rows| == |column.sel| && forall r :: 0 <= r < |column.sel| ==> call.rows[r] == column.Row(r)
    requires InStep(call, column.child, result, batch) && batch.flushed == batch.size == 0
    requires RowsWritten(column, call, 0, result.entries[..], result.validity)
    modifies result, result.entries, batch
    ensures IsTransformResult(column, call, result)
  {
    NothingBefore(call.rows);
    hide Locate, IsMappedRow, IsAnswersPrefix, Before, IsTransformResult;
    var offset := 0;
    for r := 0 to |column.sel|
      invariant InStep(call, column.child, result, batch)
      invariant batch.flushed + batch.size == offset == Before(call.rows, r)
      invariant RowsWritten(column, call, r, result.entries[..], result.validity)
    {
      offset := TransformRow(column, lambda, hasIndex, r, offset, result, batch, call);
    }
    Flush(column.child, lambda, hasIndex, result, batch, call);
    AllRowsMapped(column, call, result);
  }

  lemma NothingBefore<T>(rows: seq<seq<T>>)
    ensures Before(rows, 0) == 0
  {
  }

  lemma AllRowsMapped<T, U>(column: ListColumn<T>, call: LambdaCall<T, U>, result: TransformResult<U>)
    requires column.WellFormed() && IsAnswersPrefix(call, result.child) && |result.child| == call.Total()
    requires RowsWritten(column, call, |call.rows|, result.entries[..], result.validity)
    ensures IsTransformResult(column, call, result)
  {
    hide Before, Locate, IsAnswersPrefix, IsMappedRow;
    forall r: nat | r < |call.rows|
      ensures IsMappedRow(call, r, result.child, ListEntry(Before(call.rows, r), |call.rows[r]|))
    {
      SliceIsMappedRow(call, result.child, r);
    }
  }

  /** Handles row `r`; the offset moves on by the length of a valid row. */
  method TransformRow<T, U>(column: ListColumn<T>, lambda: (T, nat, nat) -> U, hasIndex: bool, r: nat, offset: nat,
                            result: TransformResult<U>, batch: LambdaBatch, ghost call: LambdaCall<T, U>)
    returns (newOffset: nat)
    requires column.WellFormed() && call.lambda == lambda && call.hasIndex == hasIndex
    requires r < |call.rows| == |column.sel| && call.rows[r] == column.Row(r)
    requires InStep(call, column.child, result, batch)
    requires batch.flushed + batch.size == offset == Before(call.rows, r)
    requires RowsWritten(column, call, r, result.entries[..], result.validity)
    modifies result, result.entries, batch
    ensures InStep(call, column.child, result, batch)
    ensures batch.flushed + batch.size == newOffset == Before(call.rows, r + 1)
    ensures RowsWritten(column, call, r + 1, result.entries[..], result.validity)
  {
    hide Locate, InStep;
    if !column.RowIsValid(r) {
      assert InStep(call, column.child, result, batch);
      result.validity := result.validity[r := false];
      return offset;
    }
    var entry := column.entries[column.sel[r]];
    result.entries[r] := ListEntry(offset, entry.length);
    newOffset := offset + entry.length;
    BatchList(column.child, entry, lambda, hasIndex, r, result, batch, call);
  }
}
