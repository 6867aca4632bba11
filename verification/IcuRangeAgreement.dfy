/**
 The two range producers side by side: whole runs of the table producer, and when they give the list
 producer's values.
 */
module IcuRangeAgreement {
  import opened Options
  import opened IcuIntervals
  import opened IcuRanges
  import opened IcuRangeLaws
  import opened IcuListRange
  import opened IcuTableRange

  function Flat(batches: seq<seq<int>>): seq<int> {
    if batches == [] then [] else Flat(batches[..|batches| - 1]) + batches[|batches| - 1]
  }

  ghost predicate AllAtMost(batches: seq<seq<int>>, vectorSize: nat) {
    forall k :: 0 <= k < |batches| ==> |batches[k]| <= vectorSize
  }

  /** The values of a table are its rows' ranges, one after the other, without the silenced ones; and if it fails,
      then at the first row that breaks it off. */
  ghost predicate IsTable(add: Adder, rows: seq<Row>, silent: bool, inclusive: bool, table: Stream) {
    exists parts, front: seq<int> ::
      && AreParts(add, rows, silent, inclusive, parts) && table.values == Flat(parts) + front
      && if table.error == None then |parts| == |rows| && front == []
         else |parts| < |rows| && BreaksOff(add, rows, |parts|, silent, inclusive, front, table.error.value)
  }

  lemma TableIsRanges(add: Adder, rows: seq<Row>, silent: bool, inclusive: bool)
    requires StrictlyMonotone(add)
    ensures IsTable(add, rows, silent, inclusive, TableFrom(add, rows, 0, silent, inclusive))
    ensures TableFrom(add, rows, 0, silent, inclusive).error == None ==>
              (SilentAfter(rows, 0, silent) <==> silent || exists j :: 0 <= j < |rows| && StartsBeyondEnd(rows[j]))
  {
    hide TableFrom, IsPartOf, BreaksOff, StrictlyMonotone;
    var table := TableFrom(add, rows, 0, silent, inclusive);
    var parts: seq<seq<int>>, flag := [], silent;
    NothingTaken(table);
    while |parts| < |rows|
      invariant AreParts(add, rows, silent, inclusive, parts)
      invariant flag <==> silent || exists j :: 0 <= j < |parts| && StartsBeyondEnd(rows[j])
      invariant SilentAfter(rows, |parts|, flag) == SilentAfter(rows, 0, silent)
      invariant Splits(table, Flat(parts), TableFrom(add, rows, |parts|, flag, inclusive))
      decreases |rows| - |parts|
    {
      var k := |parts|;
      var row, rest := RowOfTable(add, rows, k, silent, flag, inclusive);
      if row.error.Some? {
        assert table.values == Flat(parts) + row.values;
        return;
      }
      OneMoreBatch(table, parts, row.values, TableFrom(add, rows, k, flag, inclusive), rest);
      parts, flag := parts + [row.values], flag || IsEmptyRange(rows[k]);
    }
    TableEnd(add, rows, flag, inclusive);
    assert table.values == Flat(parts) + [];
  }

  /** What row `k` adds, and what comes after it. */
  lemma RowOfTable(add: Adder, rows: seq<Row>, k: nat, silent: bool, flag: bool, inclusive: bool) returns (row: Stream, rest: Stream)
    requires StrictlyMonotone(add) && k < |rows|
    requires flag <==> silent || exists j :: 0 <= j < k && StartsBeyondEnd(rows[j])
    ensures rest == TableFrom(add, rows, k + 1, flag || IsEmptyRange(rows[k]), inclusive)
    ensures TableFrom(add, rows, k, flag, inclusive) == Then(row, rest)
    ensures if row.error == None
            then IsPartOf(add, rows, k, silent, inclusive, row.values)
                 && Splits(TableFrom(add, rows, k, flag, inclusive), row.values, rest)
            else BreaksOff(add, rows, k, silent, inclusive, row.values, row.error.value)
    ensures row.error == None ==> (IsEmptyRange(rows[k]) <==> StartsBeyondEnd(rows[k]))
  {
    hide IsWhole, IsStuck, Series;
    var r := rows[k];
    rest := TableFrom(add, rows, k + 1, flag || IsEmptyRange(r), inclusive);
    row := if (flag || IsEmptyRange(r)) && Complaint(r).None? then Stream([], None) else TableRow(add, r, inclusive);
    if r.Row? {
      SignsAgree(r.increment);
      if IsClean(r) {
        var p := Series(add, r.start, r.end, r.increment, inclusive);
        SeriesExactly(add, r.start, r.end, r.increment, inclusive, p.values);
        assert IsEmptyRange(r) <==> StartsBeyondEnd(r);
      }
    }
    assert IsSilenced(rows, k, silent) <==> flag || StartsBeyondEnd(r);
  }

  /** Calls the producer on one chunk of rows until it asks for more input or fails. */
  method RunTable(state: ICURangeLocalState, add: Adder, rows: seq<Row>, vectorSize: nat)
    returns (batches: seq<seq<int>>, error: Option<RangeError>)
    requires StrictlyMonotone(add) && vectorSize >= 1
    requires !state.initializedRow && state.currentInputRow == 0
    modifies state
    ensures AllAtMost(batches, vectorSize)
    ensures error == None ==>
              && old(TableFrom(add, rows, 0, state.emptyRange, state.generateSeries)) == Stream(Flat(batches), None)
              && !state.initializedRow && state.currentInputRow == 0
              && (state.emptyRange <==> old(state.emptyRange) || exists j :: 0 <= j < |rows| && StartsBeyondEnd(rows[j]))
    ensures error.Some? ==>
              exists lost :: |lost| <= vectorSize && old(TableFrom(add, rows, 0, state.emptyRange, state.generateSeries))
                                                     == Stream(Flat(batches) + lost, error)
    ensures exists lost ::
              && (if error == None then lost == [] else |lost| <= vectorSize)
              && IsTable(add, rows, old(state.emptyRange), state.generateSeries, Stream(Flat(batches) + lost, error))
  {
    hide TableFrom, Series, IsTable, SilentAfter, StartsBeyondEnd;
    TableIsRanges(add, rows, state.emptyRange, state.generateSeries);
    batches := [];
    ghost var all := state.Remaining(add, rows);
    NothingTaken(all);
    while true
      invariant state.Ready(rows) && AllAtMost(batches, vectorSize)
      invariant Splits(all, Flat(batches), state.Remaining(add, rows))
      invariant SilentAfter(rows, state.currentInputRow, state.emptyRange) == old(SilentAfter(rows, 0, state.emptyRange))
      decreases |state.Remaining(add, rows).values|, |rows| - state.currentInputRow
    {
      ghost var rest := state.Remaining(add, rows);
      var r := state.Next(add, rows, vectorSize);
      match r
      case NeedMoreInput =>
        return batches, None;
      case Failed(e) =>
        return batches, Some(e);
      case HaveMoreOutput(batch) =>
        OneMoreBatch(all, batches, batch, rest, state.Remaining(add, rows));
        batches := batches + [batch];
    }
  }

  lemma OneMoreBatch(all: Stream, batches: seq<seq<int>>, batch: seq<int>, before: Stream, after: Stream)
    requires Splits(all, Flat(batches), before) && Splits(before, batch, after)
    ensures Splits(all, Flat(batches + [batch]), after)
  {
    assert (batches + [batch])[..|batches|] == batches;
  }

  // ---------------------------------------------------------------- one row

  predicate IsZeroInterval(row: Row) {
    row.Row? && !HasPositive(row.increment) && !HasNegative(row.increment)
  }

  /** The same values, or the same error. */
  predicate SameOutcome(list: Result<seq<int>>, table: Stream) {
    match list
    case Ok(values) => table == Stream(values, None)
    case Fail(error) => table.error == Some(error)
  }

  /** The range of the row has more values than a list may have: so many additions succeed. */
  ghost predicate HasTooManyValues(add: Adder, row: Row, inclusive: bool)
    requires StrictlyMonotone(add)
  {
    && IsClean(row)
    && var p := Series(add, row.start, row.end, row.increment, inclusive);
       |p.values| - (if p.failed then 1 else 0) > UINT32_MAX
  }

  /** On one row and a fresh state the producers agree, but for a zero interval, which only the table refuses,
      and a range with too many values, which only the list refuses. */
  lemma FreshRowAgrees(add: Adder, row: Row, inclusive: bool)
    requires StrictlyMonotone(add)
    ensures SameOutcome(ListRange(add, row, inclusive), TableFrom(add, [row], 0, false, inclusive))
            <==> !IsZeroInterval(row) && !HasTooManyValues(add, row, inclusive)
  {
    hide Finished, HasPositive, HasNegative, IsFinite, Series;
    TableStep(add, [row], 0, false, inclusive);
    TableEnd(add, [row], IsEmptyRange(row), inclusive);
    if IsEmptyRange(row) && IsClean(row) {
      EmptyRangeHasNoValues(add, row, inclusive);
    }
  }

  lemma EmptyRangeHasNoValues(add: Adder, row: Row, inclusive: bool)
    requires StrictlyMonotone(add) && IsEmptyRange(row) && IsClean(row)
    ensures Series(add, row.start, row.end, row.increment, inclusive) == Produced([], false)
  {
  }

  // ---------------------------------------------------------------- many rows

  /** The row's range starts inside its bound. */
  predicate HasValues(row: Row, inclusive: bool) {
    row.Row? && !Finished(row.start, row.end, HasPositive(row.increment), inclusive)
  }

  /** No row with values comes after an empty range. */
  ghost predicate NoneSilenced(rows: seq<Row>, k: nat, silent: bool, inclusive: bool) {
    forall j :: k <= j < |rows| && HasValues(rows[j], inclusive) ==>
      !silent && forall i :: k <= i < j ==> !IsEmptyRange(rows[i])
  }

  ghost predicate AllHaveLists(add: Adder, rows: seq<Row>, inclusive: bool)
    requires StrictlyMonotone(add)
  {
    forall k :: 0 <= k < |rows| ==> !IsZeroInterval(rows[k]) && ListRange(add, rows[k], inclusive).Ok?
  }

  /** The lists of the rows from `k` on. */
  ghost function ListsFrom(add: Adder, rows: seq<Row>, k: nat, inclusive: bool): seq<int>
    requires StrictlyMonotone(add) && k <= |rows| && AllHaveLists(add, rows, inclusive)
    decreases |rows| - k
  {
    if k == |rows| then [] else ListRange(add, rows[k], inclusive).value + ListsFrom(add, rows, k + 1, inclusive)
  }

  lemma {:induction false} JoinedIsLists(add: Adder, rows: seq<Row>, k: nat, inclusive: bool)
    requires StrictlyMonotone(add) && k <= |rows| && AllHaveLists(add, rows, inclusive)
    ensures Joined(add, rows, k, inclusive).Ok?
    ensures Joined(add, rows, |rows|, inclusive)
         == Ok(Joined(add, rows, k, inclusive).value + ListsFrom(add, rows, k, inclusive))
    decreases |rows| - k
  {
    hide ListRange;
    JoinedFailsFirst(add, rows, k, inclusive);
    if k < |rows| {
      JoinedIsLists(add, rows, k + 1, inclusive);
      assert Joined(add, rows, k + 1, inclusive).value + ListsFrom(add, rows, k + 1, inclusive)
          == Joined(add, rows, k, inclusive).value + ListsFrom(add, rows, k, inclusive);
    } else {
      assert Joined(add, rows, k, inclusive).value + [] == Joined(add, rows, k, inclusive).value;
    }
  }

  /** One row that has a list: its values, its being silenced, and the table's step over it. */
  lemma RowStep(add: Adder, rows: seq<Row>, k: nat, silent: bool, inclusive: bool)
    requires StrictlyMonotone(add) && k < |rows|
    requires !IsZeroInterval(rows[k]) && ListRange(add, rows[k], inclusive).Ok?
    ensures var silenced, list := silent || IsEmptyRange(rows[k]), ListRange(add, rows[k], inclusive).value;
            TableFrom(add, rows, k, silent, inclusive)
            == Then(Stream(if silenced then [] else list, None), TableFrom(add, rows, k + 1, silenced, inclusive))
    ensures HasValues(rows[k], inclusive) <==> ListRange(add, rows[k], inclusive).value != []
    ensures IsEmptyRange(rows[k]) ==> !HasValues(rows[k], inclusive)
  {
    TableStep(add, rows, k, silent, inclusive);
  }

  lemma {:induction false} TableAgainstLists(add: Adder, rows: seq<Row>, k: nat, silent: bool, inclusive: bool)
    requires StrictlyMonotone(add) && k <= |rows| && AllHaveLists(add, rows, inclusive)
    ensures var table, lists := TableFrom(add, rows, k, silent, inclusive), ListsFrom(add, rows, k, inclusive);
            && table.error == None && |table.values| <= |lists|
            && (table.values == lists <==> NoneSilenced(rows, k, silent, inclusive))
            && (|table.values| == |lists| ==> table.values == lists)
    decreases |rows| - k
  {
    hide ListRange, TableFrom, NoneSilenced;
    if k == |rows| {
      NoRowsLeft(add, rows, silent, inclusive);
    } else {
      var silenced := silent || IsEmptyRange(rows[k]);
      RowStep(add, rows, k, silent, inclusive);
      TableAgainstLists(add, rows, k + 1, silenced, inclusive);
      SilencedStep(rows, k, silent, inclusive);
      var list, table, lists := ListRange(add, rows[k], inclusive).value,
                                TableFrom(add, rows, k + 1, silenced, inclusive).values, ListsFrom(add, rows, k + 1, inclusive);
      if silenced && list != [] {
        assert |table| < |list + lists|;
      } else {
        assert list + table == list + lists <==> table == lists by {
          assert (list + table)[|list|..] == table && (list + lists)[|list|..] == lists;
        }
      }
    }
  }

  lemma NoRowsLeft(add: Adder, rows: seq<Row>, silent: bool, inclusive: bool)
    requires StrictlyMonotone(add)
    ensures TableFrom(add, rows, |rows|, silent, inclusive) == Stream([], None)
    ensures NoneSilenced(rows, |rows|, silent, inclusive)
  {
  }

  lemma SilencedStep(rows: seq<Row>, k: nat, silent: bool, inclusive: bool)
    requires k < |rows| && (IsEmptyRange(rows[k]) ==> !HasValues(rows[k], inclusive))
    ensures var silenced := silent || IsEmptyRange(rows[k]);
            NoneSilenced(rows, k, silent, inclusive)
            <==> (silenced ==> !HasValues(rows[k], inclusive)) && NoneSilenced(rows, k + 1, silenced, inclusive)
  {
    hide IsEmptyRange, HasValues;
    var silenced := silent || IsEmptyRange(rows[k]);
    if NoneSilenced(rows, k + 1, silenced, inclusive) && (silenced ==> !HasValues(rows[k], inclusive)) {
      forall j | k <= j < |rows| && HasValues(rows[j], inclusive)
        ensures !silent && forall i :: k <= i < j ==> !IsEmptyRange(rows[i])
      {
      }
    }
  }

  /** Over many rows that all have lists, the table gives the values of the lists one after the other exactly
      when no row with values comes after an empty range.  It never fails and never gives more values. */
  lemma RowsAgree(add: Adder, rows: seq<Row>, inclusive: bool)
    requires StrictlyMonotone(add) && AllHaveLists(add, rows, inclusive)
    ensures Joined(add, rows, |rows|, inclusive).Ok?
    ensures var table, lists := TableFrom(add, rows, 0, false, inclusive), Joined(add, rows, |rows|, inclusive).value;
            && table.error == None && |table.values| <= |lists|
            && (table.values == lists <==> NoneSilenced(rows, 0, false, inclusive))
  {
    hide ListRange, TableFrom, NoneSilenced;
    JoinedIsLists(add, rows, 0, inclusive);
    TableAgainstLists(add, rows, 0, false, inclusive);
  }

  /** An empty range, then two hours: the lists have the hours, the table has nothing. */
  lemma SilencedExample(add: Adder)
    requires var hour := Interval(0, 0, 3_600_000_000);
             StrictlyMonotone(add) && add(0, hour) == Some(3_600_000_000) && add(3_600_000_000, hour) == Some(7_200_000_000)
    ensures var hour := Interval(0, 0, 3_600_000_000);
            var rows := [Row(1, 0, hour), Row(0, 7_200_000_000, hour)];
            && Joined(add, rows, 2, false) == Ok([0, 3_600_000_000])
            && TableFrom(add, rows, 0, false, false) == Stream([], None)
  {
    hide Joined, TableFrom;
    var hour := Interval(0, 0, 3_600_000_000);
    var rows := [Row(1, 0, hour), Row(0, 7_200_000_000, hour)];
    assert Series(add, 7_200_000_000, 7_200_000_000, hour, false) == Produced([], false);
    assert Series(add, 3_600_000_000, 7_200_000_000, hour, false) == Produced([3_600_000_000], false);
    assert Series(add, 0, 7_200_000_000, hour, false).values == [0, 3_600_000_000];
    assert AllHaveLists(add, rows, false);
    JoinedIsLists(add, rows, 0, false);
    TableStep(add, rows, 0, false, false);
    TableStep(add, rows, 1, true, false);
    TableEnd(add, rows, true, false);
    assert ListRange(add, rows[0], false).value == [];
    var list := ListRange(add, rows[1], false).value;
    assert ListsFrom(add, rows, 2, false) == [];
    assert ListsFrom(add, rows, 1, false) == list + [];
    assert ListsFrom(add, rows, 0, false) == [] + (list + []) == list == [0, 3_600_000_000];
    NoneJoined(add, rows, false);
    assert Joined(add, rows, 0, false).value + ListsFrom(add, rows, 0, false) == [0, 3_600_000_000];
  }

  lemma NoneJoined(add: Adder, rows: seq<Row>, inclusive: bool)
    requires StrictlyMonotone(add)
    ensures Joined(add, rows, 0, inclusive) == Ok([])
  {
  }
}
