/**
 The table producer of timestamp ranges: a state that is resumed batch after batch.  What it still has to
 produce is a function of the state, and every batch takes a piece off the front.
 */
module IcuTableRange {
  import opened Options
  import opened IcuIntervals
  import opened IcuRanges

  datatype Stream = Stream(values: seq<int>, error: Option<RangeError>)

  function Then(a: Stream, b: Stream): Stream {
    if a.error.Some? then a else Stream(a.values + b.values, b.error)
  }

  /** What is wrong with a row, in the order in which the producer looks. */
  function Complaint(row: Row): Option<RangeError> {
    if row.NullRow? then None
    else if !IsFinite(row.start) || !IsFinite(row.end) then Some(InfiniteBound)
    else if !HasPositive(row.increment) && !HasNegative(row.increment) then Some(ZeroInterval)
    else if !HasOneSign(row.increment) then Some(MixedSigns)
    else None
  }

  ghost function SeriesStream(add: Adder, t: int, row: Row, inclusive: bool): Stream
    requires StrictlyMonotone(add) && IsClean(row)
  {
    var p := Series(add, t, row.end, row.increment, inclusive);
    Stream(p.values, if p.failed then Some(AddOverflow) else None)
  }

  /** `batch` is the front of `all`, and `rest` is what follows it. */
  ghost predicate Splits(all: Stream, batch: seq<int>, rest: Stream) {
    all == Stream(batch + rest.values, rest.error)
  }

  lemma StreamStep(add: Adder, t: int, row: Row, inclusive: bool, all: Stream, batch: seq<int>)
    requires StrictlyMonotone(add) && IsClean(row)
    requires Splits(all, batch, SeriesStream(add, t, row, inclusive))
    requires !Finished(t, row.end, HasPositive(row.increment), inclusive)
    ensures var next := add(t, row.increment);
            if next.None? then all == Stream(batch + [t], Some(AddOverflow))
            else Splits(all, batch + [t], SeriesStream(add, next.value, row, inclusive))
  {
    hide Finished, HasPositive, HasNegative;
  }

  lemma NothingTaken(all: Stream)
    ensures Splits(all, [], all)
  {
  }

  lemma SplitsAhead(all: Stream, batch: seq<int>, rest: Stream, later: Stream)
    requires Splits(all, batch, rest)
    ensures Splits(Then(all, later), batch, Then(rest, later))
  {
  }

  /** What a fresh producer makes of one row. */
  ghost function TableRow(add: Adder, row: Row, inclusive: bool): Stream
    requires StrictlyMonotone(add)
  {
    if Complaint(row).Some? then Stream([], Complaint(row))
    else if row.NullRow? then Stream([], None)
    else SeriesStream(add, row.start, row, inclusive)
  }

  /** What the rows from `k` on give.  The flag says that an empty range came before; it is never taken
      back, and silences every later row that is not in error. */
  ghost function TableFrom(add: Adder, rows: seq<Row>, k: nat, silent: bool, inclusive: bool): Stream
    requires StrictlyMonotone(add) && k <= |rows|
    decreases |rows| - k
  {
    if k == |rows| then Stream([], None)
    else
      var silenced := silent || IsEmptyRange(rows[k]);
      var row := if silenced && Complaint(rows[k]).None? then Stream([], None) else TableRow(add, rows[k], inclusive);
      Then(row, TableFrom(add, rows, k + 1, silenced, inclusive))
  }

  lemma TableStep(add: Adder, rows: seq<Row>, k: nat, silent: bool, inclusive: bool)
    requires StrictlyMonotone(add) && k < |rows|
    ensures var all, row, silenced := TableFrom(add, rows, k, silent, inclusive), rows[k], silent || IsEmptyRange(rows[k]);
            if Complaint(row).Some? then all == Stream([], Complaint(row))
            else if silenced || row.NullRow? then all == TableFrom(add, rows, k + 1, silenced, inclusive)
            else IsClean(row)
                 && all == Then(SeriesStream(add, row.start, row, inclusive), TableFrom(add, rows, k + 1, false, inclusive))
  {
    hide HasPositive, HasNegative, IsFinite, SeriesStream, IsEmptyRange;
  }

  lemma TableEnd(add: Adder, rows: seq<Row>, silent: bool, inclusive: bool)
    requires StrictlyMonotone(add)
    ensures TableFrom(add, rows, |rows|, silent, inclusive) == Stream([], None)
  {
  }

  /** A row whose next value lies behind the bound has nothing left. */
  lemma FinishedRow(add: Adder, t: int, row: Row, inclusive: bool, later: Stream)
    requires StrictlyMonotone(add) && IsClean(row) && Finished(t, row.end, HasPositive(row.increment), inclusive)
    ensures Then(SeriesStream(add, t, row, inclusive), later) == later
  {
    hide Finished, HasPositive, HasNegative;
  }

  lemma LostWith(batch: seq<int>, error: Option<RangeError>, later: Stream)
    requires error.Some?
    ensures Then(Stream(batch, error), later) == Stream(batch, error)
  {
  }

  /** Whether the flag is set when all rows are done. */
  predicate SilentAfter(rows: seq<Row>, k: nat, silent: bool)
    requires k <= |rows|
    decreases |rows| - k
  {
    if k == |rows| then silent else SilentAfter(rows, k + 1, silent || IsEmptyRange(rows[k]))
  }

  datatype Status = NeedMoreInput | HaveMoreOutput(batch: seq<int>) | Failed(error: RangeError)

  class ICURangeLocalState {
    const generateSeries: bool
    var initializedRow: bool
    var currentInputRow: nat
    var currentState: int
    var start: int
    var end: int
    var increment: Interval
    var inclusiveBound: bool
    var greaterThanCheck: bool
    var emptyRange: bool

    constructor (series: bool)
      ensures generateSeries == series
      ensures !initializedRow && currentInputRow == 0 && !emptyRange
    {
      generateSeries := series;
      initializedRow, currentInputRow, emptyRange := false, 0, false;
      start, end, increment := 0, 0, Interval(0, 0, 0);
    }

    /** The state's copy of a row that is being produced. */
    ghost predicate InRow(row: Row)
      reads this
    {
      && IsClean(row)
      && end == row.end && increment == row.increment
      && inclusiveBound == generateSeries && greaterThanCheck == HasPositive(row.increment)
    }

    /** What holds between two calls. */
    ghost predicate Ready(rows: seq<Row>)
      reads this
    {
      if initializedRow
      then currentInputRow < |rows| && InRow(rows[currentInputRow])
           && !emptyRange && !IsEmptyRange(rows[currentInputRow])
      else currentInputRow <= |rows|
    }

    /** What the state still has to produce. */
    ghost function Remaining(add: Adder, rows: seq<Row>): Stream
      requires StrictlyMonotone(add) && Ready(rows)
      reads this
    {
      if initializedRow
      then Then(SeriesStream(add, currentState, rows[currentInputRow], generateSeries),
                TableFrom(add, rows, currentInputRow + 1, false, generateSeries))
      else TableFrom(add, rows, currentInputRow, emptyRange, generateSeries)
    }

    predicate IsFinished()
      reads this
    {
      Finished(currentState, end, greaterThanCheck, inclusiveBound)
    }

    method GenerateRangeDateTimeParameters(rows: seq<Row>) returns (error: Option<RangeError>)
      requires !initializedRow && currentInputRow < |rows|
      modifies this
      ensures !initializedRow && currentInputRow == old(currentInputRow)
      ensures error == Complaint(rows[currentInputRow])
      ensures error == None ==> emptyRange == (old(emptyRange) || IsEmptyRange(rows[currentInputRow]))
      ensures error == None && rows[currentInputRow].Row? ==>
                InRow(rows[currentInputRow]) && start == rows[currentInputRow].start
      ensures rows[currentInputRow].NullRow? ==> Finished(start, end, greaterThanCheck, inclusiveBound)
    {
      var row := rows[currentInputRow];
      if row.NullRow? {
        start, end, increment, greaterThanCheck, inclusiveBound := 0, 0, Interval(0, 0, 0), true, false;
        return None;
      }
      start, end, increment := row.start, row.end, row.increment;
      if !IsFinite(start) || !IsFinite(end) {
        return Some(InfiniteBound);
      }
      if increment.months == 0 && increment.days == 0 && increment.micros == 0 {
        return Some(ZeroInterval);
      }
      if HasPositive(increment) {
        if HasNegative(increment) {
          return Some(MixedSigns);
        }
        greaterThanCheck := true;
        if start > end {
          emptyRange := true;
        }
      } else {
        greaterThanCheck := false;
        if start < end {
          emptyRange := true;
        }
      }
      inclusiveBound := generateSeries;
      error := None;
    }

    /** Fills one batch from the current row.  The next value is computed before the size is looked at, so a
        failing addition also loses the values already in the batch. */
    method FillBatch(add: Adder, vectorSize: nat, ghost row: Row) returns (batch: seq<int>, failed: bool)
      requires StrictlyMonotone(add) && vectorSize >= 1
      requires !IsFinished() ==> InRow(row)
      modifies this`currentState
      ensures old(IsFinished()) ==> batch == [] && !failed && currentState == old(currentState)
      ensures !old(IsFinished()) ==>
                var before, after := old(SeriesStream(add, currentState, row, generateSeries)),
                                     SeriesStream(add, currentState, row, generateSeries);
                && 1 <= |batch| <= vectorSize
                && if failed then before == Stream(batch, Some(AddOverflow)) else Splits(before, batch, after)
    {
      hide SeriesStream, Splits, Finished;
      batch, failed := [], false;
      if IsFinished() {
        return;
      }
      ghost var all := SeriesStream(add, currentState, row, generateSeries);
      NothingTaken(all);
      while true
        invariant |batch| < vectorSize && InRow(row)
        invariant Splits(all, batch, SeriesStream(add, currentState, row, generateSeries))
        invariant batch == [] ==> !IsFinished()
        decreases vectorSize - |batch|
      {
        if IsFinished() {
          return;
        }
        StreamStep(add, currentState, row, generateSeries, all, batch);
        batch := batch + [currentState];
        var next := add(currentState, increment);
        if next.None? {
          failed := true;
          return;
        }
        currentState := next.value;
        if |batch| >= vectorSize {
          return;
        }
      }
    }

    /** One call: the batch it hands out is the front of what remained. */
    method Next(add: Adder, rows: seq<Row>, vectorSize: nat) returns (r: Status)
      requires StrictlyMonotone(add) && vectorSize >= 1 && Ready(rows)
      modifies this
      ensures r.NeedMoreInput? ==>
                && old(Remaining(add, rows)) == Stream([], None)
                && !initializedRow && currentInputRow == 0
                && emptyRange == old(SilentAfter(rows, currentInputRow, emptyRange))
      ensures r.HaveMoreOutput? ==>
                && Ready(rows) && |r.batch| <= vectorSize
                && Splits(old(Remaining(add, rows)), r.batch, Remaining(add, rows))
                && SilentAfter(rows, currentInputRow, emptyRange) == old(SilentAfter(rows, currentInputRow, emptyRange))
                && old(currentInputRow) <= currentInputRow && (r.batch == [] ==> old(currentInputRow) < currentInputRow)
      ensures r.Failed? ==>
                && old(Remaining(add, rows)).error == Some(r.error)
                && |old(Remaining(add, rows)).values| <= vectorSize
                && (r.error != AddOverflow ==> old(Remaining(add, rows)).values == [])
    {
      hide TableFrom, SeriesStream, Splits, Then, Finished, IsEmptyRange, Complaint, HasOneSign, IsFinite;
      while true
        invariant Ready(rows) && Remaining(add, rows) == old(Remaining(add, rows))
        invariant SilentAfter(rows, currentInputRow, emptyRange) == old(SilentAfter(rows, currentInputRow, emptyRange))
        invariant old(currentInputRow) <= currentInputRow
        decreases |rows| - currentInputRow
      {
        ghost var k := currentInputRow;
        if !initializedRow {
          if currentInputRow >= |rows| {
            TableEnd(add, rows, emptyRange, generateSeries);
            currentInputRow := 0;
            initializedRow := false;
            return NeedMoreInput;
          }
          TableStep(add, rows, k, emptyRange, generateSeries);
          var error := GenerateRangeDateTimeParameters(rows);
          if error.Some? {
            return Failed(error.value);
          }
          initializedRow := true;
          currentState := start;
        }
        if emptyRange {
          currentInputRow := currentInputRow + 1;
          initializedRow := false;
          NothingTaken(Remaining(add, rows));
          return HaveMoreOutput([]);
        }
        ghost var later := TableFrom(add, rows, k + 1, false, generateSeries);
        ghost var before := if rows[k].Row? then SeriesStream(add, currentState, rows[k], generateSeries) else later;
        var batch, failed := FillBatch(add, vectorSize, rows[currentInputRow]);
        if failed {
          LostWith(batch, Some(AddOverflow), later);
          return Failed(AddOverflow);
        }
        if |batch| == 0 {
          if rows[k].Row? {
            FinishedRow(add, currentState, rows[k], generateSeries, later);
          }
          currentInputRow := currentInputRow + 1;
          initializedRow := false;
          continue;
        }
        SplitsAhead(before, batch, SeriesStream(add, currentState, rows[k], generateSeries), later);
        return HaveMoreOutput(batch);
      }
    }
  }
}
