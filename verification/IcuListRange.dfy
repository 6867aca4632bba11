/**
 The list producer of timestamp ranges: a first pass counts every row's values, a second pass computes
 them again into one child vector.
 */
module IcuListRange {
  import opened Options
  import opened IcuIntervals
  import opened IcuRanges
  import opened IcuRangeLaws

  datatype Entry = Entry(offset: nat, length: nat)
  datatype ListVector = ListVector(entries: seq<Entry>, validity: seq<bool>, child: seq<int>)

  /** The list of one row, or the error it raises. */
  ghost function ListRange(add: Adder, row: Row, inclusive: bool): Result<seq<int>>
    requires StrictlyMonotone(add)
  {
    if row.NullRow? || (!HasPositive(row.increment) && !HasNegative(row.increment)) then Ok([])
    else if !IsFinite(row.start) || !IsFinite(row.end) then Fail(InfiniteBound)
    else if !HasOneSign(row.increment) then Fail(MixedSigns)
    else
      var p := Series(add, row.start, row.end, row.increment, inclusive);
      if p.failed && |p.values| <= UINT32_MAX + 1 then Fail(AddOverflow)
      else if |p.values| > UINT32_MAX then Fail(TooLong)
      else Ok(p.values)
  }

  /** A row's list is its range, when that is finite and short enough; every other row is refused. */
  lemma ListRangeExactly(add: Adder, row: Row, inclusive: bool)
    requires StrictlyMonotone(add)
    ensures forall s :: ListRange(add, row, inclusive) == Ok(s) <==> IsListOf(add, row, inclusive, s)
    ensures forall e :: ListRange(add, row, inclusive) == Fail(e) <==> IsRefused(add, row, inclusive, e)
  {
    hide IsWhole, IsFront, Series;
    if row.Row? {
      SignsAgree(row.increment);
      if HasOneSign(row.increment) && IsFinite(row.start) && IsFinite(row.end) {
        RangeOfRow(add, row, inclusive);
      }
    }
  }

  lemma RangeOfRow(add: Adder, row: Row, inclusive: bool)
    requires StrictlyMonotone(add) && IsClean(row)
    ensures forall s :: ListRange(add, row, inclusive) == Ok(s) <==> IsListOf(add, row, inclusive, s)
    ensures forall e :: ListRange(add, row, inclusive) == Fail(e) <==> IsRefused(add, row, inclusive, e)
  {
    hide IsWhole, IsFront, Series;
    SignsAgree(row.increment);
    forall s: seq<int>
      ensures ListRange(add, row, inclusive) == Ok(s) <==> IsListOf(add, row, inclusive, s)
    {
      SeriesExactly(add, row.start, row.end, row.increment, inclusive, s);
    }
    forall e: RangeError
      ensures ListRange(add, row, inclusive) == Fail(e) <==> IsRefused(add, row, inclusive, e)
    {
      RefusedRow(add, row, inclusive, e);
    }
  }

  lemma RefusedRow(add: Adder, row: Row, inclusive: bool, e: RangeError)
    requires StrictlyMonotone(add) && IsClean(row)
    ensures ListRange(add, row, inclusive) == Fail(e) <==> IsRefused(add, row, inclusive, e)
  {
    hide IsFront, Series;
    SignsAgree(row.increment);
    var p := Series(add, row.start, row.end, row.increment, inclusive);
    forall s: seq<int> | IsFront(add, row.start, row.end, row.increment, inclusive, s)
      ensures s != []
      ensures add(s[|s| - 1], row.increment) == None ==> p == Produced(s, true)
      ensures add(s[|s| - 1], row.increment).Some? ==> |s| <= |p.values| && (p.failed ==> |s| < |p.values|)
    {
      FrontExactly(add, row.start, row.end, row.increment, inclusive, s);
      UncountedExactly(add, row.start, row.end, row.increment, inclusive, s);
    }
    if p.failed && |p.values| <= UINT32_MAX + 1 {
      SeriesExactly(add, row.start, row.end, row.increment, inclusive, p.values);
    } else if |p.values| > UINT32_MAX {
      var s := FrontOfLength(add, row.start, row.end, row.increment, inclusive, UINT32_MAX + 1);
    }
  }

  /** The lists of the first `n` rows after one another, or the first error among them. */
  ghost function Joined(add: Adder, rows: seq<Row>, n: nat, inclusive: bool): Result<seq<int>>
    requires StrictlyMonotone(add) && n <= |rows|
  {
    if n == 0 then Ok([])
    else
      var before := Joined(add, rows, n - 1, inclusive);
      if before.Fail? then before
      else
        var row := ListRange(add, rows[n - 1], inclusive);
        if row.Fail? then row else Ok(before.value + row.value)
  }

  /** The rows join exactly when each has a list; otherwise the first row without one tells the error. */
  lemma {:induction false} JoinedFailsFirst(add: Adder, rows: seq<Row>, n: nat, inclusive: bool)
    requires StrictlyMonotone(add) && n <= |rows|
    ensures Joined(add, rows, n, inclusive).Ok? <==> forall k :: 0 <= k < n ==> ListRange(add, rows[k], inclusive).Ok?
    ensures Joined(add, rows, n, inclusive).Fail? ==>
              exists k :: 0 <= k < n && ListRange(add, rows[k], inclusive) == Joined(add, rows, n, inclusive)
                          && forall j :: 0 <= j < k ==> ListRange(add, rows[j], inclusive).Ok?
  {
    hide ListRange;
    if n > 0 {
      JoinedFailsFirst(add, rows, n - 1, inclusive);
    }
  }

  // ---------------------------------------------------------------- the first pass

  /** Counts the values of a range by stepping through it. */
  method CountValues(add: Adder, start: int, end: int, increment: Interval, inclusive: bool) returns (r: Result<nat>)
    requires StrictlyMonotone(add) && HasOneSign(increment)
    ensures var p := Series(add, start, end, increment, inclusive);
            r == if p.failed && |p.values| <= UINT32_MAX + 1 then Fail(AddOverflow)
                 else if |p.values| > UINT32_MAX then Fail(TooLong) else Ok(|p.values|)
  {
    var value, total := start, 0;
    ghost var p := Series(add, start, end, increment, inclusive);
    while !Finished(value, end, HasPositive(increment), inclusive)
      invariant total <= UINT32_MAX
      invariant var rest := Series(add, value, end, increment, inclusive);
                p.failed == rest.failed && |p.values| == total + |rest.values|
      decreases Distance(value, end, HasPositive(increment))
    {
      var next := add(value, increment);
      if next.None? {
        return Fail(AddOverflow);
      }
      value := next.value;
      total := total + 1;
      if total > UINT32_MAX {
        return Fail(TooLong);
      }
    }
    r := Ok(total);
  }

  method ListLength(add: Adder, row: Row, inclusive: bool) returns (r: Result<nat>)
    requires StrictlyMonotone(add) && row.Row?
    ensures var list := ListRange(add, row, inclusive);
            r == if list.Ok? then Ok(|list.value|) else Fail(list.error)
  {
    var isPositive, isNegative := HasPositive(row.increment), HasNegative(row.increment);
    if !isNegative && !isPositive {
      return Ok(0);
    }
    if !IsFinite(row.start) || !IsFinite(row.end) {
      return Fail(InfiniteBound);
    }
    if isNegative && isPositive {
      return Fail(MixedSigns);
    }
    if row.start > row.end && isPositive {
      return Ok(0);
    }
    if row.start < row.end && isNegative {
      return Ok(0);
    }
    r := CountValues(add, row.start, row.end, row.increment, inclusive);
  }

  /** An entry starts where the lists before its row end, and is as long as the row's list. */
  ghost predicate IsEntryOf(add: Adder, rows: seq<Row>, k: nat, inclusive: bool, e: Entry)
    requires StrictlyMonotone(add) && k < |rows|
  {
    && Joined(add, rows, k, inclusive).Ok? && ListRange(add, rows[k], inclusive).Ok?
    && e == Entry(|Joined(add, rows, k, inclusive).value|, |ListRange(add, rows[k], inclusive).value|)
  }

  /** The entries of the first `n` rows. */
  ghost predicate EntriesOf(add: Adder, rows: seq<Row>, n: nat, inclusive: bool, entries: seq<Entry>)
    requires StrictlyMonotone(add)
  {
    && n == |entries| <= |rows|
    && forall k :: 0 <= k < n ==> IsEntryOf(add, rows, k, inclusive, entries[k])
  }

  ghost predicate ValidityOf(rows: seq<Row>, n: nat, validity: seq<bool>) {
    n == |validity| <= |rows| && forall k :: 0 <= k < n ==> validity[k] == rows[k].Row?
  }

  method Measure(add: Adder, rows: seq<Row>, inclusive: bool)
    returns (error: Option<RangeError>, entries: seq<Entry>, validity: seq<bool>)
    requires StrictlyMonotone(add)
    ensures var all := Joined(add, rows, |rows|, inclusive);
            if all.Fail? then error == Some(all.error)
            else error == None && EntriesOf(add, rows, |rows|, inclusive, entries)
    ensures error == None ==> ValidityOf(rows, |rows|, validity)
  {
    hide ListRange, EntriesOf, ValidityOf, Joined;
    entries, validity, error := [], [], None;
    var totalSize := 0;
    NoEntries(add, rows, inclusive);
    for i := 0 to |rows|
      invariant var done := Joined(add, rows, i, inclusive); done.Ok? && totalSize == |done.value|
      invariant EntriesOf(add, rows, i, inclusive, entries) && ValidityOf(rows, i, validity)
    {
      var length := 0;
      if rows[i].NullRow? {
        NullRowIsEmpty(add, inclusive);
      } else {
        var counted := ListLength(add, rows[i], inclusive);
        if counted.Fail? {
          FailureStays(add, rows, i, inclusive);
          return Some(counted.error), entries, validity;
        }
        length := counted.value;
      }
      EntryStep(add, rows, i, inclusive, entries, validity);
      ghost var e := JoinedStep(add, rows, i, inclusive);
      validity := validity + [rows[i].Row?];
      entries := entries + [Entry(totalSize, length)];
      totalSize := totalSize + length;
    }
  }

  lemma NoEntries(add: Adder, rows: seq<Row>, inclusive: bool)
    requires StrictlyMonotone(add)
    ensures Joined(add, rows, 0, inclusive) == Ok([])
    ensures EntriesOf(add, rows, 0, inclusive, []) && ValidityOf(rows, 0, [])
  {
  }

  lemma EntryStep(add: Adder, rows: seq<Row>, i: nat, inclusive: bool, entries: seq<Entry>, validity: seq<bool>)
    requires StrictlyMonotone(add) && i < |rows|
    requires Joined(add, rows, i, inclusive).Ok? && ListRange(add, rows[i], inclusive).Ok?
    requires EntriesOf(add, rows, i, inclusive, entries) && ValidityOf(rows, i, validity)
    ensures var e := Entry(|Joined(add, rows, i, inclusive).value|, |ListRange(add, rows[i], inclusive).value|);
            EntriesOf(add, rows, i + 1, inclusive, entries + [e])
    ensures ValidityOf(rows, i + 1, validity + [rows[i].Row?])
  {
    hide ListRange, Joined, IsEntryOf;
    var e := JoinedStep(add, rows, i, inclusive);
  }

  lemma JoinedStep(add: Adder, rows: seq<Row>, i: nat, inclusive: bool) returns (e: Entry)
    requires StrictlyMonotone(add) && i < |rows|
    requires Joined(add, rows, i, inclusive).Ok? && ListRange(add, rows[i], inclusive).Ok?
    ensures e == Entry(|Joined(add, rows, i, inclusive).value|, |ListRange(add, rows[i], inclusive).value|)
    ensures IsEntryOf(add, rows, i, inclusive, e)
    ensures Joined(add, rows, i + 1, inclusive).Ok?
    ensures |Joined(add, rows, i + 1, inclusive).value| == e.offset + e.length
  {
    hide ListRange;
    e := Entry(|Joined(add, rows, i, inclusive).value|, |ListRange(add, rows[i], inclusive).value|);
  }

  lemma NullRowIsEmpty(add: Adder, inclusive: bool)
    requires StrictlyMonotone(add)
    ensures ListRange(add, NullRow, inclusive) == Ok([])
  {
  }

  /** The first row without a list decides. */
  lemma FailureStays(add: Adder, rows: seq<Row>, i: nat, inclusive: bool)
    requires StrictlyMonotone(add) && i < |rows|
    requires Joined(add, rows, i, inclusive).Ok? && ListRange(add, rows[i], inclusive).Fail?
    ensures Joined(add, rows, |rows|, inclusive) == Fail(ListRange(add, rows[i], inclusive).error)
  {
    hide ListRange;
    for n := i + 1 to |rows|
      invariant Joined(add, rows, n, inclusive) == Fail(ListRange(add, rows[i], inclusive).error)
    {
    }
  }

  // ---------------------------------------------------------------- the second pass

  /** Computes the values of one row again.  Every addition succeeds, because the first pass made it. */
  method Refill(add: Adder, row: Row, length: nat, inclusive: bool, ghost values: seq<int>) returns (filled: seq<int>)
    requires StrictlyMonotone(add)
    requires ListRange(add, row, inclusive) == Ok(values) && length == |values|
    ensures filled == values
  {
    hide Finished;
    filled := [];
    if row.NullRow? {
      return;
    }
    if length > 0 {
      SeriesIsRange(add, row.start, row.end, row.increment, inclusive);
    }
    var value := row.start;
    for i := 0 to length
      invariant filled == values[..i]
      invariant value == if i == 0 then row.start else values[i - 1]
    {
      if i > 0 {
        assert add(values[i - 1], row.increment) == Some(values[i]);
        value := add(value, row.increment).value;
      }
      filled := filled + [value];
    }
  }

  /** The list vector holds every row's list. */
  ghost predicate IsListResult(add: Adder, rows: seq<Row>, inclusive: bool, v: ListVector)
    requires StrictlyMonotone(add)
  {
    && ValidityOf(rows, |rows|, v.validity)
    && EntriesOf(add, rows, |rows|, inclusive, v.entries)
    && Joined(add, rows, |rows|, inclusive) == Ok(v.child)
  }

  method ICUListRangeFunction(add: Adder, rows: seq<Row>, inclusive: bool) returns (r: Result<ListVector>)
    requires StrictlyMonotone(add)
    ensures r.Fail? ==> Joined(add, rows, |rows|, inclusive) == Fail(r.error)
    ensures r.Ok? ==> IsListResult(add, rows, inclusive, r.value) && HoldsLists(add, rows, inclusive, r.value)
    ensures r.Fail? ==> exists k :: 0 <= k < |rows| && IsFirstRefused(add, rows, k, inclusive, r.error)
  {
    hide ListRange, HoldsLists, IsFirstRefused;
    var error, entries, validity := Measure(add, rows, inclusive);
    if error.Some? {
      FirstRefused(add, rows, inclusive, error.value);
      return Fail(error.value);
    }
    var child := [];
    for i := 0 to |rows|
      invariant Joined(add, rows, i, inclusive) == Ok(child)
    {
      ghost var list := ListRange(add, rows[i], inclusive);
      var values := Refill(add, rows[i], entries[i].length, inclusive, list.value);
      child := child + values;
    }
    r := Ok(ListVector(entries, validity, child));
    ResultHoldsLists(add, rows, inclusive, r.value);
  }

  /** The entries cut the child vector into consecutive stretches without gaps, each the list of its row. */
  ghost predicate HoldsLists(add: Adder, rows: seq<Row>, inclusive: bool, v: ListVector) {
    && |v.entries| == |v.validity| == |rows|
    && (rows == [] ==> v.child == [])
    && (forall k :: 0 <= k < |rows| ==> HoldsList(add, rows, inclusive, v, k))
  }

  ghost predicate HoldsList(add: Adder, rows: seq<Row>, inclusive: bool, v: ListVector, k: nat)
    requires k < |v.entries| == |v.validity| == |rows|
  {
    var offset, end := v.entries[k].offset, v.entries[k].offset + v.entries[k].length;
    && v.validity[k] == rows[k].Row?
    && (k == 0 ==> offset == 0)
    && end == (if k + 1 < |rows| then v.entries[k + 1].offset else |v.child|)
    && end <= |v.child| && IsListOf(add, rows[k], inclusive, v.child[offset..end])
  }

  lemma ResultHoldsLists(add: Adder, rows: seq<Row>, inclusive: bool, v: ListVector)
    requires StrictlyMonotone(add) && IsListResult(add, rows, inclusive, v)
    ensures HoldsLists(add, rows, inclusive, v)
  {
    hide ListRange, HoldsList, StrictlyMonotone, IsEntryOf;
    NoEntries(add, rows, inclusive);
    forall k | 0 <= k < |rows|
      ensures HoldsList(add, rows, inclusive, v, k)
    {
      ResultHoldsList(add, rows, inclusive, v, k);
    }
  }

  lemma ResultHoldsList(add: Adder, rows: seq<Row>, inclusive: bool, v: ListVector, k: nat)
    requires StrictlyMonotone(add) && IsListResult(add, rows, inclusive, v) && k < |rows|
    ensures HoldsList(add, rows, inclusive, v, k)
  {
    hide ListRange, IsListOf, IsRefused, StrictlyMonotone, Joined;
    NoEntries(add, rows, inclusive);
    assert IsEntryOf(add, rows, k, inclusive, v.entries[k]);
    assert k + 1 < |rows| ==> IsEntryOf(add, rows, k + 1, inclusive, v.entries[k + 1]);
    SliceIsRow(add, rows, |rows|, inclusive, k);
    ListRangeExactly(add, rows[k], inclusive);
    assert IsListOf(add, rows[k], inclusive, ListRange(add, rows[k], inclusive).value);
    var e := JoinedStep(add, rows, k, inclusive);
  }

  /** Row `k` is refused with the error, and every row before it has a list. */
  ghost predicate IsFirstRefused(add: Adder, rows: seq<Row>, k: nat, inclusive: bool, error: RangeError)
    requires k < |rows|
  {
    && IsRefused(add, rows[k], inclusive, error)
    && forall j :: 0 <= j < k ==> HasList(add, rows[j], inclusive)
  }

  ghost predicate HasList(add: Adder, row: Row, inclusive: bool) {
    exists s :: IsListOf(add, row, inclusive, s)
  }

  lemma FirstRefused(add: Adder, rows: seq<Row>, inclusive: bool, error: RangeError)
    requires StrictlyMonotone(add) && Joined(add, rows, |rows|, inclusive) == Fail(error)
    ensures exists k :: 0 <= k < |rows| && IsFirstRefused(add, rows, k, inclusive, error)
  {
    hide ListRange, IsListOf, IsRefused, StrictlyMonotone;
    JoinedFailsFirst(add, rows, |rows|, inclusive);
    var k :| 0 <= k < |rows| && ListRange(add, rows[k], inclusive) == Joined(add, rows, |rows|, inclusive)
             && forall j :: 0 <= j < k ==> ListRange(add, rows[j], inclusive).Ok?;
    ListRangeExactly(add, rows[k], inclusive);
    assert IsRefused(add, rows[k], inclusive, error);
    forall j | 0 <= j < k
      ensures HasList(add, rows[j], inclusive)
    {
      ListRangeExactly(add, rows[j], inclusive);
      assert IsListOf(add, rows[j], inclusive, ListRange(add, rows[j], inclusive).value);
    }
    assert IsFirstRefused(add, rows, k, inclusive, error);
  }

  /** Every row's slice of the child vector is the row's own list. */
  lemma {:induction false} SliceIsRow(add: Adder, rows: seq<Row>, n: nat, inclusive: bool, k: nat)
    requires StrictlyMonotone(add) && k < n <= |rows| && Joined(add, rows, n, inclusive).Ok?
    ensures Joined(add, rows, k, inclusive).Ok? && ListRange(add, rows[k], inclusive).Ok?
    ensures var offset := |Joined(add, rows, k, inclusive).value|;
            var list := ListRange(add, rows[k], inclusive).value;
            var child := Joined(add, rows, n, inclusive).value;
            offset + |list| <= |child| && child[offset..offset + |list|] == list
  {
    hide ListRange;
    if k < n - 1 {
      SliceIsRow(add, rows, n - 1, inclusive, k);
    }
  }
}
