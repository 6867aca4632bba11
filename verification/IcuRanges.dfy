/**
 Ranges of timestamps: what a range is, and the conditions under which it is produced.  `add` stands for
 the calendar: it moves a timestamp by an interval or fails, and the calendar itself is not looked into.
 */
module IcuRanges {
  import opened Options
  import opened IcuIntervals

  type Adder = (int, Interval) -> Option<int>

  const UINT32_MAX: nat := 0xFFFF_FFFF

  datatype RangeError = InfiniteBound | ZeroInterval | MixedSigns | AddOverflow | TooLong

  datatype Result<+T> = Ok(value: T) | Fail(error: RangeError)

  predicate HasPositive(i: Interval) { i.months > 0 || i.days > 0 || i.micros > 0 }
  predicate HasNegative(i: Interval) { i.months < 0 || i.days < 0 || i.micros < 0 }

  /** Adding an interval of one sign moves a timestamp that way. */
  ghost predicate StrictlyMonotone(add: Adder) {
    forall t, i :: add(t, i).Some? ==>
      && (HasPositive(i) && !HasNegative(i) ==> t < add(t, i).value)
      && (HasNegative(i) && !HasPositive(i) ==> add(t, i).value < t)
  }

  /** A row of arguments; a NULL among them makes the whole row NULL. */
  datatype Row = NullRow | Row(start: int, end: int, increment: Interval)

  /** A value lies behind the bound. */
  predicate Finished(t: int, end: int, up: bool, inclusive: bool) {
    if up then if inclusive then t > end else t >= end
    else if inclusive then t < end else t <= end
  }

  predicate HasOneSign(i: Interval) { HasPositive(i) != HasNegative(i) }

  function Distance(t: int, end: int, up: bool): (d: nat) {
    if up then if t > end then 0 else end - t + 1
    else if t < end then 0 else t - end + 1
  }

  /** What a producer gives: values, and perhaps an error after them. */
  datatype Produced = Produced(values: seq<int>, failed: bool)

  /** The range: its first value, then one `add` after the other while the value lies inside the bound.
      It fails when a value after one inside the bound cannot be computed. */
  ghost function Series(add: Adder, t: int, end: int, i: Interval, inclusive: bool): Produced
    requires StrictlyMonotone(add) && HasOneSign(i)
    decreases Distance(t, end, HasPositive(i))
  {
    if Finished(t, end, HasPositive(i), inclusive) then Produced([], false)
    else
      match add(t, i)
      case None => Produced([t], true)
      case Some(next) => var rest := Series(add, next, end, i, inclusive); Produced([t] + rest.values, rest.failed)
  }

  /** The values are the start and its repeated sums, all inside the bound; unless the range fails, the
      value after the last is not. */
  ghost predicate IsRange(add: Adder, t: int, end: int, i: Interval, inclusive: bool, p: Produced) {
    var s := p.values;
    && (s != [] ==> s[0] == t)
    && (forall k :: 0 <= k < |s| ==> !Finished(s[k], end, HasPositive(i), inclusive))
    && (forall k :: 0 <= k < |s| - 1 ==> add(s[k], i) == Some(s[k + 1]))
    && (p.failed ==> s != [] && add(s[|s| - 1], i) == None)
    && (!p.failed ==>
          var next := if s == [] then Some(t) else add(s[|s| - 1], i);
          next.Some? && Finished(next.value, end, HasPositive(i), inclusive))
  }

  lemma {:induction false} SeriesIsRange(add: Adder, t: int, end: int, i: Interval, inclusive: bool)
    requires StrictlyMonotone(add) && HasOneSign(i)
    ensures IsRange(add, t, end, i, inclusive, Series(add, t, end, i, inclusive))
    decreases Distance(t, end, HasPositive(i))
  {
    hide Finished, HasPositive;
    if !Finished(t, end, HasPositive(i), inclusive) && add(t, i).Some? {
      var next := add(t, i).value;
      SeriesStep(add, t, end, i, inclusive);
      SeriesIsRange(add, next, end, i, inclusive);
      var s, rest := Series(add, t, end, i, inclusive).values, Series(add, next, end, i, inclusive).values;
      assert forall k :: 0 < k < |s| ==> s[k] == rest[k - 1];
      forall k | 0 <= k < |s| - 1
        ensures add(s[k], i) == Some(s[k + 1])
      {
        if k > 0 {
          assert add(rest[k - 1], i) == Some(rest[k]);
        }
      }
    }
  }

  lemma SeriesStep(add: Adder, t: int, end: int, i: Interval, inclusive: bool)
    requires StrictlyMonotone(add) && HasOneSign(i)
    requires !Finished(t, end, HasPositive(i), inclusive) && add(t, i).Some?
    ensures Distance(add(t, i).value, end, HasPositive(i)) < Distance(t, end, HasPositive(i))
  {
  }

  /** A range that starts beyond its end. */
  predicate IsEmptyRange(row: Row) {
    row.Row? && if HasPositive(row.increment) then row.start > row.end else row.start < row.end
  }

  /** A row that both producers accept: finite bounds and an interval of one sign. */
  predicate IsClean(row: Row) {
    row.Row? && IsFinite(row.start) && IsFinite(row.end) && HasOneSign(row.increment)
  }

  // ---------------------------------------------------------------- the calendar as an adder

  /** Adding with the interval arithmetic; no producer adds to an infinite timestamp. */
  function AdderOf(later: (int, int) -> int): Adder {
    (t, i) => if IsFinite(t) then Added(t, i, later) else None
  }

  /** Adding months moves a time forward, subtracting them moves it back. */
  ghost predicate MonthsMove(later: (int, int) -> int) {
    forall ms, n :: (n > 0 ==> later(ms, n) > ms) && (n < 0 ==> later(ms, n) < ms)
  }

  lemma AddedMoves(t: int, i: Interval, later: (int, int) -> int)
    requires IsMonthArithmetic(later) && MonthsMove(later) && HasOneSign(i) && IsFinite(t)
    requires Added(t, i, later).Some?
    ensures if HasPositive(i) then t < Added(t, i, later).value else Added(t, i, later).value < t
    ensures IsFinite(Added(t, i, later).value)
  {
    hide SplitForAdd, Quot, Rem;
    var (millis, micros) := SplitForAdd(t, i.micros);
    assert TimeOf(Advanced(millis, i, later), micros).Some?;
    assert Quot(i.micros, MICROS_PER_MSEC) * 1000 + Rem(i.micros, MICROS_PER_MSEC) == i.micros;
  }

  /** The interval arithmetic is an adder that the producers below can be given. */
  lemma CalendarIsMonotone(later: (int, int) -> int)
    requires IsMonthArithmetic(later) && MonthsMove(later)
    ensures StrictlyMonotone(AdderOf(later))
  {
    var add := AdderOf(later);
    forall t, i | add(t, i).Some? && HasOneSign(i)
      ensures if HasPositive(i) then t < add(t, i).value else add(t, i).value < t
    {
      AddedMoves(t, i, later);
    }
  }

  /** Every value of a range is finite, so the adder above was only asked about finite timestamps. */
  lemma {:induction false} RangesStayFinite(later: (int, int) -> int, t: int, end: int, i: Interval, inclusive: bool)
    requires StrictlyMonotone(AdderOf(later)) && IsMonthArithmetic(later) && MonthsMove(later)
    requires HasOneSign(i) && IsFinite(t)
    ensures forall v :: v in Series(AdderOf(later), t, end, i, inclusive).values ==> IsFinite(v)
    decreases Distance(t, end, HasPositive(i))
  {
    var add := AdderOf(later);
    if !Finished(t, end, HasPositive(i), inclusive) && add(t, i).Some? {
      AddedMoves(t, i, later);
      SeriesStep(add, t, end, i, inclusive);
      RangesStayFinite(later, add(t, i).value, end, i, inclusive);
    }
  }
}
