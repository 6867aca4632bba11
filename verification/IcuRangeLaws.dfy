/**
 What the range producers promise, with the signs, bounds and limits written out: which values a range has and
 which rows are refused.
 */
module IcuRangeLaws {
  import opened Options
  import opened IcuIntervals
  import opened IcuRanges

  /** Some fields are positive and none is negative. */
  predicate GoesUp(i: Interval) {
    i.months >= 0 && i.days >= 0 && i.micros >= 0 && (i.months > 0 || i.days > 0 || i.micros > 0)
  }

  predicate GoesDown(i: Interval) {
    i.months <= 0 && i.days <= 0 && i.micros <= 0 && (i.months < 0 || i.days < 0 || i.micros < 0)
  }

  predicate IsInfinite(ts: int) { ts == 0x7FFF_FFFF_FFFF_FFFF || ts == -0x7FFF_FFFF_FFFF_FFFF }

  /** The value belongs to a range that ends at `end`. */
  predicate IsInside(v: int, end: int, i: Interval, inclusive: bool) {
    if GoesUp(i) then if inclusive then v <= end else v < end
    else if inclusive then v >= end else v > end
  }

  /** The first values of a range: the start, and one sum after the other. */
  ghost predicate IsFront(add: Adder, start: int, end: int, i: Interval, inclusive: bool, s: seq<int>) {
    && s != [] && s[0] == start
    && (forall k :: 0 <= k < |s| ==> IsInside(s[k], end, i, inclusive))
    && (forall k :: 0 <= k < |s| - 1 ==> add(s[k], i) == Some(s[k + 1]))
  }

  /** All values of a range: the next one would not belong to it. */
  ghost predicate IsWhole(add: Adder, start: int, end: int, i: Interval, inclusive: bool, s: seq<int>) {
    if s == [] then !IsInside(start, end, i, inclusive)
    else
      && IsFront(add, start, end, i, inclusive, s)
      && add(s[|s| - 1], i).Some? && !IsInside(add(s[|s| - 1], i).value, end, i, inclusive)
  }

  /** The values of a range whose last sum fails. */
  ghost predicate IsStuck(add: Adder, start: int, end: int, i: Interval, inclusive: bool, s: seq<int>) {
    IsFront(add, start, end, i, inclusive, s) && add(s[|s| - 1], i) == None
  }

  lemma SignsAgree(i: Interval)
    ensures HasOneSign(i) <==> GoesUp(i) || GoesDown(i)
    ensures HasOneSign(i) ==> (HasPositive(i) <==> GoesUp(i))
    ensures !HasPositive(i) && !HasNegative(i) <==> i == Interval(0, 0, 0)
  {
  }

  lemma InsideIsNotFinished(v: int, end: int, i: Interval, inclusive: bool)
    requires HasOneSign(i)
    ensures Finished(v, end, HasPositive(i), inclusive) <==> !IsInside(v, end, i, inclusive)
  {
    SignsAgree(i);
  }

  /** The first values of a range are exactly the sequences that its values begin with. */
  lemma {:induction false} FrontExactly(add: Adder, t: int, end: int, i: Interval, inclusive: bool, s: seq<int>)
    requires StrictlyMonotone(add) && HasOneSign(i)
    ensures IsFront(add, t, end, i, inclusive, s) <==> s != [] && s <= Series(add, t, end, i, inclusive).values
    decreases |s|
  {
    hide IsInside, HasPositive, HasOneSign, Finished, StrictlyMonotone;
    var p := Series(add, t, end, i, inclusive);
    InsideIsNotFinished(t, end, i, inclusive);
    if |s| > 1 && add(t, i).Some? && IsInside(t, end, i, inclusive) {
      var next := add(t, i).value;
      FrontExactly(add, next, end, i, inclusive, s[1..]);
      FrontStep(add, t, next, end, i, inclusive, s);
      assert s == [s[0]] + s[1..];
      assert s <= p.values <==> s[0] == t && s[1..] <= p.values[1..];
    } else if |s| > 1 {
      assert |p.values| <= 1;
      SecondValue(add, t, end, i, inclusive, s);
    } else if |s| == 1 {
      assert s == [s[0]];
      assert IsInside(t, end, i, inclusive) ==> p.values[0] == t;
    }
  }

  lemma SecondValue(add: Adder, t: int, end: int, i: Interval, inclusive: bool, s: seq<int>)
    requires |s| > 1
    ensures IsFront(add, t, end, i, inclusive, s) ==> add(t, i).Some? && IsInside(t, end, i, inclusive)
  {
    hide IsInside;
    assert IsFront(add, t, end, i, inclusive, s) ==> IsInside(s[0], end, i, inclusive) && add(s[0], i) == Some(s[0 + 1]);
  }

  lemma FrontStep(add: Adder, t: int, next: int, end: int, i: Interval, inclusive: bool, s: seq<int>)
    requires |s| > 1 && add(t, i) == Some(next) && IsInside(t, end, i, inclusive)
    ensures IsFront(add, t, end, i, inclusive, s) <==> s[0] == t && IsFront(add, next, end, i, inclusive, s[1..])
  {
    hide IsInside;
    var rest := s[1..];
    if s[0] == t && IsFront(add, next, end, i, inclusive, rest) {
      forall k | 0 <= k < |s| - 1
        ensures add(s[k], i) == Some(s[k + 1])
      {
        if k > 0 {
          assert add(rest[k - 1], i) == Some(rest[k]);
        }
      }
      assert forall k :: 0 < k < |s| ==> s[k] == rest[k - 1];
    }
    if IsFront(add, t, end, i, inclusive, s) {
      assert add(s[0], i) == Some(s[1]);
    }
  }

  /** A range has exactly these values: it ends when the next one would not belong to it, or fails at the first sum
      that cannot be computed. */
  lemma SeriesExactly(add: Adder, t: int, end: int, i: Interval, inclusive: bool, s: seq<int>)
    requires StrictlyMonotone(add) && HasOneSign(i)
    ensures Series(add, t, end, i, inclusive) == Produced(s, false) <==> IsWhole(add, t, end, i, inclusive, s)
    ensures Series(add, t, end, i, inclusive) == Produced(s, true) <==> IsStuck(add, t, end, i, inclusive, s)
  {
    hide IsInside, HasPositive, HasOneSign, Finished, StrictlyMonotone, Series, IsFront;
    var p := Series(add, t, end, i, inclusive);
    SeriesIsRange(add, t, end, i, inclusive);
    FrontExactly(add, t, end, i, inclusive, p.values);
    FrontExactly(add, t, end, i, inclusive, s);
    EndOfRange(add, t, end, i, inclusive, p);
    if s != [] && s <= p.values && s != p.values {
      NextInside(add, t, end, i, inclusive, s, p);
    } else if s == [] && p.values != [] {
      FirstInside(add, t, end, i, inclusive, p);
    }
  }

  lemma EndOfRange(add: Adder, t: int, end: int, i: Interval, inclusive: bool, p: Produced)
    requires HasOneSign(i) && IsRange(add, t, end, i, inclusive, p)
    ensures var s := p.values;
            if p.failed then s != [] && add(s[|s| - 1], i) == None
            else if s == [] then !IsInside(t, end, i, inclusive)
            else add(s[|s| - 1], i).Some? && !IsInside(add(s[|s| - 1], i).value, end, i, inclusive)
  {
    hide IsInside, HasPositive, HasOneSign, Finished;
    var s := p.values;
    var next := if s == [] then Some(t) else add(s[|s| - 1], i);
    if next.Some? {
      InsideIsNotFinished(next.value, end, i, inclusive);
    }
  }

  lemma FirstInside(add: Adder, t: int, end: int, i: Interval, inclusive: bool, p: Produced)
    requires HasOneSign(i) && IsRange(add, t, end, i, inclusive, p) && p.values != []
    ensures IsInside(t, end, i, inclusive)
  {
    hide IsInside, HasPositive, HasOneSign, Finished;
    assert !Finished(p.values[0], end, HasPositive(i), inclusive);
    InsideIsNotFinished(t, end, i, inclusive);
  }

  lemma NextInside(add: Adder, t: int, end: int, i: Interval, inclusive: bool, s: seq<int>, p: Produced)
    requires HasOneSign(i) && IsRange(add, t, end, i, inclusive, p) && s != [] && s < p.values
    ensures add(s[|s| - 1], i).Some? && IsInside(add(s[|s| - 1], i).value, end, i, inclusive)
  {
    hide IsInside, HasPositive, HasOneSign, Finished;
    var n := |s|;
    assert s[n - 1] == p.values[n - 1];
    assert add(p.values[n - 1], i) == Some(p.values[n]);
    assert !Finished(p.values[n], end, HasPositive(i), inclusive);
    InsideIsNotFinished(p.values[n], end, i, inclusive);
  }

  // ---------------------------------------------------------------- rows

  /** The list of a row. */
  ghost predicate IsListOf(add: Adder, row: Row, inclusive: bool, s: seq<int>) {
    if row.NullRow? || row.increment == Interval(0, 0, 0) then s == []
    else
      && !IsInfinite(row.start) && !IsInfinite(row.end) && (GoesUp(row.increment) || GoesDown(row.increment))
      && |s| <= 0xFFFF_FFFF && IsWhole(add, row.start, row.end, row.increment, inclusive, s)
  }

  /** The row has no list, but this error. */
  ghost predicate IsRefused(add: Adder, row: Row, inclusive: bool, error: RangeError) {
    && row.Row? && row.increment != Interval(0, 0, 0)
    && if IsInfinite(row.start) || IsInfinite(row.end) then error == InfiniteBound
       else if !GoesUp(row.increment) && !GoesDown(row.increment) then error == MixedSigns
       else
         exists s: seq<int> ::
           && IsFront(add, row.start, row.end, row.increment, inclusive, s)
           && if add(s[|s| - 1], row.increment) == None then |s| <= 0x1_0000_0000 && error == AddOverflow
              else |s| == 0x1_0000_0000 && error == TooLong
  }

  /** A range with too many values to count, or with a sum that cannot be computed before. */
  lemma UncountedExactly(add: Adder, t: int, end: int, i: Interval, inclusive: bool, s: seq<int>)
    requires StrictlyMonotone(add) && HasOneSign(i) && IsFront(add, t, end, i, inclusive, s)
    ensures add(s[|s| - 1], i) == None ==> Series(add, t, end, i, inclusive) == Produced(s, true)
    ensures add(s[|s| - 1], i).Some? ==>
              var p := Series(add, t, end, i, inclusive); |s| <= |p.values| && (p.failed ==> |s| < |p.values|)
  {
    hide IsInside, HasPositive, HasOneSign, Finished, StrictlyMonotone, Series, IsFront;
    FrontExactly(add, t, end, i, inclusive, s);
    SeriesExactly(add, t, end, i, inclusive, s);
    var p := Series(add, t, end, i, inclusive);
    SeriesExactly(add, t, end, i, inclusive, p.values);
  }

  /** A front of a given length, where there is one. */
  lemma FrontOfLength(add: Adder, t: int, end: int, i: Interval, inclusive: bool, n: nat) returns (s: seq<int>)
    requires StrictlyMonotone(add) && HasOneSign(i)
    requires var p := Series(add, t, end, i, inclusive); 0 < n <= |p.values| && (n == |p.values| ==> !p.failed)
    ensures |s| == n && IsFront(add, t, end, i, inclusive, s) && add(s[n - 1], i).Some?
  {
    hide IsInside, HasPositive, HasOneSign, Finished, StrictlyMonotone, Series, IsFront;
    s := Series(add, t, end, i, inclusive).values[..n];
    FrontExactly(add, t, end, i, inclusive, s);
    SeriesExactly(add, t, end, i, inclusive, s);
    UncountedExactly(add, t, end, i, inclusive, s);
  }

  // ---------------------------------------------------------------- tables

  /** The range of a row starts beyond its end. */
  predicate StartsBeyondEnd(row: Row) {
    row.Row? && if GoesUp(row.increment) then row.start > row.end else row.start < row.end
  }

  /** Row `k` is silenced: by the flag, or by a row up to this one whose range starts beyond its end. */
  ghost predicate IsSilenced(rows: seq<Row>, k: nat, silent: bool)
    requires k < |rows|
  {
    silent || exists j :: 0 <= j <= k && StartsBeyondEnd(rows[j])
  }

  /** The values that row `k` adds to a table. */
  ghost predicate IsPartOf(add: Adder, rows: seq<Row>, k: nat, silent: bool, inclusive: bool, part: seq<int>)
    requires k < |rows|
  {
    var row := rows[k];
    if row.NullRow? then part == []
    else
      && !IsInfinite(row.start) && !IsInfinite(row.end) && (GoesUp(row.increment) || GoesDown(row.increment))
      && if IsSilenced(rows, k, silent) then part == []
         else IsWhole(add, row.start, row.end, row.increment, inclusive, part)
  }

  /** Row `k` breaks a table off, after these values of its own. */
  ghost predicate BreaksOff(add: Adder, rows: seq<Row>, k: nat, silent: bool, inclusive: bool, front: seq<int>, error: RangeError)
    requires k < |rows|
  {
    var row := rows[k];
    && row.Row?
    && if IsInfinite(row.start) || IsInfinite(row.end) then front == [] && error == InfiniteBound
       else if row.increment == Interval(0, 0, 0) then front == [] && error == ZeroInterval
       else if !GoesUp(row.increment) && !GoesDown(row.increment) then front == [] && error == MixedSigns
       else
         !IsSilenced(rows, k, silent) && error == AddOverflow
         && IsStuck(add, row.start, row.end, row.increment, inclusive, front)
  }

  /** What the first rows add, each for itself. */
  ghost predicate AreParts(add: Adder, rows: seq<Row>, silent: bool, inclusive: bool, parts: seq<seq<int>>) {
    |parts| <= |rows| && forall k :: 0 <= k < |parts| ==> IsPartOf(add, rows, k, silent, inclusive, parts[k])
  }
}
