/**
 Does adding the difference of two timestamps lead from one to the other?  Not always, and this file
 says exactly when.
 */
module IcuIntervalLaws {
  import opened Options
  import opened IcuIntervals

  /** The first timestamp that can be split into a day and a time: the start of its day. */
  const FIRST_TIMESTAMP: int := -9_223_372_022_400_000_000

  function Min(a: int, b: int): int { if a <= b then a else b }
  function Max(a: int, b: int): int { if a <= b then b else a }

  lemma ConvertsFromFirstDay(ts: int)
    requires IsInt64(ts)
    ensures Converts(ts) <==> FIRST_TIMESTAMP <= ts < INT64_MAX
  {
    var day := DayOf(ts);
    assert day * MICROS_PER_DAY <= ts < (day + 1) * MICROS_PER_DAY by { DayContains(ts); }
    assert FIRST_TIMESTAMP == -106_751_991 * MICROS_PER_DAY;
    if ts < FIRST_TIMESTAMP {
      assert day <= -106_751_992;
    } else {
      assert day >= -106_751_991;
    }
  }

  lemma DayContains(ts: int)
    ensures DayOf(ts) * MICROS_PER_DAY <= ts < (DayOf(ts) + 1) * MICROS_PER_DAY
  {
  }

  /** The length of an interval without months, in microseconds. */
  function Total(interval: Interval): int {
    interval.days * MICROS_PER_DAY + interval.micros
  }

  /** The later timestamp lies in the first millisecond of 1970, after its start, and the earlier one is
      further into its own millisecond: the borrowed millisecond is then lost when the end, now negative,
      is cut toward zero. */
  predicate BorrowIsLost(a: int, b: int) {
    0 < Max(a, b) < 1000 && Min(a, b) % 1000 > Max(a, b)
  }

  /** The difference conserves the microseconds between two timestamps, before and after 1970, except that
      it is one millisecond too long when the borrow is lost. */
  lemma DifferenceIsConserved(start: int, end: int)
    requires start <= end
    ensures Difference(start, end).0 * 1000 + Difference(start, end).1
         == end - start + if BorrowIsLost(start, end) then 1000 else 0
  {
    var borrow := if Borrows(start, end) then MICROS_PER_MSEC else 0;
    var cut := Quot(end - borrow, MICROS_PER_MSEC);
    assert cut * 1000 + Rem(end - borrow, MICROS_PER_MSEC) == end - borrow;
    assert start == start / 1000 * 1000 + start % 1000;
    if 0 <= end < 1000 {
      assert Rem(end, MICROS_PER_MSEC) == end;
      assert 0 <= start ==> start % 1000 == start;
    } else if Borrows(start, end) {
      RemAfterBorrow(end);
    }
  }

  lemma RemAfterBorrow(end: int)
    requires !(0 <= end < 1000) && Rem(end, MICROS_PER_MSEC) >= 0
    ensures Rem(end - MICROS_PER_MSEC, MICROS_PER_MSEC) == Rem(end, MICROS_PER_MSEC)
  {
    if end >= 1000 {
      assert (end - 1000) % 1000 == end % 1000;
    } else {
      assert Rem(end, MICROS_PER_MSEC) == 0;
      assert (-(end - 1000)) % 1000 == (-end) % 1000;
    }
  }

  /** The interval between two timestamps has no months, and this length. */
  lemma BetweenIsConserved(start: int, end: int)
    ensures Between(end, start).months == 0
    ensures var lost := if BorrowIsLost(start, end) then 1000 else 0;
            Total(Between(end, start)) == end - start + (if start <= end then lost else -lost)
  {
    hide Difference, BorrowIsLost, Quot;
    if start <= end {
      DifferenceIsConserved(start, end);
    } else {
      DifferenceIsConserved(end, start);
      LostEitherWay(start, end);
    }
  }

  lemma LostEitherWay(a: int, b: int)
    ensures BorrowIsLost(a, b) == BorrowIsLost(b, a)
  {
  }

  // ---------------------------------------------------------------- adding without months

  /** Adding an interval without months conserves the microseconds. */
  lemma AdvancedIsSum(ts: int, interval: Interval, later: (int, int) -> int)
    requires interval.months == 0 && IsMonthArithmetic(later)
    ensures var (millis, micros) := SplitForAdd(ts, interval.micros);
            Advanced(millis, interval, later) * 1000 + micros == ts + Total(interval)
  {
    hide SplitForAdd;
    var (millis, micros) := SplitForAdd(ts, interval.micros);
    var fixed := Quot(interval.micros, MICROS_PER_MSEC);
    assert later(millis, 0) == millis && later(millis + fixed, 0) == millis + fixed;
    assert fixed * 1000 + Rem(interval.micros, MICROS_PER_MSEC) == interval.micros;
  }

  // ---------------------------------------------------------------- the first millisecond

  /** From the very first timestamp to one less than a millisecond before a midnight up to 1970: the
      interval is whole days less some microseconds, and taking these off first leaves the first day. */
  predicate LeavesFirstDay(start: int, end: int) {
    start == FIRST_TIMESTAMP && end < 0 && end % MICROS_PER_DAY > MICROS_PER_DAY - 1000
  }

  /** Where the addition stops over: at the millisecond of the start, moved by the microseconds below one
      millisecond. */
  function StopOver(start: int, end: int): int {
    SplitForAdd(start, Between(end, start).micros).0 * 1000
  }

  lemma SplitBounds(ts: int, micros: int)
    ensures var millis := SplitForAdd(ts, micros).0;
            && millis >= Quot(ts, MICROS_PER_MSEC) - 1
            && (micros >= 0 ==> millis == (ts + Rem(micros, MICROS_PER_MSEC)) / 1000)
            && (ts % 1000 == 0 && ts < 0 && -1000 < micros < 0 ==> millis == ts / 1000 - 1)
  {
  }

  /** The microseconds come out negative only for an end before 1970 that is cut toward zero. */
  lemma MicrosBelowZero(start: int, end: int)
    requires start <= end && Difference(start, end).1 < 0
    ensures end < 0 && !Borrows(start, end)
    ensures Difference(start, end) == (Quot(end, MICROS_PER_MSEC) - start / 1000, Rem(end, MICROS_PER_MSEC) - start % 1000)
  {
  }

  lemma ForwardParts(start: int, end: int)
    requires start <= end
    ensures Forward(start, end).days >= 0
    ensures Forward(start, end).micros < 0 ==> end < 0
  {
    hide Difference;
    DifferenceFits(start, end);
    if Difference(start, end).1 < 0 {
      MicrosBelowZero(start, end);
    }
  }

  /** The stop-over on the way forward is past the first day but for one family of ends. */
  lemma ForwardStopOver(start: int, end: int)
    requires FIRST_TIMESTAMP <= start <= end < INT64_MAX
    ensures StopOver(start, end) >= FIRST_TIMESTAMP <==> !LeavesFirstDay(start, end)
    ensures StopOver(start, end) < INT64_MAX
  {
    hide SplitForAdd, Quot;
    var m := Forward(start, end).micros;
    SplitBounds(start, m);
    ForwardParts(start, end);
    BetweenIsConserved(start, end);
    if start == FIRST_TIMESTAMP {
      FromFirstTimestamp(end);
    } else {
      QuotAboveFirst(start);
    }
    RemBounds(m);
  }

  lemma RemBounds(m: int)
    ensures m >= 0 ==> 0 <= Rem(m, MICROS_PER_MSEC) <= m
    ensures m <= 0 ==> m <= Rem(m, MICROS_PER_MSEC) <= 0
  {
  }

  lemma QuotAboveFirst(ts: int)
    requires ts > FIRST_TIMESTAMP
    ensures Quot(ts, MICROS_PER_MSEC) >= FIRST_TIMESTAMP / 1000 + 1
  {
  }

  lemma FromFirstTimestamp(end: int)
    requires FIRST_TIMESTAMP <= end
    ensures var m := Forward(FIRST_TIMESTAMP, end).micros;
            (m < 0 <==> LeavesFirstDay(FIRST_TIMESTAMP, end)) && m > -1000
  {
    hide Difference, Quot, Rem;
    var day := end / MICROS_PER_DAY;
    var inDay := end % MICROS_PER_DAY;
    FirstDifference(end);
    FirstDayMillis(end, day, inDay);
    WholeDays(day + 106_751_991, inDay / 1000 + if end < 0 && inDay % 1000 != 0 then 1 else 0);
  }

  lemma WholeDays(days: int, millis: int)
    requires days >= 0 && 0 <= millis <= Length(Date)
    ensures Quot(days * Length(Date) + millis, Length(Date)) == days + if millis == Length(Date) then 1 else 0
  {
  }

  /** From the first timestamp nothing is borrowed. */
  lemma FirstDifference(end: int)
    requires FIRST_TIMESTAMP <= end
    ensures Difference(FIRST_TIMESTAMP, end)
         == (Quot(end, MICROS_PER_MSEC) + 106_751_991 * Length(Date), Rem(end, MICROS_PER_MSEC))
  {
  }

  /** The milliseconds after the last midnight, when the end is cut toward zero. */
  lemma FirstDayMillis(end: int, day: int, inDay: int)
    requires end == day * MICROS_PER_DAY + inDay && 0 <= inDay < MICROS_PER_DAY
    ensures Quot(end, MICROS_PER_MSEC)
         == day * Length(Date) + inDay / 1000 + if end < 0 && inDay % 1000 != 0 then 1 else 0
    ensures Rem(end, MICROS_PER_MSEC) == inDay % 1000 - if end < 0 && inDay % 1000 != 0 then 1000 else 0
  {
  }

  /** The stop-over on the way back never leaves the first day. */
  lemma BackwardStopOver(start: int, end: int)
    requires FIRST_TIMESTAMP <= end < start < INT64_MAX
    ensures FIRST_TIMESTAMP <= StopOver(start, end) < INT64_MAX
  {
    hide SplitForAdd, Quot, Forward;
    var m := -Forward(end, start).micros;
    SplitBounds(start, m);
    ForwardParts(end, start);
    QuotAboveFirst(start);
    RemBounds(m);
  }

  /** Both ways together: the addition can make its stop-over unless it leaves the first day. */
  lemma StopOverConverts(start: int, end: int)
    requires FIRST_TIMESTAMP <= start < INT64_MAX && FIRST_TIMESTAMP <= end < INT64_MAX
    ensures IsInt64(StopOver(start, end)) && Converts(StopOver(start, end)) <==> !LeavesFirstDay(start, end)
  {
    hide StopOver, Converts;
    if start <= end {
      ForwardStopOver(start, end);
    } else {
      BackwardStopOver(start, end);
    }
    StopOverAboveMinimum(start, end);
    ConvertsFromFirstDay(StopOver(start, end));
  }

  // ---------------------------------------------------------------- before the first day

  /** From the last millisecond before the first timestamp an addition can be made after all: when the
      microseconds of the interval carry it into the first day. */
  predicate ReachesFirstDay(start: int, end: int) {
    && FIRST_TIMESTAMP - 1000 < start < FIRST_TIMESTAMP && end % 1000 < start % 1000
    && (end < 0 && end % 1000 != 0 ==> end % MICROS_PER_DAY < MICROS_PER_DAY - 2000)
  }

  /** Both timestamps taken together: the addition can make its stop-over. */
  predicate CanStopOver(start: int, end: int) {
    if start >= FIRST_TIMESTAMP then !LeavesFirstDay(start, end) else ReachesFirstDay(start, end)
  }

  lemma SplitBelowFirst(start: int, micros: int)
    requires start < FIRST_TIMESTAMP
    ensures SplitForAdd(start, micros).0 >= FIRST_TIMESTAMP / 1000
       <==> start > FIRST_TIMESTAMP - 1000 && Rem(micros, MICROS_PER_MSEC) >= FIRST_TIMESTAMP - start
    ensures SplitForAdd(start, micros).0 <= FIRST_TIMESTAMP / 1000
  {
  }

  /** The whole milliseconds of an interval and what it has above or below them. */
  lemma RemOfParts(millis: int, micros: int)
    requires millis >= 0 && -2000 < micros < 1000
    ensures micros >= 0 ==> Rem(millis * 1000 + micros, MICROS_PER_MSEC) == micros
    ensures micros < 0 && millis >= 2 ==> Rem(millis * 1000 + micros, MICROS_PER_MSEC) == (micros + 2000) % 1000
    ensures micros < 0 && millis == 1 ==> Rem(millis * 1000 + micros, MICROS_PER_MSEC) == micros + 1000
    ensures micros < 0 && millis == 0 ==> Rem(millis * 1000 + micros, MICROS_PER_MSEC) <= 0
  {
  }

  /** The interval's microseconds, from the last millisecond before the first timestamp. */
  lemma MicrosBelowFirst(start: int, end: int)
    requires FIRST_TIMESTAMP - 1000 < start < FIRST_TIMESTAMP <= end
    ensures Rem(Forward(start, end).micros, MICROS_PER_MSEC) >= FIRST_TIMESTAMP - start <==> ReachesFirstDay(start, end)
  {
    hide Quot, Rem, Difference;
    var (millis, micros) := Difference(start, end);
    var rest := millis - Quot(millis, Length(Date)) * Length(Date);
    DifferenceBelowFirst(start, end);
    RestOfDay(millis);
    RemOfParts(rest, micros);
    if micros < 0 {
      LateInTheDay(end, millis);
    }
  }

  lemma RestOfDay(millis: int)
    requires millis >= 0
    ensures millis - Quot(millis, Length(Date)) * Length(Date) == millis % Length(Date)
  {
  }

  lemma DifferenceBelowFirst(start: int, end: int)
    requires FIRST_TIMESTAMP - 1000 < start < FIRST_TIMESTAMP <= end
    ensures var (millis, micros) := Difference(start, end);
            var early := FIRST_TIMESTAMP - start;
            && start % 1000 == 1000 - early && millis >= 0
            && (end >= 0 || end % 1000 == 0 ==>
                  micros == end % 1000 + early - if end % 1000 < start % 1000 then 0 else 1000)
            && (end < 0 && end % 1000 != 0 ==>
                  && micros == end % 1000 + early - 2000
                  && millis == end / 1000 + 2 - FIRST_TIMESTAMP / 1000)
  {
  }

  /** The last two milliseconds of a day. */
  lemma LateInTheDay(end: int, millis: int)
    requires millis == end / 1000 + 2 - FIRST_TIMESTAMP / 1000
    ensures millis % Length(Date) >= 2 <==> end % MICROS_PER_DAY < MICROS_PER_DAY - 2000
  {
    var day, inDay := end / MICROS_PER_DAY, end % MICROS_PER_DAY;
    assert end / 1000 == day * Length(Date) + inDay / 1000;
    assert FIRST_TIMESTAMP / 1000 == -106_751_991 * Length(Date);
    DaysDropOut(day + 106_751_991, inDay / 1000 + 2);
  }

  lemma DaysDropOut(days: int, millis: int)
    requires 0 <= millis < 2 * Length(Date)
    ensures (days * Length(Date) + millis) % Length(Date) == if millis < Length(Date) then millis else millis - Length(Date)
  {
  }

  /** The stop-over from before the first timestamp. */
  lemma EarlyStopOver(start: int, end: int)
    requires start < FIRST_TIMESTAMP <= end
    ensures StopOver(start, end) >= FIRST_TIMESTAMP <==> ReachesFirstDay(start, end)
    ensures StopOver(start, end) <= FIRST_TIMESTAMP
  {
    hide SplitForAdd, Forward, Rem;
    SplitBelowFirst(start, Forward(start, end).micros);
    if start > FIRST_TIMESTAMP - 1000 {
      MicrosBelowFirst(start, end);
    }
  }

  /** The addition can make its stop-over exactly under a condition on the two timestamps. */
  lemma StopOverConvertsExactly(start: int, end: int)
    requires IsInt64(start) && IsFinite(start) && FIRST_TIMESTAMP <= end < INT64_MAX
    ensures IsInt64(StopOver(start, end)) && Converts(StopOver(start, end)) <==> CanStopOver(start, end)
  {
    hide StopOver, Converts, LeavesFirstDay, ReachesFirstDay;
    if start >= FIRST_TIMESTAMP {
      StopOverConverts(start, end);
    } else {
      EarlyStopOver(start, end);
      if IsInt64(StopOver(start, end)) {
        ConvertsFromFirstDay(StopOver(start, end));
      }
    }
  }

  lemma StopOverAboveMinimum(start: int, end: int)
    requires FIRST_TIMESTAMP <= start < INT64_MAX
    ensures StopOver(start, end) > INT64_MIN
  {
    hide Between;
    var m := Between(end, start).micros;
    SplitBounds(start, m);
  }

  /** The calendar's last time, put together with the microseconds, is in range when the sum is. */
  lemma SumFits(start: int, end: int, later: (int, int) -> int)
    requires FIRST_TIMESTAMP <= end < INT64_MAX && IsMonthArithmetic(later) && !BorrowIsLost(start, end)
    ensures var (millis, micros) := SplitForAdd(start, Between(end, start).micros);
            TimeOf(Advanced(millis, Between(end, start), later), micros) == Some(end)
  {
    hide SplitForAdd, Between, Advanced, Converts, BorrowIsLost;
    BetweenIsConserved(start, end);
    AdvancedIsSum(start, Between(end, start), later);
    NegativeMicrosEndEarly(start, end);
    ConvertsFromFirstDay(end);
  }

  lemma NegativeMicrosEndEarly(start: int, end: int)
    ensures start < 0 && Between(end, start).micros < 0 ==> end < 0
  {
    hide Forward;
    if start <= end {
      ForwardParts(start, end);
    }
  }

  /** Adding the difference of two finite timestamps to the first gives the second if and only if the second
      can be split into a day and a time, the borrowed millisecond is not lost, and the addition can make its
      stop-over. */
  lemma AddUndoesSub(start: int, end: int, later: (int, int) -> int)
    requires IsInt64(start) && IsInt64(end) && IsFinite(start) && IsFinite(end) && IsMonthArithmetic(later)
    ensures Added(start, Between(end, start), later) == Some(end)
       <==> Converts(end) && !BorrowIsLost(start, end) && CanStopOver(start, end)
  {
    hide SplitForAdd, Between, Advanced, BorrowIsLost, CanStopOver, Converts;
    ConvertsFromFirstDay(end);
    if Converts(end) {
      StopOverConvertsExactly(start, end);
      BetweenIsConserved(start, end);
      if BorrowIsLost(start, end) {
        AdvancedIsSum(start, Between(end, start), later);
      } else {
        SumFits(start, end, later);
      }
    }
  }

  /** For example, from one microsecond before 1970 to five after it. */
  lemma LostBorrowExample(later: (int, int) -> int)
    requires IsMonthArithmetic(later)
    ensures Between(5, -1) == Interval(0, 0, 1006) && Added(-1, Between(5, -1), later) == Some(1005)
  {
    hide Converts;
    assert Difference(-1, 5) == (1, 6);
    assert SplitForAdd(-1, 1006) == (0, 5);
    assert later(0, 0) == 0;
    ConvertsFromFirstDay(0);
    ConvertsFromFirstDay(1005);
  }

  // ---------------------------------------------------------------- the order of the fields

  /** Behind the decimal point of the milliseconds: what is cut off toward zero. */
  function BelowMillis(micros: int): int {
    if micros >= 0 then micros % 1000 else -(-micros % 1000)
  }

  /** The timestamp so many months later; the microseconds below its millisecond are put aside and added again. */
  function MonthsLater(ts: int, months: int, later: (int, int) -> int): int {
    later(ts / 1000, months) * 1000 + ts % 1000
  }

  /** What is below the milliseconds of a timestamp before 1970 and of a negative interval makes more than one. */
  predicate CutsTwice(ts: int, micros: int) {
    BelowMillis(ts) + BelowMillis(micros) < -1000
  }

  /** The timestamp that adding an interval leads to.  Months always come before days.  With any negative part the
      microseconds come before both; otherwise what they have above a millisecond comes last. */
  function Target(ts: int, interval: Interval, later: (int, int) -> int): int {
    var backwards := interval.months < 0 || interval.days < 0 || interval.micros < 0;
    var below := BelowMillis(interval.micros);
    var moved := ts + if backwards then interval.micros else below;
    (if CutsTwice(ts, interval.micros) then MonthsLater(moved + 1000, interval.months, later) - 1000
     else MonthsLater(moved, interval.months, later))
    + interval.days * 86_400_000_000
    + if backwards then 0 else interval.micros - below
  }

  /** Where the addition stops over: at the millisecond of the start, moved by what the interval has below one. */
  function StopOverOf(ts: int, micros: int): int {
    (ts + BelowMillis(micros)) / 1000 * 1000 + if CutsTwice(ts, micros) then 1000 else 0
  }

  /** What adding an interval gives: an infinite timestamp itself, and otherwise the target, if neither the target
      nor the stop-over lies before the first day or in infinity, and the target's millisecond fits in 64 bits. */
  lemma AddedExactly(ts: int, interval: Interval, later: (int, int) -> int, r: int)
    requires IsInt64(ts)
    ensures Added(ts, interval, later) == Some(r) <==>
              if ts == 0x7FFF_FFFF_FFFF_FFFF || ts == -0x7FFF_FFFF_FFFF_FFFF then r == ts
              else
                var twice := CutsTwice(ts, interval.micros);
                && FIRST_TIMESTAMP <= StopOverOf(ts, interval.micros) < 0x7FFF_FFFF_FFFF_FFFF
                && r == Target(ts, interval, later) && FIRST_TIMESTAMP <= r < 0x7FFF_FFFF_FFFF_FFFF
                && r - (ts + interval.micros) % 1000 + (if twice then 1000 else 0) <= 0x7FFF_FFFF_FFFF_FFFF
  {
    if IsFinite(ts) {
      var (millis, micros) := SplitForAdd(ts, interval.micros);
      SplitExactly(ts, interval.micros);
      AdvancedExactly(ts, interval, later);
      assert millis * 1000 == StopOverOf(ts, interval.micros);
      hide SplitForAdd, Advanced, Target, StopOverOf, CutsTwice, BelowMillis, DayOf;
      StopOverFits(millis * 1000);
      TimeExactly(Advanced(millis, interval, later), micros);
    }
  }

  lemma StopOverFits(us: int)
    ensures IsInt64(us) && Converts(us) <==> FIRST_TIMESTAMP <= us < INT64_MAX
  {
    if IsInt64(us) {
      ConvertsFromFirstDay(us);
    }
  }

  lemma TimeExactly(millis: int, micros: int)
    requires -1000 < micros < 1000
    ensures var ts := millis * 1000 + micros;
            TimeOf(millis, micros)
            == if FIRST_TIMESTAMP <= ts < INT64_MAX && ts - micros <= INT64_MAX then Some(ts) else None
  {
    hide Converts;
    StopOverFits(millis * 1000 + micros);
  }

  lemma SplitExactly(ts: int, micros: int)
    ensures var (millis, rest) := SplitForAdd(ts, micros);
            && millis * 1000 == StopOverOf(ts, micros)
            && rest == (ts + micros) % 1000 - if CutsTwice(ts, micros) then 1000 else 0
  {
    assert Rem(micros, MICROS_PER_MSEC) == BelowMillis(micros) && Rem(ts, MICROS_PER_MSEC) == BelowMillis(ts);
    assert (ts + micros) % 1000 == (ts + BelowMillis(micros)) % 1000 by { WholeMillisDropOut(ts, micros); }
    var (millis, rest) := SplitForAdd(ts, micros);
    assert millis * 1000 + rest == ts + BelowMillis(micros);
  }

  lemma WholeMillisDropOut(ts: int, micros: int)
    ensures (ts + micros) % 1000 == (ts + BelowMillis(micros)) % 1000
    ensures micros == Quot(micros, MICROS_PER_MSEC) * 1000 + BelowMillis(micros)
  {
    var q := Quot(micros, MICROS_PER_MSEC);
    assert micros == q * 1000 + BelowMillis(micros);
    assert ts + micros == ts + BelowMillis(micros) + q * 1000;
  }

  lemma AdvancedExactly(ts: int, interval: Interval, later: (int, int) -> int)
    ensures var (millis, rest) := SplitForAdd(ts, interval.micros);
            Advanced(millis, interval, later) * 1000 + rest == Target(ts, interval, later)
  {
    var (millis, rest) := SplitForAdd(ts, interval.micros);
    var fixed, below := Quot(interval.micros, MICROS_PER_MSEC), BelowMillis(interval.micros);
    SplitExactly(ts, interval.micros);
    WholeMillisDropOut(ts, interval.micros);
    hide SplitForAdd, BelowMillis, Quot;
    assert Advanced(millis, interval, later) * 1000 + rest == Target(ts, interval, later);
  }

  // ---------------------------------------------------------------- whole days

  /** Days too many: before 1970 the end is cut to the next millisecond, which may lie behind the last whole day. */
  predicate CountsOneDayMore(start: int, end: int) {
    && end < 0 && end % 1000 != 0
    && var rest := (end - start) % 86_400_000_000;
       rest >= 86_399_999_000 || (rest > 86_399_998_000 && end % 1000 < start % 1000)
  }

  /** The interval from one timestamp to a later one is the whole days between them and the microseconds that are
      left, and one day more less what is missing to it exactly for such an end. */
  lemma WholeDaysExactly(start: int, end: int)
    requires start <= end
    ensures var gap := end - start + if BorrowIsLost(start, end) then 1000 else 0;
            var more := if CountsOneDayMore(start, end) then 1 else 0;
            Between(end, start) == Interval(0, gap / 86_400_000_000 + more, gap % 86_400_000_000 - more * 86_400_000_000)
    ensures start < end ==> Between(start, end) == Between(end, start).Negated()
  {
    DifferenceIsConserved(start, end);
    var (millis, micros) := Difference(start, end);
    MicrosInRange(start, end);
    hide Difference, BorrowIsLost;
    var days := Quot(millis, Length(Date));
    var rest := millis - days * Length(Date);
    var gap := end - start + if BorrowIsLost(start, end) then 1000 else 0;
    assert gap == days * 86_400_000_000 + (rest * 1000 + micros);
    if rest * 1000 + micros >= 0 {
      DivisionIs(gap, days, rest * 1000 + micros);
    } else {
      DivisionIs(gap, days - 1, rest * 1000 + micros + 86_400_000_000);
    }
  }

  lemma DivisionIs(n: int, q: int, r: int)
    requires n == q * 86_400_000_000 + r && 0 <= r < 86_400_000_000
    ensures n / 86_400_000_000 == q && n % 86_400_000_000 == r
  {
  }

  /** What is left below the milliseconds. */
  lemma MicrosInRange(start: int, end: int)
    requires start <= end
    ensures var (millis, micros) := Difference(start, end);
            && millis >= 0 && (BorrowIsLost(start, end) ==> end >= 0)
            && if end < 0 && end % 1000 != 0 then micros == end % 1000 - start % 1000 - 1000 else 0 <= micros < 1000
  {
  }
}
