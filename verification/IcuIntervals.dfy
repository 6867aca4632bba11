/**
 Timestamp and interval arithmetic over a calendar with a fixed offset: 64-bit microseconds are split
 into calendar fields, added field by field, and put together again.  The calendar counts milliseconds;
 only its months are of no fixed length.
 */
module IcuIntervals {
  import opened Options

  const INT64_MAX: int := 0x7FFF_FFFF_FFFF_FFFF
  const INT64_MIN: int := -0x8000_0000_0000_0000
  const INT32_MAX: int := 0x7FFF_FFFF
  const INT32_MIN: int := -0x8000_0000
  const TWO_TO_32: int := 0x1_0000_0000
  const TWO_TO_64: int := 0x1_0000_0000_0000_0000

  const MICROS_PER_MSEC: int := 1000
  const MICROS_PER_SEC: int := 1_000_000
  const MSECS_PER_SEC: int := 1000
  const SECS_PER_MINUTE: int := 60
  const MINS_PER_HOUR: int := 60
  const MICROS_PER_DAY: int := 86_400_000_000

  // ---------------------------------------------------------------- integers

  /** Division and remainder that truncate toward zero. */
  function Quot(a: int, b: int): (q: int)
    requires b > 0
    ensures a >= 0 ==> q == a / b
    ensures a < 0 ==> q == -(-a / b)
  {
    if a >= 0 then a / b else -(-a / b)
  }

  function Rem(a: int, b: int): (r: int)
    requires b > 0
    ensures a == Quot(a, b) * b + r
    ensures a >= 0 ==> 0 <= r < b
    ensures a < 0 ==> -b < r <= 0
  {
    if a >= 0 then a % b else -(-a % b)
  }

  function ToUint64(a: int): int { a % TWO_TO_64 }

  /** A 64-bit value cut down to a signed 32-bit one. */
  function ToInt32(a: int): int {
    var low := a % TWO_TO_32;
    if low > INT32_MAX then low - TWO_TO_32 else low
  }

  predicate IsInt64(a: int) { INT64_MIN <= a <= INT64_MAX }
  predicate IsInt32(a: int) { INT32_MIN <= a <= INT32_MAX }

  // ---------------------------------------------------------------- timestamps and intervals

  datatype Interval = Interval(months: int, days: int, micros: int)
  {
    function Negated(): Interval { Interval(-months, -days, -micros) }
  }

  predicate IsFinite(ts: int) { ts != INT64_MAX && ts != -INT64_MAX }

  /** The day a timestamp falls on, before and after 1970. */
  function DayOf(ts: int): int {
    var negative := if ts < 0 then 1 else 0;
    Quot(ts + negative, MICROS_PER_DAY) - negative
  }

  /** A timestamp can be split into a day and a time when it is finite and its day's start fits in 64 bits. */
  predicate Converts(ts: int) {
    IsFinite(ts) && IsInt64(DayOf(ts) * MICROS_PER_DAY)
  }

  // ---------------------------------------------------------------- the calendar

  datatype Field = Month | Date | Hour | Minute | Second | Millisecond

  /** The length of a field in milliseconds. */
  function Length(field: Field): (n: int)
    requires !field.Month?
    ensures n > 0
  {
    match field
    case Date => 86_400_000
    case Hour => 3_600_000
    case Minute => 60_000
    case Second => 1000
    case Millisecond => 1
  }

  /** Adding months is left to the calendar; adding none changes nothing. */
  ghost predicate IsMonthArithmetic(later: (int, int) -> int) {
    forall ms :: later(ms, 0) == ms
  }

  class Calendar {
    const monthsLater: (int, int) -> int
    var millis: int

    constructor (later: (int, int) -> int)
      ensures monthsLater == later
    {
      monthsLater := later;
      millis := 0;
    }

    method SetTime(ms: int)
      modifies this
      ensures millis == ms
    {
      millis := ms;
    }

    method Add(field: Field, amount: int)
      requires IsInt32(amount)
      modifies this
      ensures millis == if field.Month? then monthsLater(old(millis), amount) else old(millis) + amount * Length(field)
    {
      millis := if field.Month? then monthsLater(millis, amount) else millis + amount * Length(field);
    }

    /** How many whole fields lie between the calendar's time and `when`; the calendar moves on by them. */
    method FieldDifference(when: int, field: Field) returns (n: int)
      requires !field.Month?
      modifies this
      ensures n == Quot(when - old(millis), Length(field))
      ensures millis == old(millis) + n * Length(field)
      ensures old(millis) <= when ==> 0 <= when - millis < Length(field)
    {
      n := Quot(when - millis, Length(field));
      millis := millis + n * Length(field);
    }
  }

  // ---------------------------------------------------------------- the calendar and timestamps

  /** Sets the calendar to the millisecond a timestamp falls in and gives back the microseconds after it. */
  method SetTime(calendar: Calendar, ts: int) returns (micros: int)
    modifies calendar
    ensures calendar.millis == ts / 1000 && micros == ts % 1000
  {
    var millis := Quot(ts, MICROS_PER_MSEC);
    micros := Rem(ts, MICROS_PER_MSEC);
    if micros < 0 {
      millis := millis - 1;
      micros := micros + MICROS_PER_MSEC;
    }
    calendar.SetTime(millis);
  }

  /** The timestamp of a calendar time and some microseconds, unless it overflows. */
  function TimeOf(millis: int, micros: int): (ts: Option<int>)
    ensures ts.Some? ==> ts.value == millis * 1000 + micros
  {
    if IsInt64(millis * 1000) && IsInt64(millis * 1000 + micros) && Converts(millis * 1000 + micros)
    then Some(millis * 1000 + micros) else None
  }

  method GetTime(calendar: Calendar, micros: int) returns (ts: Option<int>)
    ensures ts == TimeOf(calendar.millis, micros)
  {
    var value := calendar.millis * MICROS_PER_MSEC;
    if !IsInt64(value) {
      return None;
    }
    value := value + micros;
    if !IsInt64(value) {
      return None;
    }
    if !Converts(value) {
      return None;
    }
    ts := Some(value);
  }

  /** The whole fields between the calendar's time and the millisecond of `end`, which is cut toward zero. */
  method SubtractField(calendar: Calendar, field: Field, end: int) returns (n: int)
    requires !field.Month?
    modifies calendar
    ensures n == Quot(Quot(end, MICROS_PER_MSEC) - old(calendar.millis), Length(field))
    ensures calendar.millis == old(calendar.millis) + n * Length(field)
    ensures old(calendar.millis) <= Quot(end, MICROS_PER_MSEC) ==>
              0 <= Quot(end, MICROS_PER_MSEC) - calendar.millis < Length(field)
  {
    n := calendar.FieldDifference(Quot(end, MICROS_PER_MSEC), field);
  }

  // ---------------------------------------------------------------- adding

  /** Adds any number of hours in steps that fit in 32 bits. */
  method CalendarAddHour(calendar: Calendar, hours: int)
    modifies calendar
    ensures calendar.millis == old(calendar.millis) + hours * Length(Hour)
  {
    var left := hours;
    if left >= 0 {
      while left > 0
        invariant calendar.millis + (if left > 0 then left else 0) * Length(Hour) == old(calendar.millis) + hours * Length(Hour)
      {
        calendar.Add(Hour, if left > INT32_MAX then INT32_MAX else left);
        left := left - INT32_MAX;
      }
    } else {
      while left < 0
        invariant calendar.millis + (if left < 0 then left else 0) * Length(Hour) == old(calendar.millis) + hours * Length(Hour)
      {
        calendar.Add(Hour, if left < INT32_MIN then INT32_MIN else left);
        left := left - INT32_MIN;
      }
    }
  }

  /** The millisecond to set the calendar to, and the microseconds left over, before an interval with
      `micros` microseconds is added. */
  function SplitForAdd(ts: int, micros: int): (r: (int, int))
    ensures r.0 * 1000 + r.1 == ts + Rem(micros, MICROS_PER_MSEC)
    ensures -1000 < r.1 < 1000 && (r.1 < 0 ==> ts < 0 && micros < 0)
  {
    var millis, rest := Quot(ts, MICROS_PER_MSEC), Rem(ts, MICROS_PER_MSEC) + Rem(micros, MICROS_PER_MSEC);
    if rest >= MICROS_PER_MSEC then (millis + 1, rest - MICROS_PER_MSEC)
    else if rest < 0 then (millis - 1, rest + MICROS_PER_MSEC)
    else (millis, rest)
  }

  /** The calendar time `interval` after `millis`: with any negative part the fixed-length fields come
      first, otherwise the months and days do. */
  function Advanced(millis: int, interval: Interval, later: (int, int) -> int): int {
    var fixed := Quot(interval.micros, MICROS_PER_MSEC);
    if interval.months < 0 || interval.days < 0 || interval.micros < 0
    then later(millis + fixed, interval.months) + interval.days * Length(Date)
    else later(millis, interval.months) + interval.days * Length(Date) + fixed
  }

  /** What adding an interval gives; None is an overflow error. */
  function Added(ts: int, interval: Interval, later: (int, int) -> int): Option<int> {
    if !IsFinite(ts) then Some(ts)
    else
      var (millis, micros) := SplitForAdd(ts, interval.micros);
      if IsInt64(millis * 1000) && Converts(millis * 1000) then TimeOf(Advanced(millis, interval, later), micros) else None
  }

  method CalendarAdd(ts: int, interval: Interval, calendar: Calendar) returns (r: Option<int>)
    requires IsInt32(interval.months) && IsInt32(interval.days)
    modifies calendar
    ensures r == Added(ts, interval, calendar.monthsLater)
  {
    if !IsFinite(ts) {
      return Some(ts);
    }
    var millis := Quot(ts, MICROS_PER_MSEC);
    var micros := Rem(ts, MICROS_PER_MSEC);
    micros := micros + Rem(interval.micros, MICROS_PER_MSEC);
    if micros >= MICROS_PER_MSEC {
      micros := micros - MICROS_PER_MSEC;
      millis := millis + 1;
    } else if micros < 0 {
      micros := micros + MICROS_PER_MSEC;
      millis := millis - 1;
    }
    var us := millis * MICROS_PER_MSEC;
    if !IsInt64(us) || !Converts(us) {
      return None;
    }
    calendar.SetTime(millis);
    AddFields(calendar, interval);
    r := GetTime(calendar, micros);
  }

  /** The number of milliseconds, split into fields. */
  function FieldsOf(ms: int): (f: (int, int, int, int))
    ensures f.0 * Length(Millisecond) + f.1 * Length(Second) + f.2 * Length(Minute) + f.3 * Length(Hour) == ms
    ensures IsInt32(f.0) && IsInt32(f.1) && IsInt32(f.2)
  {
    var seconds := Quot(ms, MSECS_PER_SEC);
    var minutes := Quot(seconds, SECS_PER_MINUTE);
    (Rem(ms, MSECS_PER_SEC), Rem(seconds, SECS_PER_MINUTE), Rem(minutes, MINS_PER_HOUR), Quot(minutes, MINS_PER_HOUR))
  }

  /** Adds the fields of an interval but for its last microseconds. */
  method AddFields(calendar: Calendar, interval: Interval)
    requires IsInt32(interval.months) && IsInt32(interval.days)
    modifies calendar
    ensures calendar.millis == Advanced(old(calendar.millis), interval, calendar.monthsLater)
  {
    var h := Quot(interval.micros, MICROS_PER_MSEC);
    ghost var fields := FieldsOf(h);
    var ms := Rem(h, MSECS_PER_SEC);
    h := Quot(h, MSECS_PER_SEC);
    var s := Rem(h, SECS_PER_MINUTE);
    h := Quot(h, SECS_PER_MINUTE);
    var m := Rem(h, MINS_PER_HOUR);
    h := Quot(h, MINS_PER_HOUR);
    assert (ms, s, m, h) == fields;
    if interval.months < 0 || interval.days < 0 || interval.micros < 0 {
      AddTimeUp(calendar, ms, s, m, h);
      calendar.Add(Month, interval.months);
      calendar.Add(Date, interval.days);
    } else {
      calendar.Add(Month, interval.months);
      calendar.Add(Date, interval.days);
      AddTimeDown(calendar, ms, s, m, h);
    }
  }

  /** From the lowest field to the highest. */
  method AddTimeUp(calendar: Calendar, ms: int, s: int, m: int, h: int)
    requires IsInt32(ms) && IsInt32(s) && IsInt32(m)
    modifies calendar
    ensures calendar.millis
         == old(calendar.millis) + ms * Length(Millisecond) + s * Length(Second) + m * Length(Minute) + h * Length(Hour)
  {
    calendar.Add(Millisecond, ms);
    calendar.Add(Second, s);
    calendar.Add(Minute, m);
    CalendarAddHour(calendar, h);
  }

  /** From the highest field to the lowest. */
  method AddTimeDown(calendar: Calendar, ms: int, s: int, m: int, h: int)
    requires IsInt32(ms) && IsInt32(s) && IsInt32(m)
    modifies calendar
    ensures calendar.millis
         == old(calendar.millis) + ms * Length(Millisecond) + s * Length(Second) + m * Length(Minute) + h * Length(Hour)
  {
    CalendarAddHour(calendar, h);
    calendar.Add(Minute, m);
    calendar.Add(Second, s);
    calendar.Add(Millisecond, ms);
  }

  /** Subtracting an interval adds its negation. */
  method CalendarSubInterval(ts: int, interval: Interval, calendar: Calendar) returns (r: Option<int>)
    requires IsInt32(-interval.months) && IsInt32(-interval.days)
    modifies calendar
    ensures r == Added(ts, interval.Negated(), calendar.monthsLater)
  {
    r := CalendarAdd(ts, interval.Negated(), calendar);
  }

  // ---------------------------------------------------------------- subtracting

  /** When the end's microseconds are cut toward zero and come out smaller than the start's, a millisecond
      is borrowed.  Compared as unsigned numbers, negative microseconds are never smaller. */
  predicate Borrows(start: int, end: int) {
    Rem(end, MICROS_PER_MSEC) >= 0 && start % 1000 > Rem(end, MICROS_PER_MSEC)
  }

  /** The milliseconds and the microseconds between two timestamps, as they are computed. */
  function Difference(start: int, end: int): (r: (int, int)) {
    var borrow := if Borrows(start, end) then MICROS_PER_MSEC else 0;
    (Quot(end - borrow, MICROS_PER_MSEC) - start / 1000, Rem(end, MICROS_PER_MSEC) + borrow - start % 1000)
  }

  /** The interval from `start` to `end`: whole days, and the rest in microseconds. */
  function Forward(start: int, end: int): Interval
    requires start <= end
  {
    var (millis, micros) := Difference(start, end);
    var days := Quot(millis, Length(Date));
    Interval(0, days, (millis - days * Length(Date)) * 1000 + micros)
  }

  function Between(end: int, start: int): Interval {
    if start > end then Forward(end, start).Negated() else Forward(start, end)
  }

  lemma ForwardFits(start: int, end: int)
    requires IsInt64(start) && IsInt64(end) && start <= end
    ensures 0 <= Forward(start, end).days <= 213_503_983
    ensures -2000 < Forward(start, end).micros < MICROS_PER_DAY
  {
  }

  /** The days between two timestamps fit in 32 bits, either way round, and the rest is less than a day: the
      interval can be added. */
  lemma BetweenFits(start: int, end: int)
    requires IsInt64(start) && IsInt64(end)
    ensures IsInt32(Between(end, start).days) && IsInt32(-Between(end, start).days)
    ensures -MICROS_PER_DAY < Between(end, start).micros < MICROS_PER_DAY
  {
    hide Forward;
    if start > end {
      ForwardFits(end, start);
    } else {
      ForwardFits(start, end);
    }
  }

  /** The difference of two timestamps, which has no more days than 32 bits hold; None is the error for infinite
      ones. */
  method CalendarSub(end: int, start: int, calendar: Calendar) returns (r: Option<Interval>)
    requires IsInt64(start) && IsInt64(end)
    modifies calendar
    ensures r == if IsFinite(end) && IsFinite(start) then Some(Between(end, start)) else None
    ensures r.Some? ==> IsInt32(r.value.days)
    decreases if start > end then 1 else 0
  {
    if !IsFinite(end) || !IsFinite(start) {
      return None;
    }
    BetweenFits(start, end);
    if start > end {
      var negated := CalendarSub(start, end, calendar);
      return Some(negated.value.Negated());
    }
    var interval := SubOrdered(end, start, calendar);
    r := Some(interval);
  }

  method SubOrdered(end: int, start: int, calendar: Calendar) returns (interval: Interval)
    requires start <= end
    modifies calendar
    ensures interval == Forward(start, end)
  {
    hide Quot, Rem, ToUint64, Borrows;
    BorrowIsUnsigned(start, end);
    DifferenceFits(start, end);
    var startMicros := SetTime(calendar, start);
    var endMicros := ToUint64(Rem(end, MICROS_PER_MSEC));
    var endDate := end;
    if startMicros > endMicros {
      endDate := endDate - MICROS_PER_MSEC;
      endMicros := ToUint64(endMicros + MICROS_PER_MSEC);
    }
    MicrosDiffer(start, end);
    interval := SubtractFields(calendar, endDate, startMicros, endMicros, Difference(start, end).1);
  }

  lemma MicrosDiffer(start: int, end: int)
    ensures !Borrows(start, end) ==>
              ToUint64(ToUint64(Rem(end, MICROS_PER_MSEC)) - start % 1000) == ToUint64(Difference(start, end).1)
  {
    Unsigned(Rem(end, MICROS_PER_MSEC));
    OneTurn(Rem(end, MICROS_PER_MSEC) - start % 1000);
  }

  /** The unsigned comparison finds out when to borrow, and the unsigned microseconds stand for the signed ones. */
  lemma BorrowIsUnsigned(start: int, end: int)
    ensures start % 1000 > ToUint64(Rem(end, MICROS_PER_MSEC)) <==> Borrows(start, end)
    ensures Borrows(start, end) ==>
              ToUint64(ToUint64(Rem(end, MICROS_PER_MSEC)) + MICROS_PER_MSEC) == Rem(end, MICROS_PER_MSEC) + MICROS_PER_MSEC
  {
    Unsigned(Rem(end, MICROS_PER_MSEC));
    Unsigned(Rem(end, MICROS_PER_MSEC) + MICROS_PER_MSEC);
  }

  lemma Unsigned(a: int)
    requires -10_000_000 < a < 10_000_000
    ensures ToUint64(a) == if a < 0 then a + TWO_TO_64 else a
  {
  }

  lemma DifferenceFits(start: int, end: int)
    requires start <= end
    ensures 0 <= Difference(start, end).0 && -2000 < Difference(start, end).1 < 2000
  {
  }

  /** Adding in unsigned 64-bit arithmetic and cutting down to 32 bits gives the signed sum. */
  lemma WrapsBack(n: int, d: int, e: int)
    requires 0 <= n < 1_000_000 && -2000 < d < 2000 && ToUint64(e) == ToUint64(d)
    ensures ToInt32(ToUint64(n + ToUint64(e))) == n + d
  {
    Unsigned(d);
    assert n + ToUint64(e) == n + d || n + ToUint64(e) == n + d + TWO_TO_64;
    Unsigned(n + d);
    OneTurn(n + d);
    if n + d < 0 {
      assert (n + d + TWO_TO_64) % TWO_TO_32 == n + d + TWO_TO_32;
    }
  }

  lemma OneTurn(a: int)
    ensures ToUint64(a + TWO_TO_64) == ToUint64(a)
  {
  }

  /** The same amount of time, in milliseconds and in microseconds. */
  lemma TimeFields(millis: int, hours: int, minutes: int, seconds: int, rest: int)
    requires millis == hours * Length(Hour) + minutes * Length(Minute) + seconds * Length(Second) + rest
    ensures ((hours * MINS_PER_HOUR + minutes) * SECS_PER_MINUTE + seconds) * MICROS_PER_SEC + rest * 1000 == millis * 1000
  {
  }

  /** Takes the fields one after the other and adds the microseconds in unsigned arithmetic. */
  method SubtractFields(calendar: Calendar, end: int, startMicros: int, endMicros: int, ghost difference: int)
    returns (r: Interval)
    requires calendar.millis <= Quot(end, MICROS_PER_MSEC)
    requires ToUint64(endMicros - startMicros) == ToUint64(difference) && -2000 < difference < 2000
    modifies calendar
    ensures var millis := Quot(end, MICROS_PER_MSEC) - old(calendar.millis);
            var days := Quot(millis, Length(Date));
            r == Interval(0, days, (millis - days * Length(Date)) * 1000 + difference)
  {
    hide Quot, ToUint64, ToInt32;
    var days := SubtractField(calendar, Date, end);
    ghost var millis := Quot(end, MICROS_PER_MSEC) - calendar.millis;
    var hourDiff := SubtractField(calendar, Hour, end);
    var minDiff := SubtractField(calendar, Minute, end);
    var secDiff := SubtractField(calendar, Second, end);
    var msDiff := SubtractField(calendar, Millisecond, end);
    TimeFields(millis, hourDiff, minDiff, secDiff, msDiff);
    WrapsBack(msDiff * MICROS_PER_MSEC, difference, endMicros - startMicros);
    var microsDiff := ToInt32(ToUint64(msDiff * MICROS_PER_MSEC + ToUint64(endMicros - startMicros)));
    var micros := ((hourDiff * MINS_PER_HOUR + minDiff) * SECS_PER_MINUTE + secDiff) * MICROS_PER_SEC + microsDiff;
    r := Interval(0, days, micros);
  }
}
