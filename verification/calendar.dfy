/** Dates, clock times and date-times as the source's `datetime` values use
    them.  A date is a day number whose day 0 is a Monday, so Python's
    `date.weekday()` is the day number modulo 7; a time has no seconds,
    because the feed's times are `HH:MM` with `:00` appended. */
module Calendar {

  type Date = int

  /** `date.weekday()`: 0 is Monday, 6 is Sunday. */
  type Weekday = w: int | 0 <= w < 7

  const MONDAY: Weekday := 0
  const TUESDAY: Weekday := 1
  const WEDNESDAY: Weekday := 2

  const MINUTES_PER_DAY: nat := 1440

  function WeekdayOf(d: Date): Weekday
  {
    d % 7
  }

  datatype Time = Time(hour: nat, minute: nat)

  /** A `datetime.time` with zero seconds. */
  type ClockTime = t: Time | t.hour < 24 && t.minute < 60 witness Time(0, 0)

  function MinuteOfDay(t: ClockTime): (n: nat)
    ensures n < MINUTES_PER_DAY
  {
    t.hour * 60 + t.minute
  }

  /** Python's `<` on `time` values: hour first, then minute. */
  predicate ClockBefore(a: ClockTime, b: ClockTime)
  {
    a.hour < b.hour || (a.hour == b.hour && a.minute < b.minute)
  }

  /** Comparing clock times is comparing their minute of the day. */
  lemma ClockBeforeIsMinuteOrder(a: ClockTime, b: ClockTime)
    ensures ClockBefore(a, b) <==> MinuteOfDay(a) < MinuteOfDay(b)
  {
    if a.hour < b.hour {
      assert MinuteOfDay(a) < (a.hour + 1) * 60 <= MinuteOfDay(b);
    } else if a.hour > b.hour {
      assert MinuteOfDay(b) < (b.hour + 1) * 60 <= MinuteOfDay(a);
    }
  }

  lemma MinuteOfDayInjective(a: ClockTime, b: ClockTime)
    requires MinuteOfDay(a) == MinuteOfDay(b)
    ensures a == b
  {
    ClockBeforeIsMinuteOrder(a, b);
    ClockBeforeIsMinuteOrder(b, a);
  }

  datatype DateTime = DateTime(date: Date, time: ClockTime)

  /** Minutes elapsed since midnight of day 0. */
  function AbsoluteMinutes(x: DateTime): int
  {
    x.date * MINUTES_PER_DAY + MinuteOfDay(x.time)
  }

  /** The date-time a given number of minutes after midnight of day 0. */
  function FromAbsoluteMinutes(n: int): (x: DateTime)
    ensures AbsoluteMinutes(x) == n
  {
    var m := n % MINUTES_PER_DAY;
    DateTime(n / MINUTES_PER_DAY, Time(m / 60, m % 60))
  }

  lemma AbsoluteMinutesRoundTrip(x: DateTime)
    ensures FromAbsoluteMinutes(AbsoluteMinutes(x)) == x
  {
    var n := AbsoluteMinutes(x);
    var y := FromAbsoluteMinutes(n);
    assert n / MINUTES_PER_DAY == x.date;
    assert n % MINUTES_PER_DAY == MinuteOfDay(x.time);
    MinuteOfDayInjective(y.time, x.time);
  }

  /** `x + timedelta(minutes=k)`. */
  function AddMinutes(x: DateTime, k: int): (y: DateTime)
    ensures AbsoluteMinutes(y) == AbsoluteMinutes(x) + k
    ensures k == 0 ==> y == x
  {
    if k == 0 then AbsoluteMinutesRoundTrip(x); FromAbsoluteMinutes(AbsoluteMinutes(x))
    else FromAbsoluteMinutes(AbsoluteMinutes(x) + k)
  }

  /** Python's `<` on `datetime` values: date first, then time of day. */
  predicate DateTimeBefore(a: DateTime, b: DateTime)
  {
    a.date < b.date || (a.date == b.date && ClockBefore(a.time, b.time))
  }

  /** Comparing date-times is comparing their absolute minute counts. */
  lemma DateTimeBeforeIsAbsoluteOrder(a: DateTime, b: DateTime)
    ensures DateTimeBefore(a, b) <==> AbsoluteMinutes(a) < AbsoluteMinutes(b)
  {
    ClockBeforeIsMinuteOrder(a.time, b.time);
    if a.date < b.date {
      assert AbsoluteMinutes(a) < (a.date + 1) * MINUTES_PER_DAY <= AbsoluteMinutes(b);
    } else if a.date > b.date {
      assert AbsoluteMinutes(b) < (b.date + 1) * MINUTES_PER_DAY <= AbsoluteMinutes(a);
    }
  }

  /** Two dates less than a week apart fall on different weekdays. */
  lemma WeekdayInjectiveWithinWeek(a: Date, b: Date)
    requires -7 < a - b < 7
    requires WeekdayOf(a) == WeekdayOf(b)
    ensures a == b
  {
    assert a == (a / 7) * 7 + WeekdayOf(a);
    assert b == (b / 7) * 7 + WeekdayOf(b);
    assert a - b == (a / 7 - b / 7) * 7;
  }

  /** Every pair of dates is less than seven days apart. */
  predicate WithinAWeek(ds: seq<Date>)
  {
    forall i, j :: 0 <= i < |ds| && 0 <= j < |ds| ==> ds[i] - ds[j] < 7
  }
}
