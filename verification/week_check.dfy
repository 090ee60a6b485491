/** `check_schedules_within_week`: the showtimes handed to the engine must
    fit one exhibition week, which runs from Wednesday to the following
    Tuesday.  The same check appears in `helpers/schedules.py`,
    `allocine/__init__.py` and `allocine/showtimes.py`. */
module WeekCheck {
  import opened Calendar
  import opened Results
  import opened Seqs

  /** The source's `ValueError`s; `EmptySchedule` is the one `min()` raises
      on an empty list. */
  datatype WeekError = EmptySchedule | LongerThanAWeek | OutsideWednesdayToTuesday

  function ErrorMessage(e: WeekError): string
  {
    match e
    case EmptySchedule => "min() arg is an empty sequence"
    case LongerThanAWeek => "Schedule list contains more days than the typical movie week"
    case OutsideWednesdayToTuesday => "Schedule list should not start before wednesday or end after tuesday"
  }

  /** `check_schedules_within_week` applied to the showtimes' dates. */
  function CheckWithinWeek(dates: seq<Date>): (r: Result<bool, WeekError>)
    ensures r.Success? ==> r.value
    ensures r == Failure(EmptySchedule) <==> |dates| == 0
    ensures r.Success? ==> WithinAWeek(dates)
    ensures r == Failure(LongerThanAWeek) <==> 0 < |dates| && !WithinAWeek(dates)
    ensures 0 < |dates| && (forall i :: 0 <= i < |dates| ==> dates[i] == dates[0]) ==> r == Success(true)
    ensures r == Failure(OutsideWednesdayToTuesday) <==>
      0 < |dates| && WithinAWeek(dates) && Min(dates) < Max(dates) &&
      (WeekdayOf(Min(dates)) == TUESDAY ||
       (WeekdayOf(Min(dates)) == MONDAY && WeekdayOf(Max(dates)) >= WEDNESDAY))
  {
    if |dates| == 0 then Failure(EmptySchedule)
    else
      var lo := Min(dates);
      var hi := Max(dates);
      SpanWithinAWeek(dates);
      if hi - lo >= 7 then Failure(LongerThanAWeek)
      else if hi - lo > 0 && ((WeekdayOf(lo) == MONDAY && WeekdayOf(hi) >= WEDNESDAY) || WeekdayOf(lo) == TUESDAY) then
        Failure(OutsideWednesdayToTuesday)
      else
        Success(true)
  }

  /** `WithinAWeek` is the span test `max - min < 7`. */
  lemma SpanWithinAWeek(dates: seq<Date>)
    requires 0 < |dates|
    ensures WithinAWeek(dates) <==> Max(dates) - Min(dates) < 7
  {
    var lo := Min(dates);
    var hi := Max(dates);
    if Max(dates) - Min(dates) < 7 {
      forall i, j | 0 <= i < |dates| && 0 <= j < |dates|
        ensures dates[i] - dates[j] < 7
      {
        assert dates[i] in dates && dates[j] in dates;
      }
    } else {
      var i :| 0 <= i < |dates| && dates[i] == hi;
      var j :| 0 <= j < |dates| && dates[j] == lo;
      assert dates[i] - dates[j] >= 7;
    }
  }

  /** The dates lie in one Wednesday-to-Tuesday week. */
  ghost predicate InWednesdayToTuesdayWeek(dates: seq<Date>)
  {
    exists wed: Date :: WeekdayOf(wed) == WEDNESDAY && forall d :: d in dates ==> wed <= d <= wed + 6
  }

  /** Every date list inside one exhibition week is accepted. */
  lemma ExhibitionWeekAccepted(dates: seq<Date>)
    requires 0 < |dates| && InWednesdayToTuesdayWeek(dates)
    ensures CheckWithinWeek(dates) == Success(true)
  {
    var wed: Date :| WeekdayOf(wed) == WEDNESDAY && forall d :: d in dates ==> wed <= d <= wed + 6;
    var lo := Min(dates);
    var hi := Max(dates);
    assert wed <= lo <= hi <= wed + 6;
    var k := lo - wed;
    assert WeekdayOf(lo) == (2 + k) % 7;
    if WeekdayOf(lo) == TUESDAY {
      assert k == 6;
    }
    if WeekdayOf(lo) == MONDAY {
      assert k == 5;
      assert hi - lo <= 1;
      assert WeekdayOf(hi) == (lo + (hi - lo)) % 7;
    }
  }

  /** An accepted list that does not fit one exhibition week always starts
      on a Thursday, Friday, Saturday or Sunday: the check misses only
      weeks that start late and run past the following Tuesday. */
  lemma AcceptedOutsideWeekStartsLate(dates: seq<Date>)
    requires CheckWithinWeek(dates).Success?
    requires !InWednesdayToTuesdayWeek(dates)
    ensures WeekdayOf(Min(dates)) > WEDNESDAY
  {
    AcceptedFacts(dates);
    if WeekdayOf(Min(dates)) <= WEDNESDAY {
      var wed := EarlyStartWeek(Min(dates), Max(dates));
      WeekFrom(dates, wed);
    }
  }

  /** A span the check accepts that starts on a Monday, Tuesday or
      Wednesday lies in the exhibition week beginning on `wed`. */
  lemma EarlyStartWeek(lo: Date, hi: Date) returns (wed: Date)
    requires 0 <= hi - lo < 7 && WeekdayOf(lo) <= WEDNESDAY
    requires hi - lo > 0 ==> WeekdayOf(lo) != TUESDAY
    requires hi - lo > 0 && WeekdayOf(lo) == MONDAY ==> WeekdayOf(hi) < WEDNESDAY
    ensures WeekdayOf(wed) == WEDNESDAY && wed <= lo && hi <= wed + 6
  {
    var q := lo / 7;
    assert lo == 7 * q + WeekdayOf(lo);
    if WeekdayOf(lo) == WEDNESDAY {
      wed := lo;
    } else if WeekdayOf(lo) == TUESDAY {
      wed := 7 * (q - 1) + WEDNESDAY;
    } else {
      MondayStartSpansOneDay(lo, hi);
      wed := 7 * (q - 1) + WEDNESDAY;
    }
  }

  lemma AcceptedFacts(dates: seq<Date>)
    requires CheckWithinWeek(dates).Success?
    ensures 0 < |dates| && 0 <= Max(dates) - Min(dates) < 7
    ensures Max(dates) - Min(dates) > 0 ==> WeekdayOf(Min(dates)) != TUESDAY
    ensures Max(dates) - Min(dates) > 0 && WeekdayOf(Min(dates)) == MONDAY ==> WeekdayOf(Max(dates)) < WEDNESDAY
  {
  }

  /** A Monday start accepted by the check ends on Monday or Tuesday. */
  lemma MondayStartSpansOneDay(lo: Date, hi: Date)
    requires WeekdayOf(lo) == MONDAY && 0 <= hi - lo < 7
    requires !(hi - lo > 0 && WeekdayOf(hi) >= WEDNESDAY)
    ensures hi - lo <= 1
  {
    assert WeekdayOf(hi) == (hi - lo) % 7;
  }

  /** `wed` witnesses an exhibition week holding every date. */
  lemma WeekFrom(dates: seq<Date>, wed: Date)
    requires 0 < |dates| && WeekdayOf(wed) == WEDNESDAY
    requires wed <= Min(dates) && Max(dates) <= wed + 6
    ensures InWednesdayToTuesdayWeek(dates)
  {
    assert forall d :: d in dates ==> wed <= d <= wed + 6;
  }

  /** The gap itself: Thursday (day 3) to the following Wednesday (day 9)
      passes the check although it spans two exhibition weeks. */
  lemma ThursdayToWednesdayPasses()
    ensures CheckWithinWeek([3, 9]) == Success(true)
    ensures !InWednesdayToTuesdayWeek([3, 9])
  {
    var ds := [3, 9];
    assert Min(ds) == 3 && Max(ds) == 9;
    forall wed: Date | WeekdayOf(wed) == WEDNESDAY
      ensures !(wed <= 3 && 9 <= wed + 6)
    {
    }
    assert 3 in ds && 9 in ds;
  }
}
