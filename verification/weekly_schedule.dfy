/** The weekly schedule compaction engine (`build_weekly_schedule_str` in
    `helpers/schedules.py`; `allocine/__init__.py:292-419` is the same
    algorithm).  The start times of one film's showtimes are checked to fit
    one exhibition week, bucketed by time of day, each bucket's dates turned
    into a weekday label, the times regrouped by label, and one of two
    layouts printed. */
module WeeklySchedule {
  import opened Results
  import opened Text
  import opened Calendar
  import opened Seqs
  import opened Timing
  import opened WeekdayLabels
  import opened WeekCheck

  /** Length given to a showtime whose end is not known, in minutes. */
  const DEFAULT_DURATION: nat := 15

  /** Times from midnight up to and including this one are night showings
      that belong to the previous evening. */
  const NIGHT_END: ClockTime := Time(5, 0)

  datatype Schedule = Schedule(start: DateTime, end: DateTime)

  /** `Schedule.__init__`: a missing end time defaults to fifteen minutes
      after the start. */
  function NewSchedule(start: DateTime, end: Option<DateTime>): (s: Schedule)
    ensures s.start == start
    ensures end.Some? ==> s.end == end.value
    ensures end.None? ==> AbsoluteMinutes(s.end) == AbsoluteMinutes(start) + DEFAULT_DURATION
    ensures end.None? ==> DateTimeBefore(s.start, s.end)
  {
    var e := if end.Some? then end.value else AddMinutes(start, DEFAULT_DURATION);
    DateTimeBeforeIsAbsoluteOrder(start, e);
    Schedule(start, e)
  }

  function DateOf(s: Schedule): Date { s.start.date }

  function HourOf(s: Schedule): ClockTime { s.start.time }

  predicate InNightWindow(t: ClockTime)
  {
    !ClockBefore(NIGHT_END, t)
  }

  /** `__get_time_weight`, in minutes: the time of day, pushed one day later
      inside the night window so that 23h sorts before 0h30. */
  function TimeWeight(t: ClockTime): (w: int)
    ensures 0 <= w < 2 * MINUTES_PER_DAY
    ensures w % MINUTES_PER_DAY == MinuteOfDay(t)
    ensures w >= MINUTES_PER_DAY <==> InNightWindow(t)
  {
    ClockBeforeIsMinuteOrder(NIGHT_END, t);
    if MinuteOfDay(t) <= MinuteOfDay(NIGHT_END) then MinuteOfDay(t) + MINUTES_PER_DAY else MinuteOfDay(t)
  }

  /** Different times have different weights. */
  lemma TimeWeightInjective(a: ClockTime, b: ClockTime)
    requires TimeWeight(a) == TimeWeight(b)
    ensures a == b
  {
    MinuteOfDayInjective(a, b);
  }

  /** Night showings order after every other showing; among day showings,
      and among night showings, weight order is clock order. */
  lemma TimeWeightOrder(a: ClockTime, b: ClockTime)
    ensures !InNightWindow(a) && InNightWindow(b) ==> TimeWeight(a) < TimeWeight(b)
    ensures InNightWindow(a) == InNightWindow(b) ==> (TimeWeight(a) < TimeWeight(b) <==> ClockBefore(a, b))
  {
    ClockBeforeIsMinuteOrder(a, b);
  }

  /** Plain clock order on times, as Python compares `time` values. */
  function ClockOrder(t: ClockTime): int
  {
    MinuteOfDay(t)
  }

  /** The start time of every showtime, in input order. */
  function StartHours(ss: seq<Schedule>): seq<ClockTime>
  {
    seq(|ss|, i requires 0 <= i < |ss| => HourOf(ss[i]))
  }

  /** The start date of every showtime, in input order. */
  function StartDates(ss: seq<Schedule>): seq<Date>
  {
    seq(|ss|, i requires 0 <= i < |ss| => DateOf(ss[i]))
  }

  /** The keys of `_hours_hashmap`: each start time once, in order of first
      appearance. */
  function DistinctTimes(ss: seq<Schedule>): (ts: seq<ClockTime>)
    ensures NoDuplicates(ts)
    ensures forall t :: t in ts <==> t in StartHours(ss)
  {
    Dedup(StartHours(ss))
  }

  /** `_hours_hashmap[t]`: the dates of the showtimes starting at `t`, in
      input order. */
  function DatesAt(ss: seq<Schedule>, t: ClockTime): (ds: seq<Date>)
    ensures 0 < |ds| <==> t in StartHours(ss)
    ensures forall d :: d in ds <==> DateTime(d, t) in StartsOf(ss)
    decreases |ss|
  {
    if |ss| == 0 then []
    else
      var rest := DatesAt(ss[1..], t);
      assert StartHours(ss) == [HourOf(ss[0])] + StartHours(ss[1..]);
      assert StartsOf(ss) == [ss[0].start] + StartsOf(ss[1..]);
      if HourOf(ss[0]) == t then [DateOf(ss[0])] + rest else rest
  }

  function StartsOf(ss: seq<Schedule>): seq<DateTime>
  {
    seq(|ss|, i requires 0 <= i < |ss| => ss[i].start)
  }

  /** `create_weekdays_str` of the dates at `t`. */
  function LabelAt(ss: seq<Schedule>, t: ClockTime): string
  {
    WeekdaysLabel(DatesAt(ss, t))
  }

  /** Some start time occurs on seven distinct dates. */
  ghost predicate SomeTimeEveryDay(ss: seq<Schedule>)
  {
    exists t :: t in StartHours(ss) && |Elements(DatesAt(ss, t))| == 7
  }

  /** One entry of `grouped_date_hashmap`: a weekday label and its times. */
  datatype Group = Group(days: string, times: seq<ClockTime>)

  /** The times carrying `label`, deduplicated and in clock order
      (the second and third loops of `build_weekly_schedule_str`). */
  function GroupOf(ss: seq<Schedule>, days: string): (g: Group)
    ensures g.days == days
    ensures StrictlySortedBy(g.times, ClockOrder)
    ensures NoDuplicates(g.times)
    ensures forall t :: t in g.times <==> t in StartHours(ss) && LabelAt(ss, t) == days
  {
    var carries := t => LabelAt(ss, t) == days;
    var ts := Filter(DistinctTimes(ss), carries);
    FilterOfDistinct(DistinctTimes(ss), carries);
    DistinctMinutes(ts);
    SortByDistinctKeys(ts, ClockOrder);
    Group(days, SortBy(ts, ClockOrder))
  }

  lemma DistinctMinutes(ts: seq<ClockTime>)
    ensures forall x, y :: x in ts && y in ts && x != y ==> ClockOrder(x) != ClockOrder(y)
  {
    forall x, y | x in ts && y in ts && x != y
      ensures ClockOrder(x) != ClockOrder(y)
    {
      if MinuteOfDay(x) == MinuteOfDay(y) {
        MinuteOfDayInjective(x, y);
      }
    }
  }

  /** `__get_time_weight_in_list`: the smallest weight among the group's
      times (groups are never empty). */
  function MinWeight(g: Group): (w: int)
    ensures forall i :: 0 <= i < |g.times| ==> w <= TimeWeight(g.times[i])
    ensures 0 < |g.times| ==> exists i :: 0 <= i < |g.times| && w == TimeWeight(g.times[i])
  {
    if |g.times| == 0 then 0
    else
      var ws := seq(|g.times|, i requires 0 <= i < |g.times| => TimeWeight(g.times[i]));
      var m := Min(ws);
      forall i | 0 <= i < |g.times|
        ensures m <= TimeWeight(g.times[i])
      {
        assert ws[i] in ws;
      }
      m
  }

  /** The distinct labels, in order of first use. */
  function LabelsInOrder(ss: seq<Schedule>): (ls: seq<string>)
    ensures NoDuplicates(ls)
    ensures forall l :: l in ls <==> exists t :: t in StartHours(ss) && LabelAt(ss, t) == l
  {
    var ts := DistinctTimes(ss);
    var raw := seq(|ts|, i requires 0 <= i < |ts| => LabelAt(ss, ts[i]));
    assert forall i :: 0 <= i < |ts| ==> raw[i] in raw && ts[i] in ts;
    Dedup(raw)
  }

  function LabelsOf(gs: seq<Group>): seq<string>
  {
    seq(|gs|, i requires 0 <= i < |gs| => gs[i].days)
  }

  /** `grouped_date_hashmap` of `build_weekly_schedule_str`: one group per label, each time
      in exactly one group, the groups ordered by their earliest weight. */
  function Groups(ss: seq<Schedule>): (gs: seq<Group>)
    ensures NoDuplicates(LabelsOf(gs))
    ensures forall g :: g in gs ==> 0 < |g.times| && StrictlySortedBy(g.times, ClockOrder)
    ensures forall g, t :: g in gs && t in g.times ==> t in StartHours(ss) && LabelAt(ss, t) == g.days
    ensures forall t :: t in StartHours(ss) ==> exists g :: g in gs && g.days == LabelAt(ss, t) && t in g.times
    ensures StrictlySortedBy(gs, MinWeight)
    ensures "" in LabelsOf(gs) <==> SomeTimeEveryDay(ss)
  {
    var ls := LabelsInOrder(ss);
    var raw := seq(|ls|, i requires 0 <= i < |ls| => GroupOf(ss, ls[i]));
    RawGroupsFacts(ss, ls, raw);
    SortByDistinctKeys(raw, MinWeight);
    var gs := SortBy(raw, MinWeight);
    SortedGroupsFacts(ss, raw, gs);
    EmptyLabelIsEveryDay(ss, gs);
    EveryDayHasEmptyLabel(ss, gs);
    gs
  }

  lemma RawGroupsFacts(ss: seq<Schedule>, ls: seq<string>, raw: seq<Group>)
    requires ls == LabelsInOrder(ss)
    requires |raw| == |ls| && forall i :: 0 <= i < |ls| ==> raw[i] == GroupOf(ss, ls[i])
    ensures NoDuplicates(raw)
    ensures forall g :: g in raw ==> g == GroupOf(ss, g.days) && 0 < |g.times|
    ensures forall x, y :: x in raw && y in raw && x != y ==> MinWeight(x) != MinWeight(y)
    ensures forall l :: l in ls ==> GroupOf(ss, l) in raw
  {
    forall g | g in raw
      ensures g == GroupOf(ss, g.days) && 0 < |g.times|
    {
      var i :| 0 <= i < |raw| && raw[i] == g;
      assert ls[i] in ls;
      var t :| t in StartHours(ss) && LabelAt(ss, t) == ls[i];
      assert t in g.times;
    }
    forall i, j | 0 <= i < j < |raw|
      ensures raw[i] != raw[j]
    {
      assert raw[i].days == ls[i] && raw[j].days == ls[j];
    }
    forall x, y | x in raw && y in raw && x != y
      ensures MinWeight(x) != MinWeight(y)
    {
      var i :| 0 <= i < |x.times| && MinWeight(x) == TimeWeight(x.times[i]);
      var j :| 0 <= j < |y.times| && MinWeight(y) == TimeWeight(y.times[j]);
      assert x.times[i] in x.times && y.times[j] in y.times;
      assert x.days != y.days;
      if TimeWeight(x.times[i]) == TimeWeight(y.times[j]) {
        TimeWeightInjective(x.times[i], y.times[j]);
      }
    }
    forall l | l in ls
      ensures GroupOf(ss, l) in raw
    {
      var i :| 0 <= i < |ls| && ls[i] == l;
      assert raw[i] == GroupOf(ss, l);
    }
  }

  lemma SortedGroupsFacts(ss: seq<Schedule>, raw: seq<Group>, gs: seq<Group>)
    requires forall g :: g in raw ==> g == GroupOf(ss, g.days) && 0 < |g.times|
    requires forall l :: l in LabelsInOrder(ss) ==> GroupOf(ss, l) in raw
    requires forall g :: g in gs <==> g in raw
    requires NoDuplicates(gs)
    ensures NoDuplicates(LabelsOf(gs))
    ensures forall g :: g in gs ==> 0 < |g.times| && StrictlySortedBy(g.times, ClockOrder)
    ensures forall g, t :: g in gs && t in g.times ==> t in StartHours(ss) && LabelAt(ss, t) == g.days
    ensures forall t :: t in StartHours(ss) ==> exists g :: g in gs && g.days == LabelAt(ss, t) && t in g.times
  {
    forall i, j | 0 <= i < j < |gs|
      ensures LabelsOf(gs)[i] != LabelsOf(gs)[j]
    {
      assert gs[i] in raw && gs[j] in raw;
    }
    forall g | g in gs
      ensures 0 < |g.times| && StrictlySortedBy(g.times, ClockOrder)
    {
      assert g == GroupOf(ss, g.days);
    }
    forall g, t | g in gs && t in g.times
      ensures t in StartHours(ss) && LabelAt(ss, t) == g.days
    {
      assert g == GroupOf(ss, g.days);
    }
    forall t | t in StartHours(ss)
      ensures exists g :: g in gs && g.days == LabelAt(ss, t) && t in g.times
    {
      var g := GroupOf(ss, LabelAt(ss, t));
      assert LabelAt(ss, t) in LabelsInOrder(ss);
      assert g in gs && t in g.times;
    }
  }
  /** The times carry pairwise different weights. */
  lemma DistinctWeights(ts: seq<ClockTime>)
    ensures forall x, y :: x in ts && y in ts && x != y ==> TimeWeight(x) != TimeWeight(y)
  {
    forall x, y | x in ts && y in ts && x != y
      ensures TimeWeight(x) != TimeWeight(y)
    {
      if TimeWeight(x) == TimeWeight(y) {
        TimeWeightInjective(x, y);
      }
    }
  }

  /** The keys of `hours_hashmap` in `build_weekly_schedule_str`: every start time once, in
      night-aware weight order. */
  function TimesByWeight(ss: seq<Schedule>): (ts: seq<ClockTime>)
    ensures StrictlySortedBy(ts, TimeWeight)
    ensures NoDuplicates(ts)
    ensures forall t :: t in ts <==> t in StartHours(ss)
  {
    DistinctWeights(DistinctTimes(ss));
    SortByDistinctKeys(DistinctTimes(ss), TimeWeight);
    SortBy(DistinctTimes(ss), TimeWeight)
  }

  /** The short hours of a group, joined by `", "` (`hours_str` in `build_weekly_schedule_str`). */
  function HoursText(ts: seq<ClockTime>): string
  {
    Join(", ", seq(|ts|, i requires 0 <= i < |ts| => HourShort(ts[i])))
  }

  /** A group printed label first: `"sf Lun, Mar 21h"`. */
  function GroupText(g: Group): string
  {
    g.days + " " + HoursText(g.times)
  }

  function GroupTexts(gs: seq<Group>): seq<string>
  {
    seq(|gs|, i requires 0 <= i < |gs| => GroupText(gs[i]))
  }

  /** A time printed time first, with its label in brackets unless it runs
      every day: `"14h"`, `"21h (sf Lun)"`. */
  function TimeText(ss: seq<Schedule>, t: ClockTime): string
  {
    if LabelAt(ss, t) == "" then HourShort(t) else HourShort(t) + " (" + LabelAt(ss, t) + ")"
  }

  function TimeTexts(ss: seq<Schedule>): seq<string>
  {
    var ts := TimesByWeight(ss);
    seq(|ts|, i requires 0 <= i < |ts| => TimeText(ss, ts[i]))
  }

  /** One step of the time-led loop of `build_weekly_schedule_str`. */
  function TimeLedPiece(ss: seq<Schedule>, t: ClockTime): string
  {
    var days := LabelAt(ss, t);
    if days != "" then HourShort(t) + " (" + days + "), " else HourShort(t) + ", "
  }

  /** One step of the pattern-led loop of `build_weekly_schedule_str`. */
  function PatternPiece(g: Group, differentShowtimes: nat, everyday: bool): string
  {
    var hours := HoursText(g.times);
    if differentShowtimes == 1 then g.days + " " + hours + ", "
    else if everyday then hours + " (" + g.days + "), "
    else g.days + " " + hours + "; "
  }

  function TimeLedPieces(ss: seq<Schedule>): seq<string>
  {
    var ts := TimesByWeight(ss);
    seq(|ts|, i requires 0 <= i < |ts| => TimeLedPiece(ss, ts[i]))
  }

  function PatternPieces(gs: seq<Group>, everyday: bool): seq<string>
  {
    seq(|gs|, i requires 0 <= i < |gs| => PatternPiece(gs[i], |gs|, everyday))
  }

  /** The end of `build_weekly_schedule_str`: pick the layout, run its
      loop, cut the trailing separator. */
  function Assemble(ss: seq<Schedule>): string
  {
    var gs := Groups(ss);
    var everyday := "" in LabelsOf(gs);
    DropTrailingPair(Concat(if everyday then TimeLedPieces(ss) else PatternPieces(gs, everyday)))
  }

  /** `build_weekly_schedule_str`: the week check runs first and its error is
      the result; otherwise the time-led layout when some time runs every
      day, and the pattern-led layout, label first, when none does. */
  function BuildWeekly(ss: seq<Schedule>): (r: Result<string, WeekError>)
    ensures CheckWithinWeek(StartDates(ss)).Failure? ==> r == Failure(CheckWithinWeek(StartDates(ss)).error)
    ensures CheckWithinWeek(StartDates(ss)).Success? ==> r.Success?
    ensures r.Success? && SomeTimeEveryDay(ss) ==> r.value == Join(", ", TimeTexts(ss))
    ensures r.Success? && !SomeTimeEveryDay(ss) ==> r.value == Join("; ", GroupTexts(Groups(ss)))
    ensures r.Success? && !SomeTimeEveryDay(ss) && |Groups(ss)| == 1 ==> r.value == GroupText(Groups(ss)[0])
  {
    var _ :- CheckWithinWeek(StartDates(ss));
    AssembleLayouts(ss);
    Success(Assemble(ss))
  }

  /** A group labelled with the empty string, the everyday test of
      `build_weekly_schedule_str`, exists only when some start time occurs
      on seven distinct dates. */
  lemma EmptyLabelIsEveryDay(ss: seq<Schedule>, gs: seq<Group>)
    requires forall g :: g in gs ==> 0 < |g.times|
    requires forall g, t :: g in gs && t in g.times ==> t in StartHours(ss) && LabelAt(ss, t) == g.days
    ensures "" in LabelsOf(gs) ==> SomeTimeEveryDay(ss)
  {
    if "" in LabelsOf(gs) {
      var i :| 0 <= i < |gs| && LabelsOf(gs)[i] == "";
      assert gs[i] in gs;
      var t := gs[i].times[0];
      assert t in gs[i].times;
      assert t in StartHours(ss) && LabelAt(ss, t) == "";
    }
  }

  /** ... and a start time on seven distinct dates has such a group. */
  lemma EveryDayHasEmptyLabel(ss: seq<Schedule>, gs: seq<Group>)
    requires forall t :: t in StartHours(ss) ==> exists g :: g in gs && g.days == LabelAt(ss, t) && t in g.times
    ensures SomeTimeEveryDay(ss) ==> "" in LabelsOf(gs)
  {
    if SomeTimeEveryDay(ss) {
      var t :| t in StartHours(ss) && |Elements(DatesAt(ss, t))| == 7;
      var g :| g in gs && g.days == LabelAt(ss, t) && t in g.times;
      var i :| 0 <= i < |gs| && gs[i] == g;
      assert LabelsOf(gs)[i] == "";
    }
  }

  lemma AssembleLayouts(ss: seq<Schedule>)
    requires 0 < |ss|
    ensures SomeTimeEveryDay(ss) ==> Assemble(ss) == Join(", ", TimeTexts(ss))
    ensures !SomeTimeEveryDay(ss) ==> Assemble(ss) == Join("; ", GroupTexts(Groups(ss)))
    ensures !SomeTimeEveryDay(ss) && |Groups(ss)| == 1 ==> Assemble(ss) == GroupText(Groups(ss)[0])
  {
    NonEmptyLayouts(ss);
    if SomeTimeEveryDay(ss) {
      TimeLayout(ss);
    } else {
      PatternLayout(Groups(ss));
    }
  }

  lemma NonEmptyLayouts(ss: seq<Schedule>)
    requires 0 < |ss|
    ensures 0 < |TimesByWeight(ss)| && 0 < |Groups(ss)|
  {
    var t0 := HourOf(ss[0]);
    assert t0 == StartHours(ss)[0];
    assert t0 in StartHours(ss);
    assert t0 in TimesByWeight(ss);
    var gs := Groups(ss);
    assert exists g :: g in gs && g.days == LabelAt(ss, t0) && t0 in g.times;
    var g :| g in gs && g.days == LabelAt(ss, t0) && t0 in g.times;
  }

  /** The time-led loop joins the time texts. */
  lemma TimeLayout(ss: seq<Schedule>)
    requires 0 < |TimesByWeight(ss)|
    ensures DropTrailingPair(Concat(TimeLedPieces(ss))) == Join(", ", TimeTexts(ss))
  {
    ConcatOfSuffixedPieces(", ", TimeTexts(ss), TimeLedPieces(ss));
    DropTrailingPairOfTerminated(", ", TimeTexts(ss));
  }

  /** The pattern-led loop, where no time runs every day, joins the group
      texts; its bracketed form, which needs the every-day test to hold,
      is never produced. */
  lemma PatternLayout(gs: seq<Group>)
    requires 0 < |gs|
    ensures DropTrailingPair(Concat(PatternPieces(gs, false))) == Join("; ", GroupTexts(gs))
    ensures |gs| == 1 ==> DropTrailingPair(Concat(PatternPieces(gs, false))) == GroupText(gs[0])
  {
    if |gs| == 1 {
      ConcatOfSuffixedPieces(", ", GroupTexts(gs), PatternPieces(gs, false));
      DropTrailingPairOfTerminated(", ", GroupTexts(gs));
    } else {
      ConcatOfSuffixedPieces("; ", GroupTexts(gs), PatternPieces(gs, false));
      DropTrailingPairOfTerminated("; ", GroupTexts(gs));
    }
  }
}
