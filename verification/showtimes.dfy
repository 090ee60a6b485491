/** List queries over one film's or one cinema's showtimes
    (`data/showtimes.py`; `allocine/showtimes.py` and
    `allocine/__init__.py:266-289` hold the same functions). */
module Showtimes {
  import opened Results
  import opened Text
  import opened Calendar
  import opened Seqs
  import opened Timing
  import opened WeekCheck
  import opened WeeklySchedule
  import opened Movies

  /** A `Showtime`: the start, the end when the feed gives one (the
      dataclass field `end_time` may hold `None`) and the film version. */
  datatype Showtime = Showtime(start: DateTime, end: Option<DateTime>, movie: MovieVersion)

  function DayOf(s: Showtime): Date { s.start.date }

  /** The date of every showtime, in input order. */
  function ShowtimeDates(sts: seq<Showtime>): seq<Date>
  {
    seq(|sts|, i requires 0 <= i < |sts| => DayOf(sts[i]))
  }

  /** `get_showtimes_of_a_day`: the showtimes on date `d`, in input order. */
  function ShowtimesOfDay(sts: seq<Showtime>, d: Date): (r: seq<Showtime>)
    ensures IsSubsequence(r, sts)
    ensures forall s :: s in r <==> s in sts && DayOf(s) == d
    ensures forall s :: multiset(r)[s] == if DayOf(s) == d then multiset(sts)[s] else 0
  {
    var onDay := s => DayOf(s) == d;
    var r := Filter(sts, onDay);
    FilterCount(sts, onDay);
    forall s
      ensures s in r <==> s in sts && DayOf(s) == d
    {
      assert s in r <==> s in multiset(r);
      assert s in sts <==> s in multiset(sts);
    }
    r
  }

  /** `get_available_dates`: the distinct showtime dates, ascending. */
  function AvailableDates(sts: seq<Showtime>): (ds: seq<Date>)
    ensures StrictlyIncreasing(ds)
    ensures forall d :: d in ds <==> exists s :: s in sts && DayOf(s) == d
    ensures |ds| == |Elements(ShowtimeDates(sts))|
  {
    var all := ShowtimeDates(sts);
    forall d
      ensures d in all <==> exists s :: s in sts && DayOf(s) == d
    {
      if d in all {
        var i :| 0 <= i < |all| && all[i] == d;
        assert sts[i] in sts;
      }
      if exists s :: s in sts && DayOf(s) == d {
        var s :| s in sts && DayOf(s) == d;
        var i :| 0 <= i < |sts| && sts[i] == s;
        assert all[i] == d;
      }
    }
    SortedUnique(all)
  }

  /** The key of `group_showtimes_per_schedule` for date `d`: the short
      hours of that day's showtimes in input order, repeats kept, joined by
      `", "`. */
  function HoursKey(sts: seq<Showtime>, d: Date): string
  {
    var day := ShowtimesOfDay(sts, d);
    Join(", ", seq(|day|, i requires 0 <= i < |day| => HourShort(day[i].start.time)))
  }

  /** One entry of the result of `group_showtimes_per_schedule`. */
  datatype DateGroup = DateGroup(hours: string, dates: seq<Date>)

  function KeysOf(gs: seq<DateGroup>): seq<string>
  {
    seq(|gs|, i requires 0 <= i < |gs| => gs[i].hours)
  }

  function FirstDate(g: DateGroup): int
  {
    if |g.dates| == 0 then 0 else g.dates[0]
  }

  function TotalSize(gs: seq<DateGroup>): nat
  {
    if |gs| == 0 then 0 else |gs[0].dates| + TotalSize(gs[1..])
  }

  /** Position of the entry with key `key`, or `|gs|` when there is none. */
  function KeyIndex(gs: seq<DateGroup>, key: string): (k: nat)
    ensures k <= |gs|
    ensures k < |gs| ==> gs[k].hours == key
    ensures forall i :: 0 <= i < k ==> gs[i].hours != key
  {
    if |gs| == 0 then 0
    else if gs[0].hours == key then 0
    else 1 + KeyIndex(gs[1..], key)
  }

  /** One step of the grouping loop: append `d` to the entry for `key`,
      creating it at the end when missing. */
  function AddDate(gs: seq<DateGroup>, key: string, d: Date): seq<DateGroup>
  {
    var k := KeyIndex(gs, key);
    if k < |gs| then gs[k := DateGroup(key, gs[k].dates + [d])] else gs + [DateGroup(key, [d])]
  }

  lemma {:induction false} TotalSizeUpdate(gs: seq<DateGroup>, k: nat, g: DateGroup)
    requires k < |gs|
    ensures TotalSize(gs[k := g]) == TotalSize(gs) - |gs[k].dates| + |g.dates|
    decreases |gs|
  {
    if k > 0 {
      TotalSizeUpdate(gs[1..], k - 1, g);
      assert gs[k := g][1..] == gs[1..][k - 1 := g];
    }
  }

  lemma {:induction false} TotalSizeAppend(gs: seq<DateGroup>, g: DateGroup)
    ensures TotalSize(gs + [g]) == TotalSize(gs) + |g.dates|
    decreases |gs|
  {
    if |gs| > 0 {
      TotalSizeAppend(gs[1..], g);
      assert (gs + [g])[1..] == gs[1..] + [g];
    }
  }

  predicate KeysDistinct(gs: seq<DateGroup>)
  {
    NoDuplicates(KeysOf(gs))
  }

  predicate DatesAscend(gs: seq<DateGroup>)
  {
    forall g :: g in gs ==> 0 < |g.dates| && StrictlyIncreasing(g.dates)
  }

  /** Every grouped date is one of `ds` and sits under its own hours key. */
  predicate DatesKeyed(key: Date -> string, ds: seq<Date>, gs: seq<DateGroup>)
  {
    forall g, d :: g in gs && d in g.dates ==> d in ds && key(d) == g.hours
  }

  /** Every date of `ds` is grouped under its hours key. */
  predicate DatesCovered(key: Date -> string, ds: seq<Date>, gs: seq<DateGroup>)
  {
    forall d :: d in ds ==> exists g :: g in gs && g.hours == key(d) && d in g.dates
  }

  /** The groups partition `ds` by hours key, the shape of the result of
      `group_showtimes_per_schedule`. */
  predicate PartitionByKey(key: Date -> string, ds: seq<Date>, gs: seq<DateGroup>)
  {
    && KeysDistinct(gs)
    && DatesAscend(gs)
    && DatesKeyed(key, ds, gs)
    && DatesCovered(key, ds, gs)
    && TotalSize(gs) == |ds|
    && StrictlySortedBy(gs, FirstDate)
  }

  /** The grouping loop run over `ds`, ascending. */
  function GroupDates(key: Date -> string, ds: seq<Date>): (gs: seq<DateGroup>)
    requires StrictlyIncreasing(ds)
    ensures PartitionByKey(key, ds, gs)
    decreases |ds|
  {
    if |ds| == 0 then []
    else
      var prefix := ds[..|ds| - 1];
      var d := ds[|ds| - 1];
      var gs := GroupDates(key, prefix);
      assert forall e :: e in prefix ==> e < d;
      AddDateKeepsPartition(key, prefix, gs, d);
      assert prefix + [d] == ds;
      AddDate(gs, key(d), d)
  }

  lemma AddDateKeepsPartition(key: Date -> string, ds: seq<Date>, gs: seq<DateGroup>, d: Date)
    requires PartitionByKey(key, ds, gs)
    requires forall e :: e in ds ==> e < d
    ensures PartitionByKey(key, ds + [d], AddDate(gs, key(d), d))
  {
    var k := KeyIndex(gs, key(d));
    forall g, e | g in gs && e in g.dates
      ensures e < d
    {
      assert DatesKeyed(key, ds, gs);
      assert e in ds;
    }
    if k < |gs| {
      var g' := DateGroup(key(d), gs[k].dates + [d]);
      TotalSizeUpdate(gs, k, g');
      UpdateKeepsShape(key, ds, gs, k, d);
    } else {
      var g' := DateGroup(key(d), [d]);
      TotalSizeAppend(gs, g');
      AppendKeepsShape(key, ds, gs, d);
    }
  }

  lemma UpdateKeepsShape(key: Date -> string, ds: seq<Date>, gs: seq<DateGroup>, k: nat, d: Date)
    requires PartitionByKey(key, ds, gs)
    requires forall g, e :: g in gs && e in g.dates ==> e < d
    requires k < |gs| && gs[k].hours == key(d)
    ensures KeysDistinct(gs[k := DateGroup(gs[k].hours, gs[k].dates + [d])])
    ensures DatesAscend(gs[k := DateGroup(gs[k].hours, gs[k].dates + [d])])
    ensures DatesKeyed(key, ds + [d], gs[k := DateGroup(gs[k].hours, gs[k].dates + [d])])
    ensures DatesCovered(key, ds + [d], gs[k := DateGroup(gs[k].hours, gs[k].dates + [d])])
    ensures StrictlySortedBy(gs[k := DateGroup(gs[k].hours, gs[k].dates + [d])], FirstDate)
  {
    UpdateDistinctSorted(gs, k, d);
    UpdateAscend(gs, k, d);
    UpdateKeyed(key, ds, gs, k, d);
    UpdateCovered(key, ds, gs, k, d);
  }

  lemma UpdateDistinctSorted(gs: seq<DateGroup>, k: nat, d: Date)
    requires KeysDistinct(gs) && StrictlySortedBy(gs, FirstDate)
    requires k < |gs| && 0 < |gs[k].dates|
    ensures KeysDistinct(gs[k := DateGroup(gs[k].hours, gs[k].dates + [d])])
    ensures StrictlySortedBy(gs[k := DateGroup(gs[k].hours, gs[k].dates + [d])], FirstDate)
  {
    var r := gs[k := DateGroup(gs[k].hours, gs[k].dates + [d])];
    assert KeysOf(r) == KeysOf(gs);
    forall i | 0 <= i < |r|
      ensures FirstDate(r[i]) == FirstDate(gs[i])
    {
    }
  }

  lemma UpdateAscend(gs: seq<DateGroup>, k: nat, d: Date)
    requires DatesAscend(gs)
    requires forall g, e :: g in gs && e in g.dates ==> e < d
    requires k < |gs|
    ensures DatesAscend(gs[k := DateGroup(gs[k].hours, gs[k].dates + [d])])
  {
    var g' := DateGroup(gs[k].hours, gs[k].dates + [d]);
    var r := gs[k := g'];
    assert gs[k] in gs;
    assert StrictlyIncreasing(g'.dates) by {
      var prev := gs[k].dates;
      forall i, j | 0 <= i < j < |g'.dates|
        ensures g'.dates[i] < g'.dates[j]
      {
        if j == |prev| {
          assert prev[i] in prev;
        }
      }
    }
    forall g | g in r
      ensures 0 < |g.dates| && StrictlyIncreasing(g.dates)
    {
      var i :| 0 <= i < |r| && r[i] == g;
      if i != k {
        assert gs[i] in gs;
      }
    }
  }

  lemma UpdateKeyed(key: Date -> string, ds: seq<Date>, gs: seq<DateGroup>, k: nat, d: Date)
    requires DatesKeyed(key, ds, gs)
    requires k < |gs| && gs[k].hours == key(d)
    ensures DatesKeyed(key, ds + [d], gs[k := DateGroup(gs[k].hours, gs[k].dates + [d])])
  {
    var r := gs[k := DateGroup(gs[k].hours, gs[k].dates + [d])];
    assert gs[k] in gs;
    forall g, e | g in r && e in g.dates
      ensures e in ds + [d] && key(e) == g.hours
    {
      var i :| 0 <= i < |r| && r[i] == g;
      if i != k {
        assert gs[i] in gs;
      } else if e != d {
        assert e in gs[k].dates;
      }
    }
  }

  lemma UpdateCovered(key: Date -> string, ds: seq<Date>, gs: seq<DateGroup>, k: nat, d: Date)
    requires DatesCovered(key, ds, gs)
    requires k < |gs| && gs[k].hours == key(d)
    ensures DatesCovered(key, ds + [d], gs[k := DateGroup(gs[k].hours, gs[k].dates + [d])])
  {
    var g' := DateGroup(gs[k].hours, gs[k].dates + [d]);
    var r := gs[k := g'];
    forall e | e in ds + [d]
      ensures exists g :: g in r && g.hours == key(e) && e in g.dates
    {
      if e == d {
        assert r[k] == g';
      } else {
        var g :| g in gs && g.hours == key(e) && e in g.dates;
        var i :| 0 <= i < |gs| && gs[i] == g;
        assert e in r[i].dates && r[i].hours == g.hours;
      }
    }
  }

  lemma AppendKeepsShape(key: Date -> string, ds: seq<Date>, gs: seq<DateGroup>, d: Date)
    requires PartitionByKey(key, ds, gs)
    requires forall g, e :: g in gs && e in g.dates ==> e < d
    requires KeyIndex(gs, key(d)) == |gs|
    ensures KeysDistinct(gs + [DateGroup(key(d), [d])])
    ensures DatesAscend(gs + [DateGroup(key(d), [d])])
    ensures DatesKeyed(key, ds + [d], gs + [DateGroup(key(d), [d])])
    ensures DatesCovered(key, ds + [d], gs + [DateGroup(key(d), [d])])
    ensures StrictlySortedBy(gs + [DateGroup(key(d), [d])], FirstDate)
  {
    var g' := DateGroup(key(d), [d]);
    AppendDistinct(gs, g');
    AppendAscend(gs, g');
    AppendSorted(gs, g');
    AppendCovered(key, ds, gs, d);
    AppendKeyed(key, ds, gs, d);
  }

  lemma AppendDistinct(gs: seq<DateGroup>, g': DateGroup)
    requires KeysDistinct(gs) && KeyIndex(gs, g'.hours) == |gs|
    ensures KeysDistinct(gs + [g'])
  {
    var r := gs + [g'];
    forall i, j | 0 <= i < j < |r|
      ensures KeysOf(r)[i] != KeysOf(r)[j]
    {
      assert KeysOf(r)[i] == r[i].hours && KeysOf(r)[j] == r[j].hours;
      assert r[i] == gs[i];
      if j < |gs| {
        assert r[j] == gs[j];
        assert KeysOf(gs)[i] == gs[i].hours && KeysOf(gs)[j] == gs[j].hours;
      } else {
        assert r[j] == g';
      }
    }
  }

  lemma AppendAscend(gs: seq<DateGroup>, g': DateGroup)
    requires DatesAscend(gs) && 0 < |g'.dates| && StrictlyIncreasing(g'.dates)
    ensures DatesAscend(gs + [g'])
  {
    forall g | g in gs + [g']
      ensures 0 < |g.dates| && StrictlyIncreasing(g.dates)
    {
      if g != g' {
        assert g in gs;
      }
    }
  }

  lemma AppendSorted(gs: seq<DateGroup>, g': DateGroup)
    requires DatesAscend(gs) && StrictlySortedBy(gs, FirstDate)
    requires 0 < |g'.dates|
    requires forall g, e :: g in gs && e in g.dates ==> e < g'.dates[0]
    ensures StrictlySortedBy(gs + [g'], FirstDate)
  {
    forall i | 0 <= i < |gs|
      ensures FirstDate(gs[i]) < FirstDate(g')
    {
      assert gs[i] in gs && gs[i].dates[0] in gs[i].dates;
    }
  }

  lemma AppendCovered(key: Date -> string, ds: seq<Date>, gs: seq<DateGroup>, d: Date)
    requires DatesCovered(key, ds, gs)
    ensures DatesCovered(key, ds + [d], gs + [DateGroup(key(d), [d])])
  {
    var r := gs + [DateGroup(key(d), [d])];
    forall e | e in ds + [d]
      ensures exists g :: g in r && g.hours == key(e) && e in g.dates
    {
      if e == d {
        assert r[|gs|] == DateGroup(key(d), [d]);
      } else {
        var g :| g in gs && g.hours == key(e) && e in g.dates;
        assert g in r;
      }
    }
  }

  lemma AppendKeyed(key: Date -> string, ds: seq<Date>, gs: seq<DateGroup>, d: Date)
    requires DatesKeyed(key, ds, gs)
    ensures DatesKeyed(key, ds + [d], gs + [DateGroup(key(d), [d])])
  {
    var r := gs + [DateGroup(key(d), [d])];
    forall g, e | g in r && e in g.dates
      ensures e in ds + [d] && key(e) == g.hours
    {
      if g in gs {
        assert e in ds;
      }
    }
  }

  /** `HoursKey` for the showtimes `sts`, as a function of the date. */
  function HoursKeyOf(sts: seq<Showtime>): (key: Date -> string)
    ensures forall d :: key(d) == HoursKey(sts, d)
  {
    d => HoursKey(sts, d)
  }

  /** `group_showtimes_per_schedule`: the available dates partitioned by
      their hours key; a key's dates ascend and the keys come in order of
      their earliest date. */
  function GroupPerSchedule(sts: seq<Showtime>): (gs: seq<DateGroup>)
    ensures KeysDistinct(gs)
    ensures DatesAscend(gs)
    ensures DatesKeyed(HoursKeyOf(sts), AvailableDates(sts), gs)
    ensures DatesCovered(HoursKeyOf(sts), AvailableDates(sts), gs)
    ensures TotalSize(gs) == |AvailableDates(sts)|
    ensures StrictlySortedBy(gs, FirstDate)
  {
    GroupDates(HoursKeyOf(sts), AvailableDates(sts))
  }

  /** Two available dates share a group exactly when their days have the
      same hours key. */
  lemma SameGroupIffSameHours(sts: seq<Showtime>, d1: Date, d2: Date, g: DateGroup)
    requires g in GroupPerSchedule(sts) && d1 in g.dates
    requires d2 in AvailableDates(sts)
    ensures d2 in g.dates <==> HoursKey(sts, d1) == HoursKey(sts, d2)
  {
    SameGroupIffSameKey(HoursKeyOf(sts), AvailableDates(sts), GroupPerSchedule(sts), d1, d2, g);
  }

  lemma SameGroupIffSameKey(key: Date -> string, ds: seq<Date>, gs: seq<DateGroup>, d1: Date, d2: Date, g: DateGroup)
    requires KeysDistinct(gs) && DatesKeyed(key, ds, gs) && DatesCovered(key, ds, gs)
    requires g in gs && d1 in g.dates && d2 in ds
    ensures d2 in g.dates <==> key(d1) == key(d2)
  {
    if key(d1) == key(d2) {
      var h :| h in gs && h.hours == key(d2) && d2 in h.dates;
      var i :| 0 <= i < |gs| && gs[i] == g;
      var j :| 0 <= j < |gs| && gs[j] == h;
      assert KeysOf(gs)[i] == KeysOf(gs)[j];
    }
  }

  /** The schedules `build_program_str` hands to the engine: the start times
      only, each with the default end. */
  function SchedulesOf(sts: seq<Showtime>): seq<Schedule>
  {
    seq(|sts|, i requires 0 <= i < |sts| => NewSchedule(sts[i].start, None))
  }

  function StartTimesOf(sts: seq<Showtime>): seq<DateTime>
  {
    seq(|sts|, i requires 0 <= i < |sts| => sts[i].start)
  }

  /** `build_program_str`: the weekly schedule string of the showtimes'
      start times; the engine's week-check error comes back unchanged. */
  function BuildProgram(sts: seq<Showtime>): (r: Result<string, WeekError>)
    ensures StartDates(SchedulesOf(sts)) == ShowtimeDates(sts)
    ensures r.Failure? <==> CheckWithinWeek(ShowtimeDates(sts)).Failure?
    ensures r.Failure? ==> r.error == CheckWithinWeek(ShowtimeDates(sts)).error
    ensures r == BuildWeekly(SchedulesOf(sts))
    ensures r.Success? && SomeTimeEveryDay(SchedulesOf(sts)) ==> r.value == Join(", ", TimeTexts(SchedulesOf(sts)))
    ensures r.Success? && !SomeTimeEveryDay(SchedulesOf(sts)) ==> r.value == Join("; ", GroupTexts(Groups(SchedulesOf(sts))))
  {
    assert StartDates(SchedulesOf(sts)) == ShowtimeDates(sts);
    BuildWeekly(SchedulesOf(sts))
  }

  /** The program depends on the start times alone: films and end times do
      not matter. */
  lemma BuildProgramOnlyStarts(a: seq<Showtime>, b: seq<Showtime>)
    requires StartTimesOf(a) == StartTimesOf(b)
    ensures BuildProgram(a) == BuildProgram(b)
  {
    assert |a| == |StartTimesOf(a)|;
    assert SchedulesOf(a) == SchedulesOf(b) by {
      forall i | 0 <= i < |a|
        ensures SchedulesOf(a)[i] == SchedulesOf(b)[i]
      {
        assert StartTimesOf(a)[i] == StartTimesOf(b)[i];
      }
    }
  }
}
