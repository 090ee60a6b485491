/** Whole-engine facts and worked examples for `build_weekly_schedule_str`. */
module WeeklyExamples {
  import opened Results
  import opened Text
  import opened Calendar
  import opened Seqs
  import opened Timing
  import opened WeekdayLabels
  import opened WeekCheck
  import opened WeeklySchedule

  /** Inside an accepted week, a time runs on seven distinct dates exactly
      when it runs on every weekday, so the time-led layout is chosen
      exactly when some time covers the whole week. */
  lemma EverydayMeansEveryWeekday(ss: seq<Schedule>)
    requires CheckWithinWeek(StartDates(ss)).Success?
    ensures SomeTimeEveryDay(ss) <==>
      exists t :: t in StartHours(ss) && WeekdaySet(DatesAt(ss, t)) == ALL_WEEKDAYS
  {
    forall t | t in StartHours(ss)
      ensures |Elements(DatesAt(ss, t))| == 7 <==> WeekdaySet(DatesAt(ss, t)) == ALL_WEEKDAYS
    {
      DatesAtWithinAWeek(ss, t);
      SevenDatesAreEveryWeekday(DatesAt(ss, t));
    }
  }

  /** The dates of one time lie within the span of all the dates. */
  lemma DatesAtWithinAWeek(ss: seq<Schedule>, t: ClockTime)
    requires WithinAWeek(StartDates(ss))
    ensures WithinAWeek(DatesAt(ss, t))
  {
    var all := StartDates(ss);
    var ds := DatesAt(ss, t);
    forall d | d in ds
      ensures d in all
    {
      assert DateTime(d, t) in StartsOf(ss);
      var i :| 0 <= i < |ss| && StartsOf(ss)[i] == DateTime(d, t);
      assert all[i] == d;
    }
    forall i, j | 0 <= i < |ds| && 0 <= j < |ds|
      ensures ds[i] - ds[j] < 7
    {
      assert ds[i] in ds && ds[j] in ds;
      var k :| 0 <= k < |all| && all[k] == ds[i];
      var m :| 0 <= m < |all| && all[m] == ds[j];
    }
  }

  /** When every showtime starts at the same time `t`, the dates at `t`
      are all the dates. */
  lemma {:induction false} DatesAtSingleTime(ss: seq<Schedule>, t: ClockTime)
    requires forall i :: 0 <= i < |ss| ==> HourOf(ss[i]) == t
    ensures DatesAt(ss, t) == StartDates(ss)
    decreases |ss|
  {
    if |ss| > 0 {
      DatesAtSingleTime(ss[1..], t);
      assert StartDates(ss) == [DateOf(ss[0])] + StartDates(ss[1..]);
    }
  }

  /** When every showtime starts at `t`, there is one group holding `t`. */
  lemma SingleTimeOneGroup(ss: seq<Schedule>, t: ClockTime)
    requires 0 < |ss|
    requires forall i :: 0 <= i < |ss| ==> HourOf(ss[i]) == t
    ensures Groups(ss) == [Group(LabelAt(ss, t), [t])]
  {
    SingleStartHour(ss, t);
    var gs := Groups(ss);
    SingleLabel(ss, t);
    OnlyEntry(LabelsOf(gs), LabelAt(ss, t));
    var g := gs[0];
    assert g in gs;
    assert forall u :: u in g.times ==> u == t;
    StrictlySortedNoDuplicates(g.times, ClockOrder);
    OnlyEntry(g.times, t);
  }

  lemma SingleStartHour(ss: seq<Schedule>, t: ClockTime)
    requires 0 < |ss|
    requires forall i :: 0 <= i < |ss| ==> HourOf(ss[i]) == t
    ensures forall u :: u in StartHours(ss) <==> u == t
  {
    assert StartHours(ss)[0] == t;
  }

  lemma SingleLabel(ss: seq<Schedule>, t: ClockTime)
    requires forall u :: u in StartHours(ss) <==> u == t
    ensures LabelAt(ss, t) in LabelsOf(Groups(ss))
    ensures forall l :: l in LabelsOf(Groups(ss)) ==> l == LabelAt(ss, t)
  {
    var gs := Groups(ss);
    assert t in StartHours(ss);
    var g :| g in gs && g.days == LabelAt(ss, t) && t in g.times;
    var j :| 0 <= j < |gs| && gs[j] == g;
    assert LabelsOf(gs)[j] == LabelAt(ss, t);
    forall i | 0 <= i < |gs|
      ensures LabelsOf(gs)[i] == LabelAt(ss, t)
    {
      GroupDaysFromFirstTime(ss, gs[i]);
    }
  }

  lemma GroupDaysFromFirstTime(ss: seq<Schedule>, g: Group)
    requires g in Groups(ss)
    ensures g.days == LabelAt(ss, g.times[0])
    ensures g.times[0] in StartHours(ss)
  {
    assert g.times[0] in g.times;
  }

  /** A duplicate-free sequence holding `x` and nothing else is `[x]`. */
  lemma OnlyEntry<T>(s: seq<T>, x: T)
    requires NoDuplicates(s)
    requires x in s && forall y :: y in s ==> y == x
    ensures s == [x]
  {
    DistinctCardinality(s);
    assert Elements(s) == {x};
    assert s[0] in s;
  }

  /** 21:00 from Wednesday (day 2) to Sunday (day 6). */
  function WednesdayToSundayAtNine(): seq<Schedule>
  {
    seq(5, i requires 0 <= i < 5 => NewSchedule(DateTime(2 + i, Time(21, 0)), None))
  }

  /** One showing time on five days prints label first:
      "sf Lun, Mar 21h". */
  lemma SingleEveningExample()
    ensures BuildWeekly(WednesdayToSundayAtNine()) == Success("sf Lun, Mar 21h")
  {
    var ss := WednesdayToSundayAtNine();
    var t: ClockTime := Time(21, 0);
    EveningShape();
    WednesdayToSundayAccepted();
    EveningNotEveryDay();
    SingleTimeOneGroup(ss, t);
    EveningLabel();
    EveningText();
    var r := BuildWeekly(ss);
    assert r.Success?;
    assert r.value == GroupText(Groups(ss)[0]);
  }

  lemma EveningShape()
    ensures StartDates(WednesdayToSundayAtNine()) == [2, 3, 4, 5, 6]
    ensures forall i :: 0 <= i < |WednesdayToSundayAtNine()| ==> HourOf(WednesdayToSundayAtNine()[i]) == Time(21, 0)
    ensures |WednesdayToSundayAtNine()| == 5
  {
  }

  lemma EveningLabel()
    ensures LabelAt(WednesdayToSundayAtNine(), Time(21, 0)) == "sf Lun, Mar"
  {
    EveningShape();
    DatesAtSingleTime(WednesdayToSundayAtNine(), Time(21, 0));
    WednesdayToSundayLabel();
  }

  lemma EveningNotEveryDay()
    ensures !SomeTimeEveryDay(WednesdayToSundayAtNine())
  {
    var ss := WednesdayToSundayAtNine();
    var t: ClockTime := Time(21, 0);
    EveningShape();
    SingleStartHour(ss, t);
    DatesAtSingleTime(ss, t);
    WednesdayToSundayDates();
  }

  lemma EveningText()
    ensures GroupText(Group("sf Lun, Mar", [Time(21, 0)])) == "sf Lun, Mar 21h"
  {
    var t: ClockTime := Time(21, 0);
    assert NatToString(21) == "21";
    assert HourShort(t) == "21h";
    assert HoursText([t]) == "21h";
  }

  lemma WednesdayToSundayAccepted()
    ensures CheckWithinWeek([2, 3, 4, 5, 6]) == Success(true)
  {
    var ds := [2, 3, 4, 5, 6];
    assert WeekdayOf(2) == WEDNESDAY && forall d :: d in ds ==> 2 <= d <= 8;
    ExhibitionWeekAccepted(ds);
  }

  lemma WednesdayToSundayLabel()
    ensures WeekdaysLabel([2, 3, 4, 5, 6]) == "sf Lun, Mar"
  {
    var ds := [2, 3, 4, 5, 6];
    WednesdayToSundayDates();
    WednesdayToSundayMissing();
    var r := WeekdaysLabel(ds);
    assert r == "sf " + JoinNames(MissingWeekdays(WeekdaySet(ds)));
    assert r == "sf " + JoinNames([0, 1]);
    assert NamesOf([0, 1]) == ["Lun", "Mar"];
    assert Join(", ", ["Lun", "Mar"]) == "Lun, Mar";
  }

  lemma WednesdayToSundayDates()
    ensures |Elements([2, 3, 4, 5, 6])| == 5
    ensures WeekdaySet([2, 3, 4, 5, 6]) == {2, 3, 4, 5, 6}
  {
    var ds := [2, 3, 4, 5, 6];
    assert Elements(ds) == {2, 3, 4, 5, 6};
    assert forall d :: d in ds ==> WeekdayOf(d) == d;
    assert WeekdayOf(ds[0]) in WeekdaySet(ds);
    assert WeekdayOf(ds[1]) in WeekdaySet(ds);
    assert WeekdayOf(ds[2]) in WeekdaySet(ds);
    assert WeekdayOf(ds[3]) in WeekdaySet(ds);
    assert WeekdayOf(ds[4]) in WeekdaySet(ds);
  }

  lemma WednesdayToSundayMissing()
    ensures MissingWeekdays({2, 3, 4, 5, 6}) == [0, 1]
  {
    var present: set<Weekday> := {2, 3, 4, 5, 6};
    assert MissingFrom(7, present) == [];
    assert MissingFrom(6, present) == [];
    assert MissingFrom(5, present) == [];
    assert MissingFrom(4, present) == [];
    assert MissingFrom(3, present) == [];
    assert MissingFrom(2, present) == [];
    assert MissingFrom(1, present) == [1];
  }
}
