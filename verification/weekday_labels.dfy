/** `create_weekdays_str`: the compact French label naming the weekdays on
    which one showtime recurs.  The empty label means "every day"; up to
    four days are listed; five or six days are written as `sf` ("sauf",
    except) followed by the missing days. */
module WeekdayLabels {
  import opened Calendar
  import opened Text
  import opened Seqs
  import opened Timing

  const ALL_WEEKDAYS: set<Weekday> := {0, 1, 2, 3, 4, 5, 6}

  /** The shape of a label, before it is printed. */
  datatype DayPattern = Everyday | Only(days: seq<Weekday>) | Except(days: seq<Weekday>)

  predicate WellFormed(p: DayPattern)
  {
    match p
    case Everyday => true
    case Only(days) => 0 < |days|
    case Except(days) => 0 < |days|
  }

  function WeekdaySet(ds: seq<Date>): set<Weekday>
  {
    set d | d in ds :: WeekdayOf(d)
  }

  /** The weekdays of the distinct dates, in ascending date order. */
  function WeekdaysInDateOrder(ds: seq<Date>): (ws: seq<Weekday>)
    ensures |ws| == |Elements(ds)|
    ensures Elements(ws) == WeekdaySet(ds)
  {
    var u := SortedUnique(ds);
    var ws := seq(|u|, i requires 0 <= i < |u| => WeekdayOf(u[i]));
    assert forall w :: w in ws <==> w in WeekdaySet(ds) by {
      forall w
        ensures w in ws <==> w in WeekdaySet(ds)
      {
        if w in ws {
          var i :| 0 <= i < |u| && ws[i] == w;
          assert u[i] in ds;
        }
        if w in WeekdaySet(ds) {
          var d :| d in ds && WeekdayOf(d) == w;
          assert d in u;
          var i :| 0 <= i < |u| && u[i] == d;
          assert ws[i] == w;
        }
      }
    }
    ws
  }

  /** Within one week, distinct dates have distinct weekdays. */
  lemma WeekdaysInDateOrderDistinct(ds: seq<Date>)
    requires WithinAWeek(ds)
    ensures NoDuplicates(WeekdaysInDateOrder(ds))
  {
    var u := SortedUnique(ds);
    var ws := WeekdaysInDateOrder(ds);
    forall i, j | 0 <= i < j < |ws|
      ensures ws[i] != ws[j]
    {
      assert u[i] < u[j];
      assert u[i] in ds && u[j] in ds;
      var a :| 0 <= a < |ds| && ds[a] == u[i];
      var b :| 0 <= b < |ds| && ds[b] == u[j];
      assert ds[b] - ds[a] < 7;
      if ws[i] == ws[j] {
        WeekdayInjectiveWithinWeek(u[i], u[j]);
      }
    }
  }

  /** Within one week the listed weekdays follow the dates: a weekday listed
      before another belongs to an earlier date, so Wednesday then the
      next Monday lists Wednesday first. */
  lemma WeekdaysFollowDates(ds: seq<Date>)
    requires WithinAWeek(ds)
    ensures var ws := WeekdaysInDateOrder(ds);
      forall i, j, a, b :: 0 <= i < j < |ws| && a in ds && b in ds && WeekdayOf(a) == ws[i] && WeekdayOf(b) == ws[j] ==> a < b
  {
    var u := SortedUnique(ds);
    var ws := WeekdaysInDateOrder(ds);
    forall i, j, a, b | 0 <= i < j < |ws| && a in ds && b in ds && WeekdayOf(a) == ws[i] && WeekdayOf(b) == ws[j]
      ensures a < b
    {
      SameWeekdaySameDate(ds, a, u[i]);
      SameWeekdaySameDate(ds, b, u[j]);
    }
  }

  /** Two dates of a one-week list on the same weekday are one date. */
  lemma SameWeekdaySameDate(ds: seq<Date>, a: Date, b: Date)
    requires WithinAWeek(ds)
    requires a in ds && b in ds && WeekdayOf(a) == WeekdayOf(b)
    ensures a == b
  {
    var x :| 0 <= x < |ds| && ds[x] == a;
    var y :| 0 <= y < |ds| && ds[y] == b;
    assert ds[x] - ds[y] < 7 && ds[y] - ds[x] < 7;
    WeekdayInjectiveWithinWeek(a, b);
  }

  /** Within one week, seven distinct dates are exactly the seven weekdays:
      counting distinct dates is counting distinct weekdays. */
  lemma SevenDatesAreEveryWeekday(ds: seq<Date>)
    requires WithinAWeek(ds)
    ensures |WeekdaySet(ds)| == |Elements(ds)|
    ensures |Elements(ds)| == 7 <==> WeekdaySet(ds) == ALL_WEEKDAYS
  {
    var ws := WeekdaysInDateOrder(ds);
    WeekdaysInDateOrderDistinct(ds);
    DistinctCardinality(ws);
    assert |ALL_WEEKDAYS| == 7;
    assert WeekdaySet(ds) <= ALL_WEEKDAYS;
    if |Elements(ds)| == 7 {
      SubsetOfSameSize(WeekdaySet(ds), ALL_WEEKDAYS);
    }
  }

  lemma SubsetOfSameSize<T>(a: set<T>, b: set<T>)
    requires a <= b && |a| == |b|
    ensures a == b
  {
    assert b == a + (b - a);
    assert |b| == |a| + |b - a|;
  }

  /** The weekdays absent from `present`, in ascending index order
      (`set(...).symmetric_difference(range(0, 7))` iterated). */
  function MissingWeekdays(present: set<Weekday>): (ws: seq<Weekday>)
    ensures StrictlyIncreasing(ws)
    ensures forall w: Weekday :: w in ws <==> w !in present
  {
    MissingFrom(0, present)
  }

  function MissingFrom(k: nat, present: set<Weekday>): (ws: seq<Weekday>)
    requires k <= 7
    ensures StrictlyIncreasing(ws)
    ensures forall i :: 0 <= i < |ws| ==> k <= ws[i]
    ensures forall w: Weekday :: w in ws <==> k <= w && w !in present
    decreases 7 - k
  {
    if k == 7 then []
    else if k in present then MissingFrom(k + 1, present)
    else [k] + MissingFrom(k + 1, present)
  }

  /** Sorts the dates of one showtime into a pattern, counting distinct
      dates as the source does. */
  function Classify(ds: seq<Date>): (p: DayPattern)
    ensures p.Everyday? <==> |Elements(ds)| == 7
    ensures p.Only? <==> |Elements(ds)| <= 4
    ensures p.Only? ==> p.days == WeekdaysInDateOrder(ds)
    ensures p.Except? ==> StrictlyIncreasing(p.days)
    ensures p.Except? ==> forall w: Weekday :: w in p.days <==> w !in WeekdaySet(ds)
    ensures 0 < |ds| && |Elements(ds)| < 7 ==> WellFormed(p)
  {
    var n := |Elements(ds)|;
    if n == 7 then Everyday
    else if n <= 4 then
      assert 0 < |ds| ==> ds[0] in Elements(ds);
      Only(WeekdaysInDateOrder(ds))
    else
      if n < 7 then
        SomeWeekdayMissing(ds);
        Except(MissingWeekdays(WeekdaySet(ds)))
      else
        Except(MissingWeekdays(WeekdaySet(ds)))
  }

  /** Fewer than seven distinct dates leave some weekday out. */
  lemma SomeWeekdayMissing(ds: seq<Date>)
    requires |Elements(ds)| < 7
    ensures 0 < |MissingWeekdays(WeekdaySet(ds))|
  {
    var ws := WeekdaysInDateOrder(ds);
    ElementsAtMostLength(ws);
    var present := WeekdaySet(ds);
    assert |present| < 7;
    assert |ALL_WEEKDAYS| == 7;
    assert present <= ALL_WEEKDAYS;
    var diff := ALL_WEEKDAYS - present;
    assert ALL_WEEKDAYS == present + diff;
    assert |diff| > 0;
    var w :| w in diff;
    assert w in MissingWeekdays(present);
  }

  lemma {:induction false} ElementsAtMostLength<T>(s: seq<T>)
    ensures |Elements(s)| <= |s|
    decreases |s|
  {
    if |s| > 0 {
      ElementsAtMostLength(s[1..]);
      assert Elements(s) == {s[0]} + Elements(s[1..]);
    }
  }

  function NamesOf(ws: seq<Weekday>): seq<string>
  {
    seq(|ws|, i requires 0 <= i < |ws| => ShortWeekday(ws[i]))
  }

  /** Three-letter names joined by `", "`. */
  function JoinNames(ws: seq<Weekday>): string
  {
    Join(", ", NamesOf(ws))
  }

  function RenderPattern(p: DayPattern): string
  {
    match p
    case Everyday => ""
    case Only(days) => JoinNames(days)
    case Except(days) => "sf " + JoinNames(days)
  }

  /** `create_weekdays_str`. */
  function WeekdaysLabel(ds: seq<Date>): (r: string)
    ensures 0 < |ds| ==> (r == "" <==> |Elements(ds)| == 7)
    ensures 1 <= |Elements(ds)| <= 4 ==> r == JoinNames(WeekdaysInDateOrder(ds))
    ensures 5 <= |Elements(ds)| && |Elements(ds)| != 7 ==> r == "sf " + JoinNames(MissingWeekdays(WeekdaySet(ds)))
  {
    var p := Classify(ds);
    assert 0 < |ds| && p.Only? ==> RenderPattern(p) != "" by {
      if 0 < |ds| && p.Only? {
        JoinNamesShape(p.days);
      }
    }
    RenderPattern(p)
  }

  /** A list of `k` names prints as `5k - 2` characters: the first name,
      then `", "` and the rest. */
  lemma {:induction false} JoinNamesShape(ws: seq<Weekday>)
    requires 0 < |ws|
    ensures |JoinNames(ws)| == 5 * |ws| - 2
    ensures JoinNames(ws)[..3] == ShortWeekday(ws[0])
    ensures 1 < |ws| ==> JoinNames(ws)[3..5] == ", " && JoinNames(ws)[5..] == JoinNames(ws[1..])
    decreases |ws|
  {
    var names := NamesOf(ws);
    if |ws| > 1 {
      assert names[1..] == NamesOf(ws[1..]);
      JoinNamesShape(ws[1..]);
      assert JoinNames(ws) == names[0] + ", " + JoinNames(ws[1..]);
    }
  }

  /** Printed name lists identify the weekdays they list. */
  lemma {:induction false} JoinNamesInjective(a: seq<Weekday>, b: seq<Weekday>)
    requires 0 < |a| && 0 < |b|
    requires JoinNames(a) == JoinNames(b)
    ensures a == b
    decreases |a|
  {
    JoinNamesShape(a);
    JoinNamesShape(b);
    ShortWeekdayInjective(a[0], b[0]);
    if |a| > 1 {
      JoinNamesInjective(a[1..], b[1..]);
      assert a == [a[0]] + a[1..];
      assert b == [b[0]] + b[1..];
    }
  }

  /** Different patterns never print alike: a label can be read back. */
  lemma RenderPatternInjective(p: DayPattern, q: DayPattern)
    requires WellFormed(p) && WellFormed(q)
    requires RenderPattern(p) == RenderPattern(q)
    ensures p == q
  {
    match p {
      case Everyday =>
        if q.Only? || q.Except? {
          JoinNamesShape(q.days);
        }
      case Only(a) =>
        JoinNamesShape(a);
        match q {
          case Everyday =>
          case Only(b) => JoinNamesInjective(a, b);
          case Except(b) =>
        }
      case Except(a) =>
        JoinNamesShape(a);
        match q {
          case Everyday =>
          case Only(b) =>
            JoinNamesShape(b);
          case Except(b) =>
            assert JoinNames(a) == RenderPattern(p)[3..] == RenderPattern(q)[3..] == JoinNames(b);
            JoinNamesInjective(a, b);
        }
    }
  }

  /** Within one week, two date lists that print the same label fall on the
      same weekdays. */
  lemma LabelDeterminesWeekdays(a: seq<Date>, b: seq<Date>)
    requires 0 < |a| && 0 < |b|
    requires WithinAWeek(a) && WithinAWeek(b)
    requires WeekdaysLabel(a) == WeekdaysLabel(b)
    ensures WeekdaySet(a) == WeekdaySet(b)
  {
    var p := Classify(a);
    var q := Classify(b);
    WellFormedWithinAWeek(a);
    WellFormedWithinAWeek(b);
    RenderPatternInjective(p, q);
    SevenDatesAreEveryWeekday(a);
    SevenDatesAreEveryWeekday(b);
    if p.Only? {
      assert Elements(WeekdaysInDateOrder(a)) == Elements(WeekdaysInDateOrder(b));
    } else if p.Except? {
      forall w: Weekday
        ensures w in WeekdaySet(a) <==> w in WeekdaySet(b)
      {
        assert w in p.days <==> w in q.days;
      }
    }
  }

  /** Within one week there are at most seven distinct dates, so the
      pattern is well formed. */
  lemma WellFormedWithinAWeek(ds: seq<Date>)
    requires 0 < |ds| && WithinAWeek(ds)
    ensures |Elements(ds)| <= 7
    ensures WellFormed(Classify(ds))
  {
    SevenDatesAreEveryWeekday(ds);
    assert |ALL_WEEKDAYS| == 7;
    assert WeekdaySet(ds) <= ALL_WEEKDAYS;
    var rest := ALL_WEEKDAYS - WeekdaySet(ds);
    assert ALL_WEEKDAYS == WeekdaySet(ds) + rest;
    assert |ALL_WEEKDAYS| == |WeekdaySet(ds)| + |rest|;
  }

  /** The source's own docstring example: Wednesday then the following
      Monday reads "Mer, Lun", in date order. */
  lemma WednesdayThenMondayExample()
    ensures WeekdaysLabel([2, 7]) == "Mer, Lun"
  {
    var ds := [2, 7];
    assert Elements(ds) == {2, 7};
    assert |Elements(ds)| == 2;
    assert SortedUnique([7]) == [7];
    assert SortedUnique(ds) == [2, 7];
    var ws := WeekdaysInDateOrder(ds);
    assert ws == [2, 0];
    assert NamesOf(ws) == ["Mer", "Lun"];
    assert Join(", ", ["Mer", "Lun"]) == "Mer, Lun";
  }

  /** Monday to Friday reads "sf Sam, Dim". */
  lemma MondayToFridayExample()
    ensures WeekdaysLabel([0, 1, 2, 3, 4]) == "sf Sam, Dim"
  {
    var ds := [0, 1, 2, 3, 4];
    WorkweekDates();
    WorkweekMissing();
    var r := WeekdaysLabel(ds);
    assert r == "sf " + JoinNames(MissingWeekdays(WeekdaySet(ds)));
    assert r == "sf " + JoinNames([5, 6]);
    assert NamesOf([5, 6]) == ["Sam", "Dim"];
    assert Join(", ", ["Sam", "Dim"]) == "Sam, Dim";
  }

  lemma WorkweekDates()
    ensures |Elements([0, 1, 2, 3, 4])| == 5
    ensures WeekdaySet([0, 1, 2, 3, 4]) == {0, 1, 2, 3, 4}
  {
    var ds := [0, 1, 2, 3, 4];
    assert Elements(ds) == {0, 1, 2, 3, 4};
    assert forall d :: d in ds ==> WeekdayOf(d) == d;
    assert WeekdayOf(ds[0]) in WeekdaySet(ds);
    assert WeekdayOf(ds[1]) in WeekdaySet(ds);
    assert WeekdayOf(ds[2]) in WeekdaySet(ds);
    assert WeekdayOf(ds[3]) in WeekdaySet(ds);
    assert WeekdayOf(ds[4]) in WeekdaySet(ds);
  }

  lemma WorkweekMissing()
    ensures MissingWeekdays({0, 1, 2, 3, 4}) == [5, 6]
  {
    var present: set<Weekday> := {0, 1, 2, 3, 4};
    assert MissingFrom(7, present) == [];
    assert MissingFrom(6, present) == [6];
    assert MissingFrom(5, present) == [5, 6];
    assert MissingFrom(4, present) == [5, 6];
    assert MissingFrom(3, present) == [5, 6];
    assert MissingFrom(2, present) == [5, 6];
    assert MissingFrom(1, present) == [5, 6];
  }
}
