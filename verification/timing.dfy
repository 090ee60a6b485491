/** The French formatters of `helpers/timing.py` (the same helpers are
    repeated in `allocine/__init__.py`). */
module Timing {
  import opened Results
  import opened Text
  import opened Calendar

  const FULL_WEEKDAYS: seq<string> :=
    ["Lundi", "Mardi", "Mercredi", "Jeudi", "Vendredi", "Samedi", "Dimanche"]

  /** The month table of `helpers/timing.py`, whose accented names are stored
      double-encoded; they are kept as they are written. */
  const MONTHS: seq<string> :=
    ["Janvier", "FÃ©vrier", "Mars", "Avril", "Mai", "Juin", "Juillet",
     "AoÃ»t", "Septembre", "Octobre", "Novembre", "DÃ©cembre"]

  /** The month table of `allocine/__init__.py`. */
  const ALLOCINE_MONTHS: seq<string> :=
    ["Janvier", "Février", "Mars", "Avril", "Mai", "Juin", "Juillet",
     "Août", "Septembre", "Octobre", "Novembre", "Décembre"]

  /** Python's `s[i]` on a list: negative indices count from the end, and an
      index outside `-|s| .. |s|-1` raises `IndexError` (here `None`). */
  function PyIndex<T>(s: seq<T>, i: int): (r: Option<T>)
    ensures r.Some? <==> -|s| <= i < |s|
    ensures 0 <= i < |s| ==> r == Some(s[i])
    ensures -|s| <= i < 0 ==> r == Some(s[|s| + i])
  {
    if 0 <= i < |s| then Some(s[i])
    else if -|s| <= i < 0 then Some(s[|s| + i])
    else None
  }

  /** `to_french_weekday`. */
  function FrenchWeekday(i: int): (r: Option<string>)
    ensures 0 <= i < 7 ==> r == Some(WeekdayName(i))
    ensures -7 <= i < 0 ==> r == Some(WeekdayName(i + 7))
    ensures r.Some? <==> -7 <= i < 7
  {
    PyIndex(FULL_WEEKDAYS, i)
  }

  function WeekdayName(w: Weekday): string
  {
    FULL_WEEKDAYS[w]
  }

  /** The three-letter name of a weekday: the first three letters of its
      full name. */
  function ShortWeekday(w: Weekday): (r: string)
    ensures |r| == 3
    ensures r == ["Lun", "Mar", "Mer", "Jeu", "Ven", "Sam", "Dim"][w]
  {
    WeekdayName(w)[..3]
  }

  /** A printed three-letter name identifies its weekday. */
  lemma ShortWeekdayInjective(a: Weekday, b: Weekday)
    requires ShortWeekday(a) == ShortWeekday(b)
    ensures a == b
  {
  }

  /** `to_french_short_weekday`: the full name cut to three letters. */
  function FrenchShortWeekday(i: int): (r: Option<string>)
    ensures 0 <= i < 7 ==> r == Some(ShortWeekday(i))
    ensures -7 <= i < 0 ==> r == Some(ShortWeekday(i + 7))
    ensures r.Some? <==> -7 <= i < 7
  {
    match FrenchWeekday(i)
    case None => None
    case Some(name) => Some(if |name| < 3 then name else name[..3])
  }

  /** `get_french_month` of `helpers/timing.py`. */
  function FrenchMonth(n: int): (r: Option<string>)
    ensures 1 <= n <= 12 ==> r == Some(MONTHS[n - 1])
    ensures -11 <= n <= 0 ==> r == Some(MONTHS[n + 11])
    ensures r.Some? <==> -11 <= n <= 12
  {
    PyIndex(MONTHS, n - 1)
  }

  /** `get_french_month` of `allocine/__init__.py`. */
  function AllocineFrenchMonth(n: int): (r: Option<string>)
    ensures 1 <= n <= 12 ==> r == Some(ALLOCINE_MONTHS[n - 1])
    ensures -11 <= n <= 0 ==> r == Some(ALLOCINE_MONTHS[n + 11])
    ensures r.Some? <==> -11 <= n <= 12
  {
    PyIndex(ALLOCINE_MONTHS, n - 1)
  }

  /** `get_hour_short_str`: `strftime("%-Hh%M")` followed by
      `.replace("h00", "h")`. */
  function HourShort(t: ClockTime): (r: string)
    ensures r == NatToString(t.hour) + "h" + (if t.minute == 0 then "" else Pad2(t.minute))
  {
    var hs := NatToString(t.hour);
    var tail := "h" + Pad2(t.minute);
    assert hs + tail == hs + "h" + Pad2(t.minute);
    ReplaceSkipsPrefix(hs, tail, "h00", "h");
    if t.minute == 0 then
      assert tail[..3] == "h00";
      assert tail[3..] == "";
      Replace(hs + tail, "h00", "h")
    else
      assert ParseNat("00") == 0;
      assert Pad2(t.minute) != "00";
      assert tail[..3][1..] == Pad2(t.minute);
      assert tail[..3] != "h00";
      assert Replace(tail[1..], "h00", "h") == tail[1..];
      assert tail[1..] == Pad2(t.minute);
      Replace(hs + tail, "h00", "h")
  }

  function MakeClockTime(h: nat, m: nat): Option<ClockTime>
  {
    if h < 24 && m < 60 then Some(Time(h, m)) else None
  }

  /** Reads back a `get_hour_short_str` rendering: hour digits, `h`, then
      nothing (zero minutes) or two minute digits. */
  function ParseHourShort(s: string): Option<ClockTime>
  {
    var k := IndexOf(s, 'h');
    if k == 0 || k == |s| then None
    else
      var hs := s[..k];
      var ms := s[k + 1..];
      if !AllDigits(hs) then None
      else if ms == "" then MakeClockTime(ParseNat(hs), 0)
      else if |ms| == 2 && AllDigits(ms) then MakeClockTime(ParseNat(hs), ParseNat(ms))
      else None
  }

  /** The short rendering of a time can be read back, so two different
      times never print alike. */
  lemma ParseHourShortRoundTrip(t: ClockTime)
    ensures ParseHourShort(HourShort(t)) == Some(t)
  {
    var hs := NatToString(t.hour);
    var s := HourShort(t);
    var k := IndexOf(s, 'h');
    assert s[|hs|] == 'h';
    assert forall i :: 0 <= i < |hs| ==> s[i] == hs[i] && s[i] != 'h';
    assert k == |hs|;
    assert s[..k] == hs;
    ParseNatToString(t.hour);
  }

  lemma HourShortInjective(a: ClockTime, b: ClockTime)
    requires HourShort(a) == HourShort(b)
    ensures a == b
  {
    ParseHourShortRoundTrip(a);
    ParseHourShortRoundTrip(b);
  }

  /** `Schedule.hour_str`: `strftime("%H:%M")`. */
  function HourStr(t: ClockTime): (r: string)
    ensures |r| == 5 && r[2] == ':'
    ensures AllDigits(r[..2]) && AllDigits(r[3..])
    ensures ParseNat(r[..2]) == t.hour && ParseNat(r[3..]) == t.minute
  {
    var r := Pad2(t.hour) + ":" + Pad2(t.minute);
    assert r[..2] == Pad2(t.hour);
    assert r[3..] == Pad2(t.minute);
    r
  }

  /** `day_str`: the full French name of the date's weekday. */
  function DayStr(d: Date): (r: string)
    ensures FrenchWeekday(WeekdayOf(d)) == Some(r)
  {
    FULL_WEEKDAYS[WeekdayOf(d)]
  }

  /** `short_day_str`: the first three letters of `day_str`. */
  function ShortDayStr(d: Date): (r: string)
    ensures r == ShortWeekday(WeekdayOf(d))
    ensures FrenchShortWeekday(WeekdayOf(d)) == Some(r)
  {
    DayStr(d)[..3]
  }
}
