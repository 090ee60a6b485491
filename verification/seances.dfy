/** The helpers of the two command-line tools, `app/main.py` (the
    `get_showings` generator) and `seances.py` (the click command):
    showtime and card eligibility, the per-film rows of a day's table, and
    the list of days to show. */
module Seances {
  import opened Results
  import opened Text
  import opened Calendar
  import opened Seqs
  import opened Timing
  import opened Movies
  import opened Showtimes
  import opened Cinemas
  import opened Rows

  /** `parse_hour_as_datetime`: a bound given as a clock time becomes that
      time on day `jour`; no bound stays none. */
  function ParseHourAsDatetime(jour: Date, time: Option<ClockTime>): Option<DateTime>
  {
    if time.None? then None else Some(DateTime(jour, time.value))
  }

  /** `check_showtime_eligibility` (the same in both tools): the showtime
      starts strictly after the earliest bound and, when it has an end,
      ends strictly before the latest bound; a missing bound imposes
      nothing. */
  predicate Eligible(st: Showtime, jour: Date, earliest: Option<ClockTime>, latest: Option<ClockTime>)
  {
    var start := ParseHourAsDatetime(jour, earliest);
    var end := ParseHourAsDatetime(jour, latest);
    (start.None? || DateTimeBefore(start.value, st.start))
    && (end.None? || st.end.None? || DateTimeBefore(st.end.value, end.value))
  }

  /** `check_showtime_eligibility`, stated on minute counts: the start lies
      after the earliest bound, and a known end lies before the latest. */
  function CheckShowtimeEligibility(st: Showtime, jour: Date, earliest: Option<ClockTime>, latest: Option<ClockTime>): (ok: bool)
    ensures ok <==>
      (earliest.None? || AbsoluteMinutes(DateTime(jour, earliest.value)) < AbsoluteMinutes(st.start))
      && (latest.None? || st.end.None? || AbsoluteMinutes(st.end.value) < AbsoluteMinutes(DateTime(jour, latest.value)))
  {
    EligibleOnMinutes(st, jour, earliest, latest);
    Eligible(st, jour, earliest, latest)
  }

  lemma EligibleOnMinutes(st: Showtime, jour: Date, earliest: Option<ClockTime>, latest: Option<ClockTime>)
    ensures Eligible(st, jour, earliest, latest) <==>
      (earliest.None? || AbsoluteMinutes(DateTime(jour, earliest.value)) < AbsoluteMinutes(st.start))
      && (latest.None? || st.end.None? || AbsoluteMinutes(st.end.value) < AbsoluteMinutes(DateTime(jour, latest.value)))
  {
    if earliest.Some? {
      DateTimeBeforeIsAbsoluteOrder(DateTime(jour, earliest.value), st.start);
    }
    if latest.Some? && st.end.Some? {
      DateTimeBeforeIsAbsoluteOrder(st.end.value, DateTime(jour, latest.value));
    }
  }

  /** Bound `b` lets through at least what bound `a` does at the start:
      absent, or no later than `a`. */
  predicate NoLaterStart(b: Option<ClockTime>, a: Option<ClockTime>)
  {
    b.None? || (a.Some? && !ClockBefore(a.value, b.value))
  }

  /** Bound `b` lets through at least what bound `a` does at the end:
      absent, or no earlier than `a`. */
  predicate NoEarlierEnd(b: Option<ClockTime>, a: Option<ClockTime>)
  {
    b.None? || (a.Some? && !ClockBefore(b.value, a.value))
  }

  /** Widening the window keeps an eligible showtime eligible. */
  lemma EligibilityWidens(st: Showtime, jour: Date, e1: Option<ClockTime>, l1: Option<ClockTime>, e2: Option<ClockTime>, l2: Option<ClockTime>)
    requires Eligible(st, jour, e1, l1)
    requires NoLaterStart(e2, e1) && NoEarlierEnd(l2, l1)
    ensures Eligible(st, jour, e2, l2)
  {
    if e2.Some? {
      var a := DateTime(jour, e1.value);
      var b := DateTime(jour, e2.value);
      ClockBeforeIsMinuteOrder(e1.value, e2.value);
      DateTimeBeforeIsAbsoluteOrder(a, st.start);
      DateTimeBeforeIsAbsoluteOrder(b, st.start);
      assert AbsoluteMinutes(b) <= AbsoluteMinutes(a);
    }
    if l2.Some? && st.end.Some? {
      var a := DateTime(jour, l1.value);
      var b := DateTime(jour, l2.value);
      ClockBeforeIsMinuteOrder(l2.value, l1.value);
      DateTimeBeforeIsAbsoluteOrder(st.end.value, a);
      DateTimeBeforeIsAbsoluteOrder(st.end.value, b);
      assert AbsoluteMinutes(a) <= AbsoluteMinutes(b);
    }
  }

  /** The bounds are strict: a showtime starting exactly at the earliest
      bound, or ending exactly at the latest, is not eligible. */
  lemma EligibilityIsStrict(st: Showtime, l: Option<ClockTime>, e: Option<ClockTime>)
    ensures !Eligible(st, DayOf(st), Some(st.start.time), l)
    ensures st.end.Some? ==> !Eligible(st, st.end.value.date, e, Some(st.end.value.time))
  {
  }

  const UGC_CARD: string := "UGC"
  const UGC_UNLIMITED_CODE: int := 106002

  /** Some card of `cards` has code `code`. */
  predicate AcceptsCode(cards: seq<MemberCard>, code: int)
  {
    exists i :: 0 <= i < |cards| && cards[i].code == code
  }

  /** `check_card_eligibility` of `app/main.py`: only the UGC card can
      reject a cinema, when its cards are known and none is the unlimited
      UGC card. */
  function CardEligible(card: Option<string>, memberCards: Option<seq<MemberCard>>): (ok: bool)
    ensures !ok <==> card == Some(UGC_CARD) && memberCards.Some? && !AcceptsCode(memberCards.value, UGC_UNLIMITED_CODE)
  {
    if card.Some? && memberCards.Some? then
      if card.value == UGC_CARD then AcceptsCode(memberCards.value, UGC_UNLIMITED_CODE) else true
    else true
  }

  /** `check_card_eligibility` of `seances.py`: the same test without the
      guard on missing cards. */
  function CardEligibleCli(card: Option<string>, memberCards: seq<MemberCard>): (ok: bool)
    ensures !ok <==> card == Some(UGC_CARD) && !AcceptsCode(memberCards, UGC_UNLIMITED_CODE)
  {
    if card.Some? then
      if card.value == UGC_CARD then AcceptsCode(memberCards, UGC_UNLIMITED_CODE) else true
    else true
  }

  /** On a cinema whose cards are known, the two tools decide alike. */
  lemma CardChecksAgree(card: Option<string>, memberCards: seq<MemberCard>)
    ensures CardEligible(card, Some(memberCards)) == CardEligibleCli(card, memberCards)
  {
  }

  const TITLE_LIMIT: nat := 31

  /** Titles of 31 characters or more are cut to 31 and marked "...". */
  function TruncateTitle(t: string): (r: string)
    ensures |t| < TITLE_LIMIT ==> r == t
    ensures |t| >= TITLE_LIMIT ==> |r| == TITLE_LIMIT + 3 && r[..TITLE_LIMIT] == t[..TITLE_LIMIT] && r[TITLE_LIMIT..] == "..."
  {
    if |t| >= TITLE_LIMIT then t[..TITLE_LIMIT] + "..." else t
  }

  /** Cutting a cut title changes nothing. */
  lemma TruncateTitleIdempotent(t: string)
    ensures TruncateTitle(TruncateTitle(t)) == TruncateTitle(t)
  {
    if |t| >= TITLE_LIMIT {
      var r := TruncateTitle(t);
      assert r[..TITLE_LIMIT] + "..." == r;
    }
  }

  const FILM_COLUMN: string := "*1_film"
  const NOTE_COLUMN: string := "*2_note"

  /** `hour_str.split(":")[0]`: the text before the colon of `HH:MM`. */
  function HourKey(t: ClockTime): (k: string)
    ensures |k| == 2 && AllDigits(k) && ParseNat(k) == t.hour
  {
    var s := HourStr(t);
    assert IsDigit(s[..2][0]) && IsDigit(s[..2][1]);
    assert IndexOf(s, ':') == 2;
    s[..IndexOf(s, ':')]
  }

  /** Two showtimes share a cell exactly when they start in the same
      hour. */
  lemma HourKeysMatchHours(a: ClockTime, b: ClockTime)
    ensures HourKey(a) == HourKey(b) <==> a.hour == b.hour
  {
    if a.hour == b.hour {
      TwoDigitsInjective(HourKey(a), HourKey(b));
    }
  }

  /** Two two-digit strings with the same value are equal. */
  lemma TwoDigitsInjective(a: string, b: string)
    requires |a| == 2 && |b| == 2 && AllDigits(a) && AllDigits(b)
    requires ParseNat(a) == ParseNat(b)
    ensures a == b
  {
    assert a[..1][..0] == [] && b[..1][..0] == [];
    assert a[..1][0] == a[0] && b[..1][0] == b[0];
    assert ParseNat(a[..1]) == DigitValue(a[0]);
    assert ParseNat(b[..1]) == DigitValue(b[0]);
    assert ParseNat(a) == DigitValue(a[0]) * 10 + DigitValue(a[1]);
    assert ParseNat(b) == DigitValue(b[0]) * 10 + DigitValue(b[1]);
    DigitValueInjective(a[0], b[0]);
    DigitValueInjective(a[1], b[1]);
  }

  lemma DigitValueInjective(c: char, d: char)
    requires IsDigit(c) && IsDigit(d)
    requires DigitValue(c) == DigitValue(d)
    ensures c == d
  {
  }

  /** The film cell `"{title} ({version}) - {duration}"` and the note cell
      `"{rating}*"`; `ratingStr` stands for `rating_str`, whose float
      formatting is not modelled. */
  function HeaderRow(v: MovieVersion, ratingStr: MovieVersion -> string): (row: Row)
    ensures IsDict(row) && Keys(row) == [FILM_COLUMN, NOTE_COLUMN]
    ensures Get(row, FILM_COLUMN) == Some(TruncateTitle(v.title) + " (" + Version(v) + ") - " + DurationStr(GetMovie(v)))
    ensures Get(row, NOTE_COLUMN) == Some(ratingStr(v) + "*")
  {
    var row := [(FILM_COLUMN, TruncateTitle(v.title) + " (" + Version(v) + ") - " + DurationStr(GetMovie(v))),
                (NOTE_COLUMN, ratingStr(v) + "*")];
    assert Keys(row) == [FILM_COLUMN, NOTE_COLUMN];
    row
  }

  function StartHourKey(st: Showtime): string
  {
    HourKey(st.start.time)
  }

  /** The showtime loop: each showtime writes `cell(st)` under its hour
      key, a later showtime in the same hour overwriting an earlier one. */
  function AddCells(row: Row, sts: seq<Showtime>, cell: Showtime -> string): (r: Row)
    requires IsDict(row)
    ensures IsDict(r)
    ensures |row| <= |r| && Keys(r)[..|row|] == Keys(row)
    ensures forall k :: k in Keys(r) <==> k in Keys(row) || exists st :: st in sts && StartHourKey(st) == k
    decreases |sts|
  {
    if |sts| == 0 then row
    else
      var next := Put(row, StartHourKey(sts[0]), cell(sts[0]));
      var r := AddCells(next, sts[1..], cell);
      assert Keys(r)[..|row|] == Keys(next)[..|next|][..|row|];
      forall k
        ensures k in Keys(r) <==> k in Keys(row) || exists st :: st in sts && StartHourKey(st) == k
      {
        if exists st :: st in sts[1..] && StartHourKey(st) == k {
          var st :| st in sts[1..] && StartHourKey(st) == k;
          assert st in sts;
        }
        if exists st :: st in sts && StartHourKey(st) == k {
          var st :| st in sts && StartHourKey(st) == k;
          if st != sts[0] {
            assert st in sts[1..];
          }
        }
      }
      r
  }

  /** Keys no showtime writes keep their value. */
  lemma {:induction false} AddCellsKeepsOthers(row: Row, sts: seq<Showtime>, cell: Showtime -> string, k: string)
    requires IsDict(row)
    requires forall st :: st in sts ==> StartHourKey(st) != k
    ensures Get(AddCells(row, sts, cell), k) == Get(row, k)
    decreases |sts|
  {
    if |sts| > 0 {
      PutThenGet(row, StartHourKey(sts[0]), cell(sts[0]), k);
      AddCellsKeepsOthers(Put(row, StartHourKey(sts[0]), cell(sts[0])), sts[1..], cell, k);
    }
  }

  /** The cell of an hour holds the last showtime of that hour. */
  lemma {:induction false} AddCellsLastWins(row: Row, sts: seq<Showtime>, cell: Showtime -> string, i: nat)
    requires IsDict(row) && i < |sts|
    requires forall j :: i < j < |sts| ==> StartHourKey(sts[j]) != StartHourKey(sts[i])
    ensures Get(AddCells(row, sts, cell), StartHourKey(sts[i])) == Some(cell(sts[i]))
    decreases |sts|
  {
    var next := Put(row, StartHourKey(sts[0]), cell(sts[0]));
    if i == 0 {
      PutThenGet(row, StartHourKey(sts[0]), cell(sts[0]), StartHourKey(sts[0]));
      forall st | st in sts[1..]
        ensures StartHourKey(st) != StartHourKey(sts[0])
      {
        var j :| 0 <= j < |sts[1..]| && sts[1..][j] == st;
        assert sts[j + 1] == st;
      }
      AddCellsKeepsOthers(next, sts[1..], cell, StartHourKey(sts[0]));
    } else {
      forall j | i - 1 < j < |sts[1..]|
        ensures StartHourKey(sts[1..][j]) != StartHourKey(sts[1..][i - 1])
      {
        assert sts[1..][j] == sts[j + 1];
      }
      AddCellsLastWins(next, sts[1..], cell, i - 1);
    }
  }

  /** The hour cells never overwrite the film and note cells: an hour key
      has two characters, the column names seven. */
  lemma FilmRowKeepsHeaderCells(g: FilmShowtimes, ratingStr: MovieVersion -> string, cell: Showtime -> string)
    ensures Get(FilmRow(g, ratingStr, cell), FILM_COLUMN) == Some(TruncateTitle(g.film.title) + " (" + Version(g.film) + ") - " + DurationStr(GetMovie(g.film)))
    ensures Get(FilmRow(g, ratingStr, cell), NOTE_COLUMN) == Some(ratingStr(g.film) + "*")
  {
    assert |FILM_COLUMN| == 7 && |NOTE_COLUMN| == 7;
    AddCellsKeepsOthers(HeaderRow(g.film, ratingStr), g.showtimes, cell, FILM_COLUMN);
    AddCellsKeepsOthers(HeaderRow(g.film, ratingStr), g.showtimes, cell, NOTE_COLUMN);
  }

  /** A film row has a cell beyond the film and note columns exactly when
      it has a showtime. */
  lemma RowKeptIffShowtimes(v: MovieVersion, ratingStr: MovieVersion -> string, sts: seq<Showtime>, cell: Showtime -> string)
    ensures |AddCells(HeaderRow(v, ratingStr), sts, cell)| > 2 <==> 0 < |sts|
  {
    var header := HeaderRow(v, ratingStr);
    var r := AddCells(header, sts, cell);
    if 0 < |sts| {
      var k := StartHourKey(sts[0]);
      assert sts[0] in sts;
      assert k in Keys(r);
      assert Keys(r)[..2] == [FILM_COLUMN, NOTE_COLUMN];
      assert |k| == 2 && |FILM_COLUMN| == 7 && |NOTE_COLUMN| == 7;
      assert k !in Keys(r)[..2];
      assert Keys(r) == Keys(r)[..2] + Keys(r)[2..];
      assert k in Keys(r)[2..];
    }
  }

  /** A film with the showtimes to show for it (`FilmShowtimesGroup`). */
  datatype FilmShowtimes = FilmShowtimes(film: MovieVersion, showtimes: seq<Showtime>)

  function FilmRow(g: FilmShowtimes, ratingStr: MovieVersion -> string, cell: Showtime -> string): Row
  {
    AddCells(HeaderRow(g.film, ratingStr), g.showtimes, cell)
  }

  function HasShowtimes(g: FilmShowtimes): bool
  {
    0 < |g.showtimes|
  }

  /** The rows loop of `display_seances` (`app/main.py`) and of
      `get_showtime_table` (`seances.py`): a film's row is kept only when it
      holds more than the film and note cells. */
  function DisplaySeances(groups: seq<FilmShowtimes>, ratingStr: MovieVersion -> string, cell: Showtime -> string): (rows: seq<Row>)
    ensures |rows| == |Filter(groups, HasShowtimes)|
    ensures forall i :: 0 <= i < |rows| ==> rows[i] == FilmRow(Filter(groups, HasShowtimes)[i], ratingStr, cell)
    decreases |groups|
  {
    if |groups| == 0 then []
    else
      var row := FilmRow(groups[0], ratingStr, cell);
      var rest := DisplaySeances(groups[1..], ratingStr, cell);
      RowKeptIffShowtimes(groups[0].film, ratingStr, groups[0].showtimes, cell);
      PrependFilmRow(groups, ratingStr, cell, rest);
      if |row| > 2 then [row] + rest else rest
  }

  /** One turn of the rows loop keeps the rows equal to the film rows of
      the films with showtimes. */
  lemma PrependFilmRow(groups: seq<FilmShowtimes>, ratingStr: MovieVersion -> string, cell: Showtime -> string, rest: seq<Row>)
    requires 0 < |groups|
    requires |rest| == |Filter(groups[1..], HasShowtimes)|
    requires forall i :: 0 <= i < |rest| ==> rest[i] == FilmRow(Filter(groups[1..], HasShowtimes)[i], ratingStr, cell)
    ensures var t := if HasShowtimes(groups[0]) then [FilmRow(groups[0], ratingStr, cell)] + rest else rest;
      |t| == |Filter(groups, HasShowtimes)| &&
      forall i :: 0 <= i < |t| ==> t[i] == FilmRow(Filter(groups, HasShowtimes)[i], ratingStr, cell)
  {
    FilterUnfold(groups, HasShowtimes);
    var f := Filter(groups[1..], HasShowtimes);
    if HasShowtimes(groups[0]) {
      var t := [FilmRow(groups[0], ratingStr, cell)] + rest;
      assert Filter(groups, HasShowtimes) == [groups[0]] + f;
      forall i | 0 <= i < |t|
        ensures t[i] == FilmRow(Filter(groups, HasShowtimes)[i], ratingStr, cell)
      {
        if 0 < i {
          assert t[i] == rest[i - 1];
          assert ([groups[0]] + f)[i] == f[i - 1];
        }
      }
    } else {
      assert Filter(groups, HasShowtimes) == [] + f;
    }
  }

  /** The `is_showtime_eligible(showtime, date)` test at date `d`. */
  function EligibleOn(eligible: (Showtime, Date) -> bool, d: Date): Showtime -> bool
  {
    st => eligible(st, d)
  }

  /** One film's entry of `get_seance_data`: its showtimes on `d` that
      pass `eligible`, in input order. */
  function FilmGroup(c: Cinema, d: Date, eligible: (Showtime, Date) -> bool, v: MovieVersion): (g: FilmShowtimes)
    ensures g.film == v
    ensures g.showtimes == Filter(ShowtimesOfMovie(c, v, Some(d)), EligibleOn(eligible, d))
    ensures forall st :: st in g.showtimes <==> st in c.showtimes && SameVersion(st.movie, v) && DayOf(st) == d && eligible(st, d)
  {
    var sts := Filter(ShowtimesOfMovie(c, v, Some(d)), EligibleOn(eligible, d));
    FilterMembers(ShowtimesOfMovie(c, v, Some(d)), EligibleOn(eligible, d));
    FilmShowtimes(v, sts)
  }

  /** `get_seance_data` (`app/main.py`): for every film version shown on
      `d`, its showtimes that day passing `eligible`, in input order. */
  function SeanceData(c: Cinema, d: Date, eligible: (Showtime, Date) -> bool): (gs: seq<FilmShowtimes>)
    ensures |gs| == |MoviesAvailableForDay(c, d)|
    ensures forall i :: 0 <= i < |gs| ==> gs[i].film == MoviesAvailableForDay(c, d)[i]
    ensures forall i :: 0 <= i < |gs| ==> gs[i].showtimes == Filter(ShowtimesOfMovie(c, gs[i].film, Some(d)), EligibleOn(eligible, d))
  {
    FilmGroups(c, d, eligible, MoviesAvailableForDay(c, d))
  }

  /** The entries of `get_seance_data` for the films `films`, in order. */
  function FilmGroups(c: Cinema, d: Date, eligible: (Showtime, Date) -> bool, films: seq<MovieVersion>): (gs: seq<FilmShowtimes>)
    ensures |gs| == |films|
    ensures forall i :: 0 <= i < |gs| ==> gs[i].film == films[i]
    ensures forall i :: 0 <= i < |gs| ==> gs[i].showtimes == Filter(ShowtimesOfMovie(c, films[i], Some(d)), EligibleOn(eligible, d))
    ensures forall i :: 0 <= i < |gs| ==> gs[i] == FilmGroup(c, d, eligible, films[i])
  {
    seq(|films|, i requires 0 <= i < |films| => FilmGroup(c, d, eligible, films[i]))
  }

  /** A film's group holds exactly the eligible showtimes of that version
      on that day. */
  lemma SeanceDataMembers(c: Cinema, d: Date, eligible: (Showtime, Date) -> bool, i: nat, st: Showtime)
    requires i < |MoviesAvailableForDay(c, d)|
    ensures var g := SeanceData(c, d, eligible)[i];
      st in g.showtimes <==> st in c.showtimes && SameVersion(st.movie, g.film) && DayOf(st) == d && eligible(st, d)
  {
    assert SeanceData(c, d, eligible)[i] == FilmGroup(c, d, eligible, MoviesAvailableForDay(c, d)[i]);
  }

  /** One day's groups (`DayFilmShowtimes`). */
  datatype DaySeances = DaySeances(day: string, showings: seq<FilmShowtimes>)

  predicate NothingToShow(days: seq<DaySeances>)
  {
    forall i, j :: 0 <= i < |days| && 0 <= j < |days[i].showings| ==> !HasShowtimes(days[i].showings[j])
  }

  /** Some film of the day has a showtime to show. */
  predicate DayHasShowtimes(d: DaySeances)
  {
    exists j :: 0 <= j < |d.showings| && HasShowtimes(d.showings[j])
  }

  /** The day heading paired with the day's rows. */
  function DayRows(d: DaySeances, ratingStr: MovieVersion -> string): (string, seq<Row>)
  {
    (d.day, DisplaySeances(d.showings, ratingStr, StartCell))
  }

  /** The tables loop of `display_cinema` (`app/main.py`): each day with at
      least one row contributes its day and rows, in day order; a cinema
      with no such day is reported as having no eligible showings.  The
      source appends the day and the table as two list entries; here they
      are one pair. */
  function CinemaTables(days: seq<DaySeances>, ratingStr: MovieVersion -> string): (tables: seq<(string, seq<Row>)>)
    ensures |tables| == |Filter(days, DayHasShowtimes)|
    ensures forall i :: 0 <= i < |tables| ==> tables[i] == DayRows(Filter(days, DayHasShowtimes)[i], ratingStr)
    ensures forall t :: t in tables ==> 0 < |t.1|
    ensures |tables| == 0 <==> NothingToShow(days)
    decreases |days|
  {
    if |days| == 0 then []
    else
      var rows := DisplaySeances(days[0].showings, ratingStr, StartCell);
      var rest := CinemaTables(days[1..], ratingStr);
      CinemaTablesStep(days, ratingStr, rest);
      if |rows| > 0 then [(days[0].day, rows)] + rest else rest
  }

  /** One turn of the tables loop, from the tables of the later days. */
  lemma CinemaTablesStep(days: seq<DaySeances>, ratingStr: MovieVersion -> string, rest: seq<(string, seq<Row>)>)
    requires 0 < |days|
    requires |rest| == |Filter(days[1..], DayHasShowtimes)|
    requires forall i :: 0 <= i < |rest| ==> rest[i] == DayRows(Filter(days[1..], DayHasShowtimes)[i], ratingStr)
    requires forall t :: t in rest ==> 0 < |t.1|
    requires |rest| == 0 <==> NothingToShow(days[1..])
    ensures var rows := DisplaySeances(days[0].showings, ratingStr, StartCell);
      var t := if |rows| > 0 then [(days[0].day, rows)] + rest else rest;
      && |t| == |Filter(days, DayHasShowtimes)|
      && (forall i :: 0 <= i < |t| ==> t[i] == DayRows(Filter(days, DayHasShowtimes)[i], ratingStr))
      && (forall t' :: t' in t ==> 0 < |t'.1|)
      && (|t| == 0 <==> NothingToShow(days))
  {
    NoRowsIffNoShowtimes(days[0].showings, ratingStr, StartCell);
    NothingToShowSplit(days);
    RowsIffDayHasShowtimes(days[0], ratingStr);
    PrependDayRows(days, ratingStr, rest);
  }

  lemma RowsIffDayHasShowtimes(d: DaySeances, ratingStr: MovieVersion -> string)
    ensures 0 < |DisplaySeances(d.showings, ratingStr, StartCell)| <==> DayHasShowtimes(d)
  {
    NoRowsIffNoShowtimes(d.showings, ratingStr, StartCell);
  }

  /** One turn of the tables loop keeps the tables equal to the day rows of
      the days with something to show. */
  lemma PrependDayRows(days: seq<DaySeances>, ratingStr: MovieVersion -> string, rest: seq<(string, seq<Row>)>)
    requires 0 < |days|
    requires |rest| == |Filter(days[1..], DayHasShowtimes)|
    requires forall i :: 0 <= i < |rest| ==> rest[i] == DayRows(Filter(days[1..], DayHasShowtimes)[i], ratingStr)
    ensures var t := if DayHasShowtimes(days[0]) then [DayRows(days[0], ratingStr)] + rest else rest;
      |t| == |Filter(days, DayHasShowtimes)| &&
      forall i :: 0 <= i < |t| ==> t[i] == DayRows(Filter(days, DayHasShowtimes)[i], ratingStr)
  {
    FilterUnfold(days, DayHasShowtimes);
    var f := Filter(days[1..], DayHasShowtimes);
    if DayHasShowtimes(days[0]) {
      var t := [DayRows(days[0], ratingStr)] + rest;
      assert Filter(days, DayHasShowtimes) == [days[0]] + f;
      forall i | 0 <= i < |t|
        ensures t[i] == DayRows(Filter(days, DayHasShowtimes)[i], ratingStr)
      {
        if 0 < i {
          assert t[i] == rest[i - 1];
          assert ([days[0]] + f)[i] == f[i - 1];
        }
      }
    } else {
      assert Filter(days, DayHasShowtimes) == [] + f;
    }
  }

  lemma NothingToShowSplit(days: seq<DaySeances>)
    requires 0 < |days|
    ensures NothingToShow(days) <==> NothingToShow([days[0]]) && NothingToShow(days[1..])
  {
    if NothingToShow([days[0]]) && NothingToShow(days[1..]) {
      forall i, j | 0 <= i < |days| && 0 <= j < |days[i].showings|
        ensures !HasShowtimes(days[i].showings[j])
      {
        if i > 0 {
          assert days[i] == days[1..][i - 1];
        } else {
          assert days[i] == [days[0]][0];
        }
      }
    }
    if NothingToShow(days) {
      forall i, j | 0 <= i < |days[1..]| && 0 <= j < |days[1..][i].showings|
        ensures !HasShowtimes(days[1..][i].showings[j])
      {
        assert days[1..][i] == days[i + 1];
      }
    }
  }

  /** The cell `seances.py` writes: `"HH:MM - HH:MM"`, start and end.
      `ShowtimeTable` fails with `MissingEndTime` before any cell is made
      when a showtime has no end, so the empty end text is never used; it
      only makes the cell maker total, as `DisplaySeances` takes any
      `Showtime -> string`. */
  function SpanCell(st: Showtime): string
  {
    HourStr(st.start.time) + " - " + (if st.end.Some? then HourStr(st.end.value.time) else "")
  }

  /** The cell `app/main.py` writes: the start `HH:MM`. */
  function StartCell(st: Showtime): string
  {
    HourStr(st.start.time)
  }

  const NO_SHOWING: string := "Aucune séance"

  /** One day's output of `get_showtime_table` (`seances.py`): the day and
      "Aucune séance", or the day and the table of the rows under their
      sorted field names (the table rendering itself is not modelled). */
  datatype DayTable =
    | NoShowing(text: string)
    | ShowingTable(heading: string, fieldNames: seq<string>, rows: seq<Row>)

  /** `end_hour_str` on a showtime without an end fails. */
  datatype TableError = MissingEndTime

  predicate SomeShowtimeWithoutEnd(gs: seq<FilmShowtimes>)
  {
    exists i, st :: 0 <= i < |gs| && st in gs[i].showtimes && st.end.None?
  }

  /** `get_showtime_table` of `seances.py` for the day written `dayText`,
      that is date `d`. */
  function ShowtimeTable(c: Cinema, dayText: string, d: Date, eligible: (Showtime, Date) -> bool, ratingStr: MovieVersion -> string): (r: Result<DayTable, TableError>)
    ensures r.Failure? <==> SomeShowtimeWithoutEnd(SeanceData(c, d, eligible))
    ensures r.Success? ==> (r.value.NoShowing? <==> forall i :: 0 <= i < |SeanceData(c, d, eligible)| ==> !HasShowtimes(SeanceData(c, d, eligible)[i]))
    ensures r.Success? && r.value.NoShowing? ==> r.value.text == dayText + "\n" + NO_SHOWING
    ensures r.Success? && r.value.ShowingTable? ==>
      r.value.heading == dayText + "\n" && r.value.fieldNames == ExtractFieldNames(r.value.rows)
      && r.value.rows == DisplaySeances(SeanceData(c, d, eligible), ratingStr, SpanCell)
  {
    var gs := SeanceData(c, d, eligible);
    if SomeShowtimeWithoutEnd(gs) then Failure(MissingEndTime)
    else
      var rows := DisplaySeances(gs, ratingStr, SpanCell);
      NoRowsIffNoShowtimes(gs, ratingStr, SpanCell);
      if |rows| == 0 then Success(NoShowing(dayText + "\n" + NO_SHOWING))
      else Success(ShowingTable(dayText + "\n", ExtractFieldNames(rows), rows))
  }

  lemma NoRowsIffNoShowtimes(gs: seq<FilmShowtimes>, ratingStr: MovieVersion -> string, cell: Showtime -> string)
    ensures |DisplaySeances(gs, ratingStr, cell)| == 0 <==> forall i :: 0 <= i < |gs| ==> !HasShowtimes(gs[i])
  {
    FilterMembers(gs, HasShowtimes);
    if |Filter(gs, HasShowtimes)| > 0 {
      assert Filter(gs, HasShowtimes)[0] in Filter(gs, HasShowtimes);
    } else {
      forall i | 0 <= i < |gs|
        ensures !HasShowtimes(gs[i])
      {
        assert gs[i] in gs;
      }
    }
  }

  /** An entry of the day list: a date computed from today, or the day
      argument as written (`%d/%m/%Y` text; the date formatting itself is
      not modelled). */
  datatype DayArg = OnDay(date: Date) | AsGiven(text: string)

  /** `jour[0]` of an empty argument, or `int(jour[1:])` of a non-number. */
  datatype DayListError = EmptyDay | BadOffset

  const WEEK_LENGTH: nat := 7

  /** The day list of `get_showings` / `main`: only when `semaine` is
      `False` a single day (today, today plus `N` for `"+N"`, or the day as
      written); otherwise, the default `None` of `app/main.py` included,
      seven consecutive days from today. */
  function DayList(today: Date, jour: Option<string>, semaine: Option<bool>): (r: Result<seq<DayArg>, DayListError>)
    ensures semaine != Some(false) ==> r.Success? && |r.value| == WEEK_LENGTH
    ensures semaine != Some(false) ==> forall k :: 0 <= k < WEEK_LENGTH ==> r.value[k] == OnDay(today + k)
    ensures semaine == Some(false) && r.Success? ==> |r.value| == 1
    ensures semaine == Some(false) && jour.None? ==> r == Success([OnDay(today)])
    ensures semaine == Some(false) && jour.Some? && 0 < |jour.value| && jour.value[0] != '+' ==> r == Success([AsGiven(jour.value)])
    ensures r == Failure(EmptyDay) <==> semaine == Some(false) && jour == Some("")
    ensures r == Failure(BadOffset) <==>
      semaine == Some(false) && jour.Some? && 0 < |jour.value| && jour.value[0] == '+' &&
      !(1 < |jour.value| && AllDigits(jour.value[1..]))
    ensures semaine == Some(false) && jour.Some? && 1 < |jour.value| && jour.value[0] == '+' && AllDigits(jour.value[1..]) ==>
      r == Success([OnDay(today + ParseNat(jour.value[1..]))])
  {
    if semaine == Some(false) then
      if jour.None? then Success([OnDay(today)])
      else if |jour.value| == 0 then Failure(EmptyDay)
      else if jour.value[0] == '+' then
        var digits := jour.value[1..];
        if 0 < |digits| && AllDigits(digits) then Success([OnDay(today + ParseNat(digits))]) else Failure(BadOffset)
      else Success([AsGiven(jour.value)])
    else
      Success(seq(WEEK_LENGTH, k requires 0 <= k < WEEK_LENGTH => OnDay(today + k)))
  }

  /** `"+N"` names the day `N` days from today. */
  lemma DayOffsetRoundTrip(today: Date, n: nat)
    ensures DayList(today, Some("+" + NatToString(n)), Some(false)) == Success([OnDay(today + n)])
  {
    var s := "+" + NatToString(n);
    assert s[1..] == NatToString(n);
    ParseNatToString(n);
  }

  /** Leading zeros do not change the offset: `int("007")` is 7, so
      `"+007"` is a week from today. */
  lemma PaddedOffset(today: Date, zeros: nat, n: nat)
    ensures var digits := seq(zeros, _ => '0') + NatToString(n);
      DayList(today, Some("+" + digits), Some(false)) == Success([OnDay(today + n)])
  {
    var digits := seq(zeros, _ => '0') + NatToString(n);
    var s := "+" + digits;
    assert s[1..] == digits;
    LeadingZerosParse(zeros, NatToString(n));
    ParseNatToString(n);
  }

  /** Zeros in front of a digit string do not change its value. */
  lemma {:induction false} LeadingZerosParse(zeros: nat, s: string)
    requires AllDigits(s)
    ensures AllDigits(seq(zeros, _ => '0') + s)
    ensures ParseNat(seq(zeros, _ => '0') + s) == ParseNat(s)
    decreases zeros
  {
    var z := seq(zeros, _ => '0');
    assert forall i :: 0 <= i < |z + s| ==> IsDigit((z + s)[i]);
    if zeros == 0 {
      assert z + s == s;
    } else {
      var z' := seq(zeros - 1, _ => '0');
      assert z == ['0'] + z';
      LeadingZerosParse(zeros - 1, s);
      assert z + s == "0" + (z' + s);
      LeadingZeroParse(z' + s);
    }
  }

  /** One zero in front of a digit string does not change its value. */
  lemma {:induction false} LeadingZeroParse(s: string)
    requires AllDigits(s)
    ensures AllDigits("0" + s) && ParseNat("0" + s) == ParseNat(s)
    decreases |s|
  {
    var t := "0" + s;
    assert forall i :: 0 <= i < |t| ==> IsDigit(t[i]);
    if |s| == 0 {
      assert t == "0";
      assert t[..0] == [];
    } else {
      var p := s[..|s| - 1];
      assert t[..|t| - 1] == "0" + p;
      assert t[|t| - 1] == s[|s| - 1];
      LeadingZeroParse(p);
    }
  }

  /** The seven days of the week list fall on seven different weekdays,
      so each weekday is shown once. */
  lemma WeekListHasEveryWeekday(today: Date, jour: Option<string>, semaine: Option<bool>)
    requires semaine != Some(false)
    ensures forall i, j :: 0 <= i < j < WEEK_LENGTH ==> WeekdayOf(DayList(today, jour, semaine).value[i].date) != WeekdayOf(DayList(today, jour, semaine).value[j].date)
  {
    var days := DayList(today, jour, semaine).value;
    forall i, j | 0 <= i < j < WEEK_LENGTH
      ensures WeekdayOf(days[i].date) != WeekdayOf(days[j].date)
    {
      if WeekdayOf(today + i) == WeekdayOf(today + j) {
        WeekdayInjectiveWithinWeek(today + i, today + j);
      }
    }
  }
}
