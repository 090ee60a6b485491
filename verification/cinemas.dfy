/** A cinema and its showtime queries (`data/cinemas.py`; the `Theater`
    class at `allocine/__init__.py:196-262` is the same code without the
    member cards and with `theater_id` for `allocine_id`). */
module Cinemas {
  import opened Results
  import opened Calendar
  import opened Seqs
  import opened Buckets
  import opened Movies
  import opened Showtimes
  import opened WeekCheck

  /** A membership card a cinema accepts. */
  datatype MemberCard = MemberCard(code: int, caption: string)

  datatype Cinema = Cinema(
    allocineId: string,
    name: string,
    showtimes: seq<Showtime>,
    address: string,
    zipcode: string,
    city: string,
    memberCards: seq<MemberCard>)

  /** `Cinema.__eq__` and `__hash__`: cinemas are identified by their id
      alone. */
  predicate SameCinema(a: Cinema, b: Cinema)
  {
    a.allocineId == b.allocineId
  }

  /** The key `MovieVersion.__eq__` and `__hash__` compare. */
  function VersionKey(v: MovieVersion): (int, string)
  {
    (v.movieId, Version(v))
  }

  lemma VersionKeyIsSameVersion(a: MovieVersion, b: MovieVersion)
    ensures SameVersion(a, b) <==> VersionKey(a) == VersionKey(b)
  {
  }

  function ShowtimeVersionKey(s: Showtime): (int, string)
  {
    VersionKey(s.movie)
  }

  /** The key `Movie.__eq__` and `__hash__` compare, for the film of a
      showtime's version. */
  function ShowtimeMovieKey(s: Showtime): int
  {
    GetMovie(s.movie).movieId
  }

  function IsVersion(v: MovieVersion): Showtime -> bool
  {
    (s: Showtime) => SameVersion(s.movie, v)
  }

  function IsFilm(m: Movie): Showtime -> bool
  {
    (s: Showtime) => SameMovie(GetMovie(s.movie), m)
  }

  function OnDate(d: Date): Showtime -> bool
  {
    (s: Showtime) => DayOf(s) == d
  }

  /** `get_showtimes_of_a_movie`: the showtimes of version `v` (compared with
      `MovieVersion.__eq__`), on `date` when one is given, in input order. */
  function ShowtimesOfMovie(c: Cinema, v: MovieVersion, date: Option<Date>): (r: seq<Showtime>)
    ensures IsSubsequence(r, c.showtimes)
    ensures forall s :: s in r <==> s in c.showtimes && SameVersion(s.movie, v) && (date.None? || DayOf(s) == date.value)
    ensures forall s :: multiset(r)[s] == if SameVersion(s.movie, v) && (date.None? || DayOf(s) == date.value) then multiset(c.showtimes)[s] else 0
  {
    var ofMovie := Filter(c.showtimes, IsVersion(v));
    if date.Some? then
      VersionOnDate(c.showtimes, v, date.value);
      Filter(ofMovie, OnDate(date.value))
    else
      VersionAnyDate(c.showtimes, v);
      ofMovie
  }

  /** The showtimes of `v` on `d`, filtered in two passes as the source
      does, are the showtimes meeting both tests. */
  lemma VersionOnDate(sts: seq<Showtime>, v: MovieVersion, d: Date)
    ensures IsSubsequence(Filter(Filter(sts, IsVersion(v)), OnDate(d)), sts)
    ensures forall s :: s in Filter(Filter(sts, IsVersion(v)), OnDate(d)) <==> s in sts && SameVersion(s.movie, v) && DayOf(s) == d
    ensures forall s :: multiset(Filter(Filter(sts, IsVersion(v)), OnDate(d)))[s] == if SameVersion(s.movie, v) && DayOf(s) == d then multiset(sts)[s] else 0
  {
    FilterTwice(sts, IsVersion(v), OnDate(d));
    FilterMembers(sts, Both(IsVersion(v), OnDate(d)));
    FilterCount(sts, Both(IsVersion(v), OnDate(d)));
  }

  /** The showtimes of `v` on any date. */
  lemma VersionAnyDate(sts: seq<Showtime>, v: MovieVersion)
    ensures forall s :: s in Filter(sts, IsVersion(v)) <==> s in sts && SameVersion(s.movie, v)
    ensures forall s :: multiset(Filter(sts, IsVersion(v)))[s] == if SameVersion(s.movie, v) then multiset(sts)[s] else 0
  {
    FilterMembers(sts, IsVersion(v));
    FilterCount(sts, IsVersion(v));
  }

  /** The film versions of the showtimes on date `d`, in input order. */
  function VersionsOfDay(c: Cinema, d: Date): seq<MovieVersion>
  {
    var day := ShowtimesOfDay(c.showtimes, d);
    seq(|day|, i requires 0 <= i < |day| => day[i].movie)
  }

  /** `get_movies_available_for_a_day`: `list(set(...))` of the versions
      shown on `d`; one version per `MovieVersion.__eq__` class. The order
      of a Python set is not specified, and none is promised here. */
  function MoviesAvailableForDay(c: Cinema, d: Date): (r: seq<MovieVersion>)
    ensures forall i, j :: 0 <= i < j < |r| ==> !SameVersion(r[i], r[j])
    ensures forall v :: v in r ==> exists s :: s in c.showtimes && DayOf(s) == d && s.movie == v
    ensures forall s :: s in c.showtimes && DayOf(s) == d ==> exists v :: v in r && SameVersion(v, s.movie)
  {
    var r := DistinctBy(VersionKey, VersionsOfDay(c, d));
    AvailableVersions(c, d, r);
    r
  }

  /** Any deduplication of the day's versions by `VersionKey` meets the
      contract of `MoviesAvailableForDay`. */
  lemma AvailableVersions(c: Cinema, d: Date, r: seq<MovieVersion>)
    requires forall i, j :: 0 <= i < j < |r| ==> VersionKey(r[i]) != VersionKey(r[j])
    requires forall x :: x in r ==> x in VersionsOfDay(c, d)
    requires forall x :: x in VersionsOfDay(c, d) ==> exists y :: y in r && VersionKey(y) == VersionKey(x)
    ensures forall i, j :: 0 <= i < j < |r| ==> !SameVersion(r[i], r[j])
    ensures forall v :: v in r ==> exists s :: s in c.showtimes && DayOf(s) == d && s.movie == v
    ensures forall s :: s in c.showtimes && DayOf(s) == d ==> exists v :: v in r && SameVersion(v, s.movie)
  {
    AvailableVersionsFromDay(c, d, r);
    AvailableVersionsCover(c, d, r);
  }

  lemma AvailableVersionsFromDay(c: Cinema, d: Date, r: seq<MovieVersion>)
    requires forall x :: x in r ==> x in VersionsOfDay(c, d)
    ensures forall v :: v in r ==> exists s :: s in c.showtimes && DayOf(s) == d && s.movie == v
  {
    VersionsOfDayMembers(c, d);
  }

  lemma AvailableVersionsCover(c: Cinema, d: Date, r: seq<MovieVersion>)
    requires forall x :: x in VersionsOfDay(c, d) ==> exists y :: y in r && VersionKey(y) == VersionKey(x)
    ensures forall s :: s in c.showtimes && DayOf(s) == d ==> exists v :: v in r && SameVersion(v, s.movie)
  {
    forall s | s in c.showtimes && DayOf(s) == d
      ensures exists v :: v in r && SameVersion(v, s.movie)
    {
      VersionsOfDayMembers(c, d);
      assert s.movie in VersionsOfDay(c, d);
      var y :| y in r && VersionKey(y) == VersionKey(s.movie);
      assert SameVersion(y, s.movie);
    }
  }

  lemma VersionsOfDayMembers(c: Cinema, d: Date)
    ensures forall v :: v in VersionsOfDay(c, d) <==> exists s :: s in c.showtimes && DayOf(s) == d && s.movie == v
  {
    var day := ShowtimesOfDay(c.showtimes, d);
    var vs := VersionsOfDay(c, d);
    forall v
      ensures v in vs <==> exists s :: s in c.showtimes && DayOf(s) == d && s.movie == v
    {
      if v in vs {
        var i :| 0 <= i < |vs| && vs[i] == v;
        assert day[i] in day;
      }
      if exists s :: s in c.showtimes && DayOf(s) == d && s.movie == v {
        var s :| s in c.showtimes && DayOf(s) == d && s.movie == v;
        var i :| 0 <= i < |day| && day[i] == s;
        assert vs[i] == v;
      }
    }
  }

  /** `get_showtimes_per_movie_version`: one bucket per version, keyed by
      its first showtime's version; each bucket holds exactly that
      version's showtimes, in input order, and the buckets come in the
      order their versions first appear. */
  function ShowtimesPerVersion(c: Cinema): (bs: seq<seq<Showtime>>)
    ensures NonEmptyBuckets(bs)
    ensures forall i, j :: 0 <= i < j < |bs| ==> !SameVersion(bs[i][0].movie, bs[j][0].movie)
    ensures forall i :: 0 <= i < |bs| ==> bs[i] == Filter(c.showtimes, IsVersion(bs[i][0].movie))
    ensures forall s :: s in c.showtimes ==> exists i :: 0 <= i < |bs| && SameVersion(bs[i][0].movie, s.movie)
    ensures BucketsInFirstOrder(ShowtimeVersionKey, c.showtimes, bs)
  {
    var bs := GroupByKey(ShowtimeVersionKey, c.showtimes);
    VersionBucketsAreFilters(c.showtimes, bs);
    bs
  }

  lemma VersionBucketsAreFilters(sts: seq<Showtime>, bs: seq<seq<Showtime>>)
    requires NonEmptyBuckets(bs) && BucketsAreFilters(ShowtimeVersionKey, sts, bs)
    ensures forall i :: 0 <= i < |bs| ==> bs[i] == Filter(sts, IsVersion(bs[i][0].movie))
  {
    forall i | 0 <= i < |bs|
      ensures bs[i] == Filter(sts, IsVersion(bs[i][0].movie))
    {
      FilterExt(sts, KeyIs(ShowtimeVersionKey, ShowtimeVersionKey(bs[i][0])), IsVersion(bs[i][0].movie));
    }
  }

  /** `get_showtimes_per_movie`: one bucket per film, keyed by the film
      (without language or format) of its first showtime; each bucket holds
      exactly that film's showtimes, in input order, and the buckets come
      in the order their films first appear. */
  function ShowtimesPerMovie(c: Cinema): (bs: seq<seq<Showtime>>)
    ensures NonEmptyBuckets(bs)
    ensures forall i, j :: 0 <= i < j < |bs| ==> !SameMovie(GetMovie(bs[i][0].movie), GetMovie(bs[j][0].movie))
    ensures forall i :: 0 <= i < |bs| ==> bs[i] == Filter(c.showtimes, IsFilm(GetMovie(bs[i][0].movie)))
    ensures forall s :: s in c.showtimes ==> exists i :: 0 <= i < |bs| && SameMovie(GetMovie(bs[i][0].movie), GetMovie(s.movie))
    ensures BucketsInFirstOrder(ShowtimeMovieKey, c.showtimes, bs)
  {
    var bs := GroupByKey(ShowtimeMovieKey, c.showtimes);
    FilmBucketsAreFilters(c.showtimes, bs);
    bs
  }

  lemma FilmBucketsAreFilters(sts: seq<Showtime>, bs: seq<seq<Showtime>>)
    requires NonEmptyBuckets(bs) && BucketsAreFilters(ShowtimeMovieKey, sts, bs)
    ensures forall i :: 0 <= i < |bs| ==> bs[i] == Filter(sts, IsFilm(GetMovie(bs[i][0].movie)))
  {
    forall i | 0 <= i < |bs|
      ensures bs[i] == Filter(sts, IsFilm(GetMovie(bs[i][0].movie)))
    {
      FilterExt(sts, KeyIs(ShowtimeMovieKey, ShowtimeMovieKey(bs[i][0])), IsFilm(GetMovie(bs[i][0].movie)));
    }
  }

  /** The film of the first showtime has the first bucket. */
  lemma FirstFilmFirstBucket(c: Cinema)
    requires 0 < |c.showtimes|
    ensures 0 < |ShowtimesPerMovie(c)|
    ensures ShowtimesPerMovie(c)[0] == Filter(c.showtimes, IsFilm(GetMovie(c.showtimes[0].movie)))
  {
    var z := FilmBucketOf(c, 0);
    FirstKeyIndexOfEntry(ShowtimeMovieKey, c.showtimes, 0);
    LaterBucketsSeenLater(ShowtimeMovieKey, c.showtimes, ShowtimesPerMovie(c));
  }

  /** A film first shown after another has its bucket after the other's:
      the dict's insertion order. */
  lemma LaterFilmLaterBucket(c: Cinema, i: nat, j: nat)
    requires i < j < |c.showtimes|
    requires forall k :: 0 <= k < j ==> !SameMovie(GetMovie(c.showtimes[k].movie), GetMovie(c.showtimes[j].movie))
    ensures exists a, b ::
      (0 <= a < b < |ShowtimesPerMovie(c)|
       && ShowtimesPerMovie(c)[a] == Filter(c.showtimes, IsFilm(GetMovie(c.showtimes[i].movie)))
       && ShowtimesPerMovie(c)[b] == Filter(c.showtimes, IsFilm(GetMovie(c.showtimes[j].movie))))
  {
    var a := FilmBucketOf(c, i);
    var b := FilmBucketOf(c, j);
    FirstKeyIndexOfEntry(ShowtimeMovieKey, c.showtimes, i);
    FirstKeyIndexOfEntry(ShowtimeMovieKey, c.showtimes, j);
    BucketOrderFollowsFirstSeen(ShowtimeMovieKey, c.showtimes, ShowtimesPerMovie(c), a, b);
  }

  /** The position of the bucket of the film of showtime `n`. */
  lemma FilmBucketOf(c: Cinema, n: nat) returns (i: nat)
    requires n < |c.showtimes|
    ensures i < |ShowtimesPerMovie(c)|
    ensures ShowtimeMovieKey(ShowtimesPerMovie(c)[i][0]) == ShowtimeMovieKey(c.showtimes[n])
    ensures ShowtimesPerMovie(c)[i] == Filter(c.showtimes, IsFilm(GetMovie(c.showtimes[n].movie)))
  {
    var bs: seq<seq<Showtime>> := ShowtimesPerMovie(c);
    var st := c.showtimes[n];
    assert st in c.showtimes;
    var k :| 0 <= k < |bs| && SameMovie(GetMovie(bs[k][0].movie), GetMovie(st.movie));
    FilterExt(c.showtimes, IsFilm(GetMovie(bs[k][0].movie)), IsFilm(GetMovie(st.movie)));
    i := k;
  }

  /** Every showtime sits in exactly one film bucket, and two showtimes of
      one film share it whatever their versions (the VF and the VOST of a
      film, say). */
  lemma OneFilmBucket(c: Cinema, a: Showtime, b: Showtime)
    requires a in c.showtimes && b in c.showtimes
    ensures forall i, j :: 0 <= i < j < |ShowtimesPerMovie(c)| ==> !(a in ShowtimesPerMovie(c)[i] && a in ShowtimesPerMovie(c)[j])
    ensures a.movie.movieId == b.movie.movieId ==>
      forall i :: 0 <= i < |ShowtimesPerMovie(c)| ==> (a in ShowtimesPerMovie(c)[i] <==> b in ShowtimesPerMovie(c)[i])
  {
    var bs := ShowtimesPerMovie(c);
    OneBucketEach(ShowtimeMovieKey, c.showtimes, bs, a);
    forall i | 0 <= i < |bs|
      ensures a.movie.movieId == b.movie.movieId ==> (a in bs[i] <==> b in bs[i])
    {
      BucketEntries(ShowtimeMovieKey, c.showtimes, bs, i, a);
      BucketEntries(ShowtimeMovieKey, c.showtimes, bs, i, b);
    }
  }

  /** The film-to-program entries of `get_program_per_movie` for the film
      buckets `bs`, in bucket order, with `build` making each program; the
      first error aborts the loop. */
  function Programs(build: seq<Showtime> -> Result<string, WeekError>, bs: seq<seq<Showtime>>): (r: Result<seq<(Movie, string)>, WeekError>)
    requires NonEmptyBuckets(bs)
    ensures r.Success? <==> forall i :: 0 <= i < |bs| ==> build(bs[i]).Success?
    ensures r.Success? ==> |r.value| == |bs|
    ensures r.Success? ==> forall i :: 0 <= i < |bs| ==> r.value[i] == (GetMovie(bs[i][0].movie), build(bs[i]).value)
    decreases |bs|
  {
    if |bs| == 0 then Success([])
    else
      var first :- build(bs[0]);
      var rest :- Programs(build, bs[1..]);
      Success([(GetMovie(bs[0][0].movie), first)] + rest)
  }

  /** A failure is the error of the first bucket whose program fails. */
  lemma {:induction false} ProgramsStopAtFirstError(build: seq<Showtime> -> Result<string, WeekError>, bs: seq<seq<Showtime>>)
    requires NonEmptyBuckets(bs) && Programs(build, bs).Failure?
    ensures exists i :: (0 <= i < |bs| && build(bs[i]).Failure? && build(bs[i]).error == Programs(build, bs).error
      && forall j :: 0 <= j < i ==> build(bs[j]).Success?)
    decreases |bs|
  {
    if build(bs[0]).Success? {
      ProgramsStopAtFirstError(build, bs[1..]);
      var i :| 0 <= i < |bs[1..]| && build(bs[1..][i]).Failure? && build(bs[1..][i]).error == Programs(build, bs[1..]).error
        && (forall j :: 0 <= j < i ==> build(bs[1..][j]).Success?);
      assert bs[1..][i] == bs[i + 1];
      forall j | 0 <= j < i + 1
        ensures build(bs[j]).Success?
      {
        if j > 0 {
          assert bs[j] == bs[1..][j - 1];
        }
      }
    } else {
      assert build(bs[0]).Failure?;
    }
  }

  /** `get_program_per_movie`: each film with the weekly program of its
      showtimes; a week-check error of any film aborts the whole. */
  function ProgramPerMovie(c: Cinema): (r: Result<seq<(Movie, string)>, WeekError>)
    ensures r.Success? <==> forall i :: 0 <= i < |ShowtimesPerMovie(c)| ==> BuildProgram(ShowtimesPerMovie(c)[i]).Success?
    ensures r.Success? ==> |r.value| == |ShowtimesPerMovie(c)|
    ensures r.Success? ==> forall i :: 0 <= i < |r.value| ==>
      r.value[i] == (GetMovie(ShowtimesPerMovie(c)[i][0].movie), BuildProgram(ShowtimesPerMovie(c)[i]).value)
  {
    Programs(BuildProgram, ShowtimesPerMovie(c))
  }

  /** A date between two optional inclusive bounds. */
  predicate WithinBounds(min: Option<Date>, max: Option<Date>, d: Date)
  {
    (min.None? || min.value <= d) && (max.None? || d <= max.value)
  }

  function InBounds(min: Option<Date>, max: Option<Date>): Showtime -> bool
  {
    (s: Showtime) => WithinBounds(min, max, DayOf(s))
  }

  function NotBefore(min: Date): Showtime -> bool
  {
    (s: Showtime) => min <= DayOf(s)
  }

  function NotAfter(max: Date): Showtime -> bool
  {
    (s: Showtime) => DayOf(s) <= max
  }

  /** `filter_showtimes`: drop the showtimes before `min` and then those
      after `max`; a missing bound drops nothing. Only the showtimes
      change. */
  function FilterShowtimes(c: Cinema, min: Option<Date>, max: Option<Date>): (r: Cinema)
    ensures r.(showtimes := c.showtimes) == c
    ensures SameCinema(r, c)
    ensures r.showtimes == Filter(c.showtimes, InBounds(min, max))
  {
    var low := if min.Some? then Filter(c.showtimes, NotBefore(min.value)) else c.showtimes;
    var high := if max.Some? then Filter(low, NotAfter(max.value)) else low;
    FilterShowtimesIsOneFilter(c.showtimes, min, max);
    c.(showtimes := high)
  }

  lemma FilterShowtimesIsOneFilter(sts: seq<Showtime>, min: Option<Date>, max: Option<Date>)
    ensures var low := if min.Some? then Filter(sts, NotBefore(min.value)) else sts;
            (if max.Some? then Filter(low, NotAfter(max.value)) else low) == Filter(sts, InBounds(min, max))
  {
    match (min, max)
    case (Some(a), Some(b)) =>
      FilterTwice(sts, NotBefore(a), NotAfter(b));
      FilterExt(sts, Both(NotBefore(a), NotAfter(b)), InBounds(min, max));
    case (Some(a), None) =>
      FilterExt(sts, NotBefore(a), InBounds(min, max));
    case (None, Some(b)) =>
      FilterExt(sts, NotAfter(b), InBounds(min, max));
    case (None, None) =>
      FilterAll(sts, InBounds(min, max));
  }

  /** The showtimes kept are those within the bounds, in input order. */
  lemma FilterShowtimesKeeps(c: Cinema, min: Option<Date>, max: Option<Date>)
    ensures IsSubsequence(FilterShowtimes(c, min, max).showtimes, c.showtimes)
    ensures forall s :: s in FilterShowtimes(c, min, max).showtimes <==> s in c.showtimes && WithinBounds(min, max, DayOf(s))
  {
    FilterMembers(c.showtimes, InBounds(min, max));
  }

  /** Filtering twice with the same bounds is filtering once. */
  lemma {:induction false} FilterShowtimesIdempotent(c: Cinema, min: Option<Date>, max: Option<Date>)
    ensures FilterShowtimes(FilterShowtimes(c, min, max), min, max) == FilterShowtimes(c, min, max)
  {
    FilterIdempotent(c.showtimes, InBounds(min, max));
  }
}
