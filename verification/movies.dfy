/** Films and their versions (`data/movies.py`; `allocine/__init__.py:28-121`
    and `_strfdelta` at `allocine/__init__.py:607-613` are the same code). */
module Movies {
  import opened Results
  import opened Text

  const SECONDS_PER_DAY: nat := 86400

  /** A normalised `timedelta`: whole days plus the seconds left over
      (microseconds are never set in the feed). */
  datatype Duration = Duration(days: int, seconds: nat)

  type DayDuration = d: Duration | d.seconds < SECONDS_PER_DAY witness Duration(0, 0)

  datatype Movie = Movie(
    movieId: int,
    title: string,
    originalTitle: string,
    rating: Option<real>,
    duration: Option<DayDuration>,
    genres: string,
    countries: seq<string>,
    directors: string,
    actors: string,
    synopsis: string,
    year: int)

  /** `MovieVersion` extends `Movie` with a language and a screen format. */
  datatype MovieVersion = MovieVersion(
    movieId: int,
    title: string,
    originalTitle: string,
    rating: Option<real>,
    duration: Option<DayDuration>,
    genres: string,
    countries: seq<string>,
    directors: string,
    actors: string,
    synopsis: string,
    year: int,
    language: string,
    screenFormat: string)

  const FRENCH: string := "Français"
  const DIGITAL: string := "Numérique"

  /** `MovieVersion.version`: "VF" for French, "VOST" otherwise, followed by
      the screen format unless it is the plain digital one. */
  function Version(v: MovieVersion): (r: string)
    ensures 2 <= |r|
    ensures r[..2] == "VF" <==> v.language == FRENCH
    ensures v.language != FRENCH ==> 4 <= |r| && r[..4] == "VOST"
    ensures v.screenFormat == DIGITAL <==> r == "VF" || r == "VOST"
    ensures v.screenFormat != DIGITAL ==>
      |v.screenFormat| < |r| && r[|r| - |v.screenFormat| - 1] == ' ' && r[|r| - |v.screenFormat|..] == v.screenFormat
  {
    var base := if v.language == FRENCH then "VF" else "VOST";
    assert "VOST"[..2] == "VO" && "VF"[..2] == "VF";
    assert base[..2] == "VF" <==> v.language == FRENCH;
    if v.screenFormat != DIGITAL then
      var r := base + " " + v.screenFormat;
      assert r[..2] == base[..2] && r[..|base|] == base && r[|base|] == ' ';
      assert r[|r| - |v.screenFormat|..] == v.screenFormat;
      assert r != "VF" && r != "VOST" by {
        if v.language == FRENCH {
          assert r[2] == ' ';
        } else {
          assert |r| > 4;
        }
      }
      r
    else
      base
  }

  /** What a version string says: French or not, and the screen format when
      it is not the digital one. */
  datatype VersionParts = VersionParts(french: bool, format: Option<string>)

  function ParseVersion(s: string): Option<VersionParts>
  {
    if 2 <= |s| && s[..2] == "VF" then
      if |s| == 2 then Some(VersionParts(true, None))
      else if s[2] == ' ' then Some(VersionParts(true, Some(s[3..])))
      else None
    else if 4 <= |s| && s[..4] == "VOST" then
      if |s| == 4 then Some(VersionParts(false, None))
      else if s[4] == ' ' then Some(VersionParts(false, Some(s[5..])))
      else None
    else None
  }

  /** A version string gives back the language family and the screen
      format it was built from. */
  lemma ParseVersionRoundTrip(v: MovieVersion)
    ensures ParseVersion(Version(v)) ==
      Some(VersionParts(v.language == FRENCH, if v.screenFormat == DIGITAL then None else Some(v.screenFormat)))
  {
    var r := Version(v);
    if v.language == FRENCH && v.screenFormat != DIGITAL {
      assert r == "VF" + " " + v.screenFormat;
      assert r[3..] == v.screenFormat;
    } else if v.language != FRENCH && v.screenFormat != DIGITAL {
      assert r == "VOST" + " " + v.screenFormat;
      assert r[..2] == "VO";
      assert r[5..] == v.screenFormat;
    } else if v.language != FRENCH {
      assert r == "VOST";
    }
  }

  /** Equal version strings mean the same language family and the same
      non-digital screen format. */
  lemma VersionInjective(a: MovieVersion, b: MovieVersion)
    requires Version(a) == Version(b)
    ensures (a.language == FRENCH) == (b.language == FRENCH)
    ensures (a.screenFormat == DIGITAL) == (b.screenFormat == DIGITAL)
    ensures a.screenFormat != DIGITAL ==> a.screenFormat == b.screenFormat
  {
    ParseVersionRoundTrip(a);
    ParseVersionRoundTrip(b);
  }

  /** `Movie.__eq__`: films compare by identifier only. */
  predicate SameMovie(a: Movie, b: Movie)
  {
    a.movieId == b.movieId
  }

  /** `MovieVersion.__eq__`: versions compare by identifier and version
      string. */
  predicate SameVersion(a: MovieVersion, b: MovieVersion)
  {
    a.movieId == b.movieId && Version(a) == Version(b)
  }

  /** `MovieVersion.get_movie`: the film without its language and format. */
  function GetMovie(v: MovieVersion): (m: Movie)
    ensures m.movieId == v.movieId && m.title == v.title && m.originalTitle == v.originalTitle
    ensures m.rating == v.rating && m.duration == v.duration && m.genres == v.genres
    ensures m.countries == v.countries && m.directors == v.directors && m.actors == v.actors
    ensures m.synopsis == v.synopsis && m.year == v.year
  {
    Movie(v.movieId, v.title, v.originalTitle, v.rating, v.duration, v.genres,
          v.countries, v.directors, v.actors, v.synopsis, v.year)
  }

  /** Versions that differ only in language or screen format map to one and
      the same film. */
  lemma GetMovieForgetsVersion(a: MovieVersion, b: MovieVersion)
    requires a.(language := b.language, screenFormat := b.screenFormat) == b
    ensures GetMovie(a) == GetMovie(b)
  {
  }

  /** Equal versions are versions of equal films, but not conversely:
      the VF and the VOST of a film are one film. */
  lemma SameVersionSameMovie(a: MovieVersion, b: MovieVersion)
    ensures SameVersion(a, b) ==> SameMovie(GetMovie(a), GetMovie(b))
    ensures SameMovie(GetMovie(a), GetMovie(b)) && a.language == FRENCH && b.language != FRENCH ==> !SameVersion(a, b)
  {
    if a.language == FRENCH && b.language != FRENCH {
      assert Version(a)[..2] == "VF";
      assert Version(b)[..2] != "VF";
    }
  }

  /** The two fields `_strfdelta` prints. */
  datatype HoursMinutes = HoursMinutes(hours: nat, minutes: nat)

  /** `_strfdelta`: hours and minutes of the part of the duration below one
      day; whole days are dropped. */
  function StrfDelta(d: DayDuration): (hm: HoursMinutes)
    ensures hm.hours < 24 && hm.minutes < 60
    ensures hm.hours * 3600 + hm.minutes * 60 <= d.seconds < hm.hours * 3600 + hm.minutes * 60 + 60
  {
    HoursMinutes(d.seconds / 3600, (d.seconds % 3600) / 60)
  }

  /** Whole days and leftover seconds do not show. */
  lemma StrfDeltaExact(days: int, h: nat, m: nat, s: nat)
    requires h < 24 && m < 60 && s < 60
    ensures StrfDelta(Duration(days, h * 3600 + m * 60 + s)) == HoursMinutes(h, m)
  {
    var d := h * 3600 + m * 60 + s;
    assert d / 3600 == h;
    assert d % 3600 == m * 60 + s;
    assert (m * 60 + s) / 60 == m;
  }

  /** `duration_str`: zero-padded "HHhMM", or "HH:MM" when the duration is
      unknown. */
  function DurationStr(m: Movie): (r: string)
    ensures |r| == 5
    ensures m.duration.None? <==> r[2] == ':'
    ensures m.duration.None? ==> r == "HH:MM"
    ensures m.duration.Some? ==>
      (r[2] == 'h' && AllDigits(r[..2]) && AllDigits(r[3..]) &&
       HoursMinutes(ParseNat(r[..2]), ParseNat(r[3..])) == StrfDelta(m.duration.value))
  {
    if m.duration.Some? then
      var hm := StrfDelta(m.duration.value);
      var r := Pad2(hm.hours) + "h" + Pad2(hm.minutes);
      assert r[..2] == Pad2(hm.hours) && r[3..] == Pad2(hm.minutes);
      r
    else
      "HH:MM"
  }

  /** `duration_short_str`: hours without padding, two-digit minutes, or
      "NA" when the duration is unknown. */
  function DurationShortStr(m: Movie): (r: string)
    ensures m.duration.None? <==> r == "NA"
    ensures m.duration.Some? ==>
      (var k := IndexOf(r, 'h');
       k == |r| - 3 && AllDigits(r[..k]) && AllDigits(r[k + 1..]) &&
       HoursMinutes(ParseNat(r[..k]), ParseNat(r[k + 1..])) == StrfDelta(m.duration.value))
    ensures m.duration.Some? ==> var k := IndexOf(r, 'h'); 0 < k && (1 < k ==> r[0] != '0')
  {
    if m.duration.Some? then
      var hm := StrfDelta(m.duration.value);
      var hs := NatToString(hm.hours);
      var r := hs + "h" + Pad2(hm.minutes);
      ParseNatToString(hm.hours);
      assert r[..|hs|] == hs && r[|hs| + 1..] == Pad2(hm.minutes);
      assert r[|hs|] == 'h';
      assert forall i :: 0 <= i < |hs| ==> r[i] == hs[i] && IsDigit(hs[i]);
      r
    else
      "NA"
  }
}
