# Allociné showtimes: weekly schedule engine and showtime queries

This project is a Dafny model of the core of `allocine-python`, a client for the Allociné cinema listings. It has three parts.

1. **The weekly schedule compaction engine** (`build_weekly_schedule_str`). It takes the start times of one film's showings in one week and prints them as a compact French line such as `"sf Lun, Mar 21h"` or `"14h, 18h (Mer, Lun)"`. The model covers all of its parts:
   - the week validator (`check_schedules_within_week`);
   - the night-aware time weight;
   - the weekday labels (`create_weekdays_str`);
   - the grouping of times by label;
   - the two layouts.
2. **The list queries over showtimes and cinemas.** These are day filters, available dates, grouping of dates by identical hours, per-version and per-film buckets, the program per film, and date-bound filtering. The model also covers the film-version rules: the `"VF"`/`"VOST"` version string, duration formatting, and equality by id.
3. **The helpers of the two command-line tools** (`app/main.py` and `seances.py`):
   - showtime and card eligibility;
   - title truncation;
   - the per-film row dictionaries and their field names;
   - the day list.

In the model:
- Dates are integer day numbers, and `d % 7` is the weekday, with day 0 a Monday.
- Clock times are `(hour, minute)` pairs.
- Python's dicts are association lists in insertion order.
- The `ValueError`s of the week check are a `Result` error.
  - This includes `min()` of an empty list, which becomes `EmptySchedule`.

The engine exists three times in the source:
- `helpers/schedules.py`;
- `allocine/__init__.py:292-419`, with the weekday label at lines 316-336, the time weight at 346-356 and the schedule text at 358-419;
- the validator copy in `allocine/showtimes.py:49-70`.

The copies are line-for-line the same, so one model covers all three, and the table below cites the `helpers/schedules.py` lines. The same holds elsewhere, where the table cites the first copy:
- the showtimes of a day: `data/showtimes.py:17-18`, `allocine/showtimes.py:16-18` and `allocine/__init__.py:422-424`;
- the available dates and the grouping per schedule: `data/showtimes.py:22-42` and `allocine/__init__.py:266-284`;
- the showtimes of a film: the `Cinema` class (`data/cinemas.py:36-43`) and the `Theater` class (`allocine/__init__.py:211-218`);
- the version string: `data/movies.py:94-99` and `allocine/__init__.py:89-94`;
- the field names, the eligibility test and the day list: `app/main.py` and `seances.py:13-22`, `seances.py:121-128` and `seances.py:72-85`.

Four points of the code's behaviour that are easy to misread:
- Weekday labels of one to four days list the days in date order, not weekday order. `create_weekdays_str` sorts the distinct dates before taking their weekdays (`helpers/schedules.py:153-155`), and its docstring gives `'Mer, Lun'` for a Wednesday and the following Monday (`helpers/schedules.py:151`).
- The times inside a group are in plain clock order: `hours.sort()` sorts `time` values (`helpers/schedules.py:88-92`). Only the groups themselves, and the time-led list, are ordered by the night-aware weight (`helpers/schedules.py:94-101`).
- A single pattern group prints its label first. When `different_showtimes == 1` the loop writes the label and then the hours (`helpers/schedules.py:123-124`).
- "Every day" means seven distinct dates. `create_weekdays_str` returns the empty label exactly when `len(unique_dates) == 7` (`helpers/schedules.py:157-158`), and `build_weekly_schedule_str` tests for that empty label (`helpers/schedules.py:107-108`).

Files:
- `calendar.dfy`, `text.dfy`, `seqs.dfy`, `results.dfy`: dates and times, string building, sequence facts, and the `Result` type.
- `timing.dfy`: the French formatters.
- `week_check.dfy`, `weekday_labels.dfy`, `weekly_schedule.dfy`, `weekly_examples.dfy`: the engine.
- `movies.dfy`, `showtimes.dfy`, `buckets.dfy`, `cinemas.dfy`: films, showtimes and cinemas.
- `rows.dfy`, `seances.dfy`: the command-line helpers.

## Model

| member | source | states |
|---|---|---|
| Calendar.DateTimeBeforeIsAbsoluteOrder | app/main.py:81-82 | Python's lexicographic order on date-times is the order of their absolute minute counts |
| Calendar.WeekdayInjectiveWithinWeek | helpers/schedules.py:155-157 | two dates less than seven days apart with the same weekday are the same date |
| Timing.FrenchWeekday | helpers/timing.py:4-6 | day indices 0..6 give the seven French names; -7..-1 give the name of index i+7 (Python negative indexing); any other index fails |
| Timing.ShortWeekday | helpers/timing.py:27-28 | the three-letter name is Lun, Mar, Mer, Jeu, Ven, Sam, Dim for 0..6 |
| Timing.ShortWeekdayInjective | helpers/timing.py:27-28 | two weekdays with the same three-letter name are the same weekday |
| Timing.FrenchShortWeekday | helpers/timing.py:27-28 | the full name cut to three letters, defined on the same indices as the full name; -7..-1 give the short name of index i+7 |
| Timing.FrenchMonth | helpers/timing.py:9-24 | month n in 1..12 gives the (n-1)-th table entry; n in -11..0 gives entry n+11, counted from the end; every other n fails |
| Timing.AllocineFrenchMonth | allocine/__init__.py:180-185 | the same rule over the second month table |
| Timing.HourShort | helpers/timing.py:31-34 | unpadded hour, "h", then two-digit minutes, with "h00" collapsed to "h" |
| Timing.ParseHourShortRoundTrip | helpers/timing.py:31-34 | a short hour string reads back as the time it prints |
| Timing.HourShortInjective | helpers/timing.py:31-34 | two different times never print the same short hour |
| Timing.HourStr | helpers/schedules.py:30-32 | `HH:MM` is five characters: two digits reading as the hour, a colon, two digits reading as the minute |
| Timing.DayStr | helpers/timing.py:37-38 | the full French name of the date's weekday |
| Timing.ShortDayStr | helpers/timing.py:41-42 | the first three letters of the date's full weekday name |
| WeekCheck.CheckWithinWeek | helpers/schedules.py:180-202 | an empty list fails with EmptySchedule and nothing else does; a non-empty list fails with LongerThanAWeek exactly when it spans seven days or more; it fails with OutsideWednesdayToTuesday exactly when it spans under a week, covers more than one date, and starts on a Tuesday, or on a Monday and ends Wednesday or later; a single-day list always passes; success returns true |
| WeekCheck.SpanWithinAWeek | helpers/schedules.py:182-186 | "every pair of dates less than seven days apart" is the span test max - min < 7 |
| WeekCheck.ExhibitionWeekAccepted | helpers/schedules.py:187-200 | every non-empty date list inside one Wednesday-to-Tuesday week passes |
| WeekCheck.AcceptedFacts | helpers/schedules.py:184-200 | an accepted list is non-empty with span under seven days; if it spans several days it does not start on a Tuesday, and a Monday start ends before Wednesday |
| WeekCheck.AcceptedOutsideWeekStartsLate | helpers/schedules.py:194-197 | an accepted list that fits no Wednesday-to-Tuesday week starts on a Thursday or later |
| WeekCheck.EarlyStartWeek | helpers/schedules.py:187-200 | an accepted span starting on a Monday, Tuesday or Wednesday lies inside one Wednesday-to-Tuesday week |
| WeekCheck.ThursdayToWednesdayPasses | helpers/schedules.py:194-197 | the check accepts a Thursday followed by the next Wednesday, a list that fits no exhibition week |
| WeekdayLabels.WeekdaysInDateOrder | helpers/schedules.py:154-155 | one entry per distinct date, and exactly the weekdays present |
| WeekdayLabels.WeekdaysFollowDates | helpers/schedules.py:151-155 | within one week the weekdays are listed in date order: a weekday listed before another belongs to an earlier date, so a Wednesday and the next Monday list Wednesday first |
| WeekdayLabels.WeekdaysInDateOrderDistinct | helpers/schedules.py:154-155 | within one week the listed weekdays are pairwise different |
| WeekdayLabels.SevenDatesAreEveryWeekday | helpers/schedules.py:157-158 | within one week, seven distinct dates are exactly the seven weekdays |
| WeekdayLabels.MissingWeekdays | helpers/schedules.py:162 | the weekdays absent from a set, strictly ascending by index |
| WeekdayLabels.Classify | helpers/schedules.py:157-165 | seven distinct dates mean every day; at most four are listed in date order; otherwise the missing weekdays are listed in index order |
| WeekdayLabels.WeekdaysLabel | helpers/schedules.py:144-165 | the label is empty exactly for seven distinct dates; one to four dates give their names joined by ", " in date order; five or six give "sf " and the missing names |
| WeekdayLabels.JoinNamesShape | helpers/schedules.py:160 | k joined names take 5k-2 characters: a name, then ", " before each further name |
| WeekdayLabels.JoinNamesInjective | helpers/schedules.py:160 | a joined name list determines the weekdays it lists |
| WeekdayLabels.RenderPatternInjective | helpers/schedules.py:157-165 | two different well-formed patterns never print the same label |
| WeekdayLabels.LabelDeterminesWeekdays | helpers/schedules.py:144-165 | within one week, two date lists with the same label fall on the same weekdays |
| WeekdayLabels.WellFormedWithinAWeek | helpers/schedules.py:154-165 | within one week there are at most seven distinct dates and the label's pattern is well formed |
| WeekdayLabels.WednesdayThenMondayExample | helpers/schedules.py:151 | a Wednesday and the following Monday print "Mer, Lun" |
| WeekdayLabels.MondayToFridayExample | helpers/schedules.py:149 | Monday to Friday prints "sf Sam, Dim" |
| WeeklySchedule.NewSchedule | helpers/schedules.py:18-20 | the start is kept; a given end is kept; a missing end becomes fifteen minutes after the start |
| WeeklySchedule.TimeWeight | helpers/schedules.py:168-177 | the weight is the minute of the day, plus one day exactly when the time lies in the closed window 00:00-05:00 |
| WeeklySchedule.TimeWeightInjective | helpers/schedules.py:168-177 | different times have different weights |
| WeeklySchedule.TimeWeightOrder | helpers/schedules.py:168-177 | night showings order after all others; within the same window, weight order is clock order |
| WeeklySchedule.DistinctTimes | helpers/schedules.py:76-80 | the keys of the hours map: every start time once |
| WeeklySchedule.DatesAt | helpers/schedules.py:76-80 | the dates recorded under time t are exactly the dates with a showing at t |
| WeeklySchedule.GroupOf | helpers/schedules.py:82-93 | a group holds, deduplicated and strictly in clock order, exactly the start times whose label is its label |
| WeeklySchedule.MinWeight | helpers/schedules.py:136-141 | the smallest weight among the group's times, attained by one of them |
| WeeklySchedule.LabelsInOrder | helpers/schedules.py:82-86 | every label of a start time, once each |
| WeeklySchedule.Groups | helpers/schedules.py:82-99 | one group per label, with non-empty clock-ordered times; each time sits in the group of its label; groups are strictly ordered by their minimum weight |
| WeeklySchedule.EmptyLabelIsEveryDay | helpers/schedules.py:105-108 | a group under the empty label, the everyday test, means some start time occurs on seven distinct dates |
| WeeklySchedule.EveryDayHasEmptyLabel | helpers/schedules.py:105-108 | a start time on seven distinct dates puts a group under the empty label, so the everyday test holds exactly then |
| WeeklySchedule.TimesByWeight | helpers/schedules.py:101-103 | every start time once, strictly in weight order |
| WeeklySchedule.BuildWeekly | helpers/schedules.py:70-133 | a failing week check is returned unchanged; otherwise, if some time runs every day, the output is the time-led list joined by ", "; otherwise it is the groups joined by "; "; a single group prints label first |
| WeeklySchedule.AssembleLayouts | helpers/schedules.py:110-133 | the chosen layout's loop output, with the trailing two characters removed, is the joined list; the bracketed branch of `build_weekly_schedule_str`, which needs both the every-day test and the pattern-led loop, never contributes |
| WeeklySchedule.NonEmptyLayouts | helpers/schedules.py:101-105 | a non-empty schedule list has at least one time and one group |
| WeeklySchedule.TimeLayout | helpers/schedules.py:112-133 | the time-led loop, with its trailing separator cut, is the ", "-join of the time texts |
| WeeklySchedule.PatternLayout | helpers/schedules.py:120-132 | the pattern-led loop with its trailing separator cut is the "; "-join of the groups, or the single group's text |
| WeeklyExamples.EverydayMeansEveryWeekday | helpers/schedules.py:105-108 | inside an accepted week, some time runs every day exactly when its dates cover all seven weekdays |
| WeeklyExamples.DatesAtWithinAWeek | helpers/schedules.py:76-83 | the dates of one time stay within the week of all the dates |
| WeeklyExamples.SingleTimeOneGroup | helpers/schedules.py:82-99 | when every showing starts at the same time there is exactly one group, holding that time |
| WeeklyExamples.GroupDaysFromFirstTime | helpers/schedules.py:82-86 | a group's label is the label of its first time |
| WeeklyExamples.SingleEveningExample | helpers/schedules.py:123-124 | 21:00 from Wednesday to Sunday prints "sf Lun, Mar 21h" |
| Movies.Version | data/movies.py:94-99 | "VF" exactly for French, otherwise "VOST"; the bare string exactly for the digital format; otherwise a space and the format follow |
| Movies.ParseVersionRoundTrip | data/movies.py:94-99 | a version string reads back as its language family and its non-digital format |
| Movies.VersionInjective | data/movies.py:94-99 | equal version strings mean the same language family and the same format, unless the format is digital |
| Movies.GetMovie | data/movies.py:101-114 | every film field is copied from the version |
| Movies.GetMovieForgetsVersion | data/movies.py:101-114 | versions differing only in language or format give the same film |
| Movies.SameVersionSameMovie | data/movies.py:120-121 | equal versions are versions of equal films; a French and a non-French version of one film are different versions |
| Movies.StrfDelta | data/movies.py:80-86 | hours below 24 and minutes below 60 such that hours*3600 + minutes*60 is the sub-day seconds rounded down to the minute |
| Movies.StrfDeltaExact | data/movies.py:80-86 | whole days and leftover seconds do not show in the hours and minutes |
| Movies.DurationStr | data/movies.py:26-31 | five characters; exactly "HH:MM" when there is no duration, and a colon at the third place only then; otherwise two digits reading as the hours, "h", and two digits reading as the minutes |
| Movies.DurationShortStr | data/movies.py:33-38 | "NA" exactly when there is no duration; otherwise at least one digit reading as the hours, with no leading zero, then "h" and two digits reading as the minutes |
| Showtimes.ShowtimesOfDay | data/showtimes.py:17-18 | a subsequence holding each showtime of date d as often as the input does, and no other showtime |
| Showtimes.AvailableDates | data/showtimes.py:22-24 | strictly ascending, and exactly the dates of some showtime |
| Showtimes.GroupPerSchedule | data/showtimes.py:27-42 | keys are distinct; each group's dates ascend; every available date is in exactly the group of its hours string; sizes sum to the number of available dates; groups are ordered by their first date |
| Showtimes.SameGroupIffSameHours | allocine/showtimes.py:28-41 | two available dates share a group exactly when their days' hour strings are equal |
| Showtimes.BuildProgram | data/showtimes.py:45-47 | the result is the weekly schedule of the showtimes' start times: it fails exactly when the week check of their dates fails, with that error; otherwise it is the time-led join when some time runs every day and the pattern-led join when none does |
| Showtimes.BuildProgramOnlyStarts | allocine/showtimes.py:44-46 | the program depends only on the start date-times, not on films or end times |
| Buckets.GroupByKey | data/cinemas.py:53-59 | the dict-of-lists loop: bucket keys are distinct, each bucket is the order-preserving filter of its key, every entry has a bucket, and the buckets come in the order their keys first appear (dict insertion order) |
| Buckets.BucketedInOrderUnique | data/cinemas.py:53-59 | only one list of buckets meets all of those conditions, so they fix the grouping completely |
| Buckets.OneBucketEach | data/cinemas.py:53-59 | each entry sits in exactly one bucket |
| Buckets.DistinctBy | data/cinemas.py:48-51 | `list(set(...))` under a key: no two kept entries share a key, each comes from the input, and each input key is represented |
| Cinemas.VersionKeyIsSameVersion | data/movies.py:120-126 | the hash key of a version is equal exactly when the versions are equal |
| Cinemas.ShowtimesOfMovie | data/cinemas.py:36-43 | a subsequence of the showtimes of that version, restricted to the date when one is given, with multiplicities kept |
| Cinemas.VersionsOfDayMembers | data/cinemas.py:48-50 | the versions listed for a day are exactly those of that day's showtimes |
| Cinemas.MoviesAvailableForDay | data/cinemas.py:48-51 | no two returned versions are equal; each is the version of a showtime that day; every showtime that day has its version represented |
| Cinemas.ShowtimesPerVersion | data/cinemas.py:53-59 | non-empty buckets with pairwise different versions, each the in-order list of the showtimes of its version, covering every showtime, in the order the versions first appear |
| Cinemas.ShowtimesPerMovie | data/cinemas.py:61-68 | the same, keyed by the film without version, so VF and VOST of one film share a bucket; the buckets come in the order the films first appear |
| Cinemas.FirstFilmFirstBucket | data/cinemas.py:61-68 | the first bucket holds exactly the showtimes of the first showtime's film |
| Cinemas.LaterFilmLaterBucket | data/cinemas.py:61-72 | a film first shown after another film has its bucket, and so its program entry, after the other's |
| Cinemas.OneFilmBucket | allocine/__init__.py:236-243 | a showtime sits in only one film bucket, and two showtimes of one film id sit in the same buckets |
| Cinemas.Programs | data/cinemas.py:70-74 | success exactly when every bucket's program succeeds, and then one entry per bucket: its film and its program |
| Cinemas.ProgramsStopAtFirstError | data/cinemas.py:70-74 | a failure carries the error of the first failing bucket |
| Cinemas.ProgramPerMovie | data/cinemas.py:70-74 | success exactly when every film's program succeeds, and then each film paired with the weekly program of its bucket |
| Cinemas.FilterShowtimes | data/cinemas.py:76-80 | only the showtimes change; identity is kept; the showtimes are the order-preserving filter by the inclusive bounds, with an absent bound imposing nothing |
| Cinemas.FilterShowtimesKeeps | allocine/__init__.py:251-255 | the kept showtimes are a subsequence holding exactly those within the bounds |
| Cinemas.FilterShowtimesIdempotent | data/cinemas.py:76-80 | filtering twice with the same bounds is filtering once |
| Rows.Get | app/main.py:176 | `row.get(k)` finds a value exactly when the key is present, and the value is stored under that key |
| Rows.GetFindsEntry | seances.py:200 | in a dict, `get` returns v exactly when (k, v) is stored |
| Rows.Put | app/main.py:151 | assignment keeps the dict property; an existing key keeps its place, and a new key is appended |
| Rows.PutThenGet | app/main.py:151 | after `row[k] = v`, k reads v and every other key reads as before |
| Rows.AllKeys | app/main.py:17-19 | the concatenated keys contain exactly the keys of some row |
| Rows.SortedStrings | app/main.py:20-21 | `sorted(list(set(s)))`: strictly ascending, with the same members as s |
| Rows.ExtractFieldNames | app/main.py:12-21 | the field names are strictly ascending, duplicate-free, and exactly the keys of some row |
| Rows.LexSortedUnique | seances.py:20-22 | only one strictly ascending list holds a given set of strings |
| Rows.FieldNamesOnlyDependOnKeys | app/main.py:12-21 | the field names depend only on which keys occur, not on the rows' order |
| Seances.CheckShowtimeEligibility | app/main.py:77-83 | eligible exactly when there is no earliest bound or the start is strictly later than that time on the given day, and there is no latest bound, or no end, or the end is strictly earlier than that time on the given day |
| Seances.EligibilityWidens | app/main.py:77-83 | widening the window (an earlier or absent start bound, a later or absent end bound) keeps an eligible showtime eligible |
| Seances.EligibilityIsStrict | seances.py:121-128 | a showtime starting exactly at the earliest bound, or ending exactly at the latest, is not eligible |
| Seances.CardEligible | app/main.py:66-74 | rejects exactly when the card is "UGC", the member cards are known, and none has code 106002 |
| Seances.CardEligibleCli | seances.py:113-119 | rejects exactly when the card is "UGC" and no member card has code 106002; there is no guard on missing cards |
| Seances.CardChecksAgree | seances.py:96-100 | on a cinema with known cards, the inline check, the seances.py helper and the app/main.py helper decide alike |
| Seances.TruncateTitle | app/main.py:136-138 | titles shorter than 31 characters stay; titles of 31 characters or more are cut to their first 31 followed by "..." |
| Seances.TruncateTitleIdempotent | seances.py:153-155 | cutting an already cut title changes nothing |
| Seances.HourKey | app/main.py:150 | the text before the colon of `HH:MM` is two digits reading as the hour |
| Seances.HourKeysMatchHours | seances.py:170 | two showtimes share a cell key exactly when they start in the same hour |
| Seances.HeaderRow | app/main.py:141-147 | a fresh row holds exactly the film and note columns, in that order; the film cell reads "<cut title> (<version>) - <duration>" and the note cell is the rating followed by "*" |
| Seances.FilmRowKeepsHeaderCells | app/main.py:141-151 | adding the showtime cells leaves the film and note cell texts of the header unchanged |
| Seances.AddCells | app/main.py:149-151 | the showtime loop keeps the dict property and the existing columns in place, and adds exactly the hour keys of its showtimes |
| Seances.AddCellsKeepsOthers | seances.py:168-171 | keys that no showtime writes keep their value |
| Seances.AddCellsLastWins | app/main.py:149-151 | each hour's cell holds the last showtime of that hour |
| Seances.RowKeptIffShowtimes | app/main.py:153-156 | a film row grows beyond two columns exactly when the film has a showtime to show |
| Seances.DisplaySeances | app/main.py:131-158 | one row per film with showtimes, in film order; films without showtimes are skipped |
| Seances.NoRowsIffNoShowtimes | seances.py:173-182 | there are no rows exactly when no film has a showtime to show |
| Seances.FilmGroup | app/main.py:123-129 | a film's entry holds, in input order, exactly the showtimes of that version on that day that pass the eligibility test |
| Seances.SeanceData | app/main.py:109-129 | one group per film available that day, holding that film's showtimes on that day that pass the eligibility test, in input order |
| Seances.SeanceDataMembers | app/main.py:123-129 | a group holds exactly the showtimes of its version on that day that pass the test |
| Seances.CinemaTables | app/main.py:85-106 | the tables are, in day order, the day heading and rows of exactly the days with a showtime to show; every table has rows; there is no table exactly when no day has a showtime to show |
| Seances.ShowtimeTable | seances.py:145-207 | fails exactly when some shown showtime has no end time; "Aucune séance" after the day exactly when no film has a showtime; otherwise the rows under their sorted field names |
| Seances.DayList | app/main.py:212-225 | with `semaine` False: a missing day gives today, "" fails, "+" followed by digits gives today plus their decimal value, "+" followed by anything else (nothing included) fails, and other text is kept as given; otherwise seven consecutive days from today |
| Seances.PaddedOffset | app/main.py:216-219 | zeros before the offset digits do not change the day: "+007" is seven days from today |
| Seances.LeadingZerosParse | seances.py:77 | zeros in front of a digit string keep it a digit string of the same value |
| Seances.DayOffsetRoundTrip | seances.py:76-79 | "+" followed by the decimal rendering of n names the day n days from today |
| Seances.WeekListHasEveryWeekday | app/main.py:222-225 | the seven days of the week list fall on seven different weekdays |

## Left out

- HTTP fetching and the client are not modelled. This covers the singleton, the 503 retries and page loops (`allocine/__init__.py:428-604`, `allocine/client.py`). These are network I/O.
- The JSON feed parsing is not modelled (`allocine/__init__.py:444-534`). Showtimes enter the model already built. Feed times carry zero seconds, so clock times have none.
- `print`, `log_v`, the click decorators, the Flask app and JSON dumping are not modelled. They are output and web plumbing.
- PrettyTable rendering is not modelled. This covers `get_showtime_table` of `app/main.py` and the table part of `seances.py:185-205`. The model stops at the row dictionaries and their field names, which is what the rendering receives. The `sortby` row order belongs to the renderer.
- `strftime` and `strptime` are not modelled, and neither is `date.today()`:
  - dates are integers;
  - "today" is a parameter;
  - the day text of `seances.py` and its date are passed separately;
  - a day argument that does not parse as `%d/%m/%Y` is not modelled.
- `%-H` is platform-specific. It is modelled as its intended meaning: the hour with no leading zero.
- `rating_str` formats a float. It is a parameter of the row builders.
- `nationalities`, `strip_accents`, `_clean_synopsis` and `address_str` are not modelled. They are foreign library calls or display strings.
- The accented month names of `helpers/timing.py` are stored double-encoded. They are kept as opaque constants.
- Seances.DayList: `int()` (`seances.py:77`) also accepts a sign and surrounding spaces after the `+`, underscores between digits (`"+1_0"` is ten days), and non-ASCII decimal digits. The model reads only plain ASCII digits after the `+` and treats any other text there, these forms included, as a `BadOffset` failure. Python's date addition also raises `OverflowError` when the result falls after 31 December 9999 or before 1 January of year 1, or when the offset exceeds 999999999 days; the model's dates are unbounded integers and it returns that day instead.
- Seances.CardEligible: the member card code is typed as text in `data/memberships.py` but compared with the integer 106002. The model stores the code as an integer.
- `seances.py` reads `member_cards` and `end_time`, which the `allocine` package's `Theater` and `Showtime` do not define. The model treats them as present, as in `data/cinemas.py` and `helpers/schedules.py`.
- Cinemas.MoviesAvailableForDay: `list(set(...))` has an unspecified order. The contract states the contents and that there are no duplicates, not an order. The model keeps the first appearance of each version.
- The three engine copies are one model. The `allocine/showtimes.py` validator returns `True` on every path that does not raise, which `CheckWithinWeek` states.
