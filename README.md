# Focus_Pal study tracker: a Dafny model of the per-user record update

Focus_Pal is a small web service for study tracking. Users register, submit
daily check-ins (minutes studied, chapters covered, questions done, whether a
mock exam was sat) and read back a summary of their streak and milestones.

This project models the per-user record the service keeps, one JSON file per
user in the original, and the five operations on it:

- registration (`register_user`);
- implicit creation (`init_user_file`);
- check-in (`checkin`), which applies the streak transition, stamps
  `last_checkin`, appends the entry and updates the milestone counters;
- the summary view (`get_summary`);
- the user listing (`list_users`).

The store of files is a `map<string, Record>` held in the class
`Store.UserStore`. The class's methods `Register`, `InitUserFile` and
`Checkin` update it in place, as the original rewrites files. Each method's
new state is tied to a function of the old state (`InitUserFileOn`,
`CheckinOn`). The properties are proved as lemmas about those functions.
Every method also keeps the store invariant `StoreConsistent`: every record
is filed under its own id, and its counters agree with its check-in history.

Modules follow the code:

- `Records`: the data model, including the `CheckIn` request shape.
- `Streak`, `Chapters`, `Checkin`: the check-in logic of `main.py`.
- `Store`: the two record templates and the state-changing operations.
- `Summary` and `Listing`: the two read-only endpoints.
- `Wrappers`: `Option` and `Result`.

Time is a parameter. A date is a day number. The current moment is an
`Instant`: a day number plus the time of day in microseconds, the resolution
of Python's `datetime`.

Behaviour of the code that the model keeps as written:

- **The streak compares datetimes, not dates.** The stored date is parsed to
  midnight and compared with `datetime.today()`, which carries the time of
  day. So the "yesterday" (+1) and "same day" (unchanged) branches fire only
  at exactly 00:00:00.000000. At any other moment the streak becomes 1
  (`Streak.StreakAfter`, `Checkin.CheckinOffMidnightResetsStreak`,
  `Checkin.NextDaySameTimeResetsStreak`). One would expect check-ins on
  consecutive calendar days to build a streak as long as the run. In the
  code this holds only for check-ins made exactly at midnight
  (`Checkin.ConsecutiveMidnights`).
- **`total_sessions` is never incremented.** Records created by
  `init_user_file` do not have the key at all. The key reads as a count of
  check-ins, but it stays 0 where present (`Checkin.Consistent`,
  `Checkin.TotalSessionsLagsHistory`).
- **`get_summary` fails for implicitly created records.** It reads
  `milestones["total_sessions"]`, so a user whose first contact was a
  check-in gets a `KeyError` from it. This is modelled as
  `Err(MissingTotalSessions)` (`Summary.CheckinWithoutRegisterBreaksSummary`).
- **The streak is at least 1 after a check-in only for a consistent
  record.** A record with a last check-in and a zero streak keeps 0 on a
  second check-in at the same midnight (`Streak.ZeroStreakCanSurvive`).
  Records made by the service never have that shape (`Checkin.Consistent`).
- **`list_users` uses `replace`, not a suffix strip.** A user registered as
  `a.json` is listed as `a` (`Listing.ReplaceIsNotSuffixStrip`). Ids without
  `.json` in them come back unchanged (`Listing.FileNameRoundTrip`).
- **`total_hours` is counted in hundredths of an hour.** Each check-in adds
  the integer nearest to 5 × `duration_mins` / 3, which is
  `round(duration_mins / 60, 2)` in exact arithmetic.

## Model

| member | source | states |
|---|---|---|
| `Records.HoursIncrement` | main.py:90 | the hours increment is `duration_mins / 60` rounded to the nearest hundredth: at most a third of a hundredth away |
| `Records.Midnight` | main.py:67 | `strptime` of a stored date: that day at time 0; no contract of its own, its use is stated by `Streak.StreakAfter` |
| `Records.MinusOneDay` | main.py:68 | `datetime.today() - timedelta(days=1)`: same time of day, one day earlier; no contract of its own, its use is stated by `Streak.StreakAfter` |
| `Streak.StreakAfter` | main.py:65-73 | no last check-in gives 1; a time of day other than 00:00:00.000000 gives 1; at the midnight after the last check-in day the streak grows by 1; at the midnight of that day it is unchanged; on any other day it becomes 1 |
| `Streak.OffMidnightResetsStreak` | main.py:67-71 | with a nonzero time of day the new streak is always 1, whatever the last check-in |
| `Streak.StreakAtLeastOne` | main.py:66-73 | a non-negative streak that is positive whenever a last check-in exists is at least 1 afterwards |
| `Streak.ZeroStreakCanSurvive` | main.py:70 | without that proviso the bound fails: streak 0 stays 0 at the midnight of the last check-in day |
| `Chapters.AddChapter` | main.py:95-96 | one turn of the loop; no contract of its own, stated through `Chapters.Merge` |
| `Chapters.Merge` | main.py:94-96 | the old list is a prefix of the new one; a chapter is in the result iff it was listed or covered; every added chapter was covered and not listed before; no duplicates if there were none, even when covered repeats a chapter |
| `Chapters.MergeConcat` | main.py:94-96 | merging `a` then `b` equals merging `a + b` |
| `Chapters.MergeAbsorbs` | main.py:95 | chapters that are all listed already leave the list unchanged |
| `Chapters.MergeIdempotent` | main.py:94-96 | submitting the same chapters again changes nothing |
| `Checkin.EntryOf` | main.py:78-85 | the new entry; no contract of its own, its fields are stated by `Checkin.CheckinAppendsEntry` |
| `Checkin.UpdateMilestones` | main.py:89-96 | the milestone updates; no contract of its own, stated by `Checkin.CheckinCounters` and `Checkin.CheckinChapters` |
| `Checkin.ApplyCheckin` | main.py:65-96 | the check-in update of one record; no contract of its own, stated by `Checkin.CheckinStreak`, `Checkin.CheckinAppendsEntry`, `Checkin.CheckinCounters`, `Checkin.CheckinChapters` and `Checkin.CheckinPreservesConsistent` |
| `Checkin.CheckinStreak` | main.py:65-73 | the streak cases of a whole check-in, stated in days and time of day |
| `Checkin.CheckinOffMidnightResetsStreak` | main.py:67-71 | a check-in at any moment other than exactly midnight leaves a streak of 1 |
| `Checkin.CheckinAppendsEntry` | main.py:75-86 | `last_checkin` becomes today; the history grows by one; the old entries are an unchanged prefix; the new entry carries today's date and the submitted fields |
| `Checkin.CheckinCounters` | main.py:89-93 | `total_questions` grows by `questions_done`; `total_hours` by the rounded increment; `mock_exams_done` by 1 exactly when `mock_done`; `total_sessions` is unchanged |
| `Checkin.CheckinChapters` | main.py:94-96 | the old chapter list is a prefix of the new one; every covered chapter is in it; only covered chapters are added; no duplicates are introduced |
| `Checkin.ChaptersOf` | main.py:94-96 | the chapters of a whole history, once each: a chapter is listed iff some entry covered it |
| `Checkin.ZeroedIsConsistent` | main.py:33-45 | a freshly created record satisfies the record invariant |
| `Checkin.CheckinPreservesConsistent` | main.py:65-96 | a check-in keeps the invariant: last date, positive streak, counters equal to the history's, `total_sessions` absent or 0, and it leaves a streak of at least 1 |
| `Checkin.TotalSessionsLagsHistory` | main.py:89-96 | after a check-in `total_sessions` is still 0 while the history is non-empty |
| `Checkin.ConsecutiveMidnights` | main.py:66-75 | check-ins made exactly at consecutive midnights give a streak equal to their number, and `last_checkin` is the last day |
| `Checkin.NextDaySameTimeResetsStreak` | main.py:68-71 | two check-ins on consecutive days at the same non-midnight time of day leave a streak of 1 |
| `Store.RegisterTemplate` | main.py:33-45 | register_user's record; no contract of its own, stated by `Store.TemplatesZeroed` |
| `Store.InitTemplate` | utils.py:8-19 | init_user_file's record; no contract of its own, stated by `Store.TemplatesZeroed` |
| `Store.TemplatesZeroed` | utils.py:8-19 | both templates are zeroed and consistent; register_user's has `total_sessions = 0`, init_user_file's has no such key, and that is their only difference |
| `Store.InitUserFileOn` | utils.py:4-25 | the id is present afterwards; an existing id leaves the store unchanged; an absent one gets the template; every other entry is unchanged |
| `Store.InitUserFileIdempotent` | utils.py:7-25 | calling init_user_file twice equals calling it once |
| `Store.CheckinOn` | main.py:53-100 | the user's record afterwards is the check-in applied to the stored record, or to init_user_file's template if none; every other entry is unchanged |
| `Store.InitUserFilePreservesConsistent` | utils.py:7-22 | init_user_file keeps every record consistent |
| `Store.CheckinOnPreservesConsistent` | main.py:53-100 | a check-in keeps every record of the store consistent |
| `Store.UserStore.Register` | main.py:26-50 | fails, leaving the store unchanged, iff the id exists; otherwise adds the zeroed template with `total_sessions = 0`; keeps the store invariant |
| `Store.UserStore.InitUserFile` | utils.py:4-25 | reports whether a record was created, which happens iff the id was absent; the new store is `InitUserFileOn` of the old; keeps the invariant |
| `Store.UserStore.Checkin` | main.py:53-106 | the new store is `CheckinOn` of the old; returns the new streak and milestones; keeps the invariant, and on a consistent store the returned streak is at least 1 |
| `Store.MergeChapters` | main.py:94-96 | the chapter loop computes `Merge` of the old list and the covered chapters |
| `Summary.Reversed` | main.py:139 | `[::-1]`: same length, element k is element n-1-k |
| `Summary.LastN` | main.py:139 | `[-3:]`, the whole list when shorter; no contract of its own, stated through `Summary.RecentCheckIns` |
| `Summary.RecentCheckIns` | main.py:139 | `check_ins[-3:][::-1]` has length min(3, n); element k is the (k+1)-th newest entry; the first is the newest |
| `Summary.GetSummary` | main.py:118-140 | fails with not-found iff there is no record; fails iff the record has no `total_sessions`; otherwise echoes the id, streak, last date and the five counters, and the recent entries, newest first |
| `Summary.SummaryShowsNewestFirst` | main.py:86 | after a check-in a successful summary opens with the entry just made |
| `Summary.RegisterThenCheckin` | main.py:26-106 | register then one check-in: the summary succeeds with streak 1, that single entry, `total_sessions` 0, and questions, hours, mock count and chapter list taken from that entry alone |
| `Summary.CheckinWithoutRegisterBreaksSummary` | main.py:137 | a check-in by an unregistered user makes that user's summary fail |
| `Listing.RemoveAll` | main.py:114 | `str.replace(pat, "")` never lengthens the name |
| `Listing.EndsWith` | main.py:114 | `str.endswith`; no contract of its own, used by `Listing.ListUsers` |
| `Listing.UserIdOf` | main.py:114 | `filename.replace(".json", "")`; no contract of its own, stated by `Listing.FileNameRoundTrip` and `Listing.ReplaceIsNotSuffixStrip` |
| `Listing.FileNameOf` | main.py:28 | `f"{user_id}.json"`, the file a record lives in (also utils.py:5); no contract of its own, stated by `Listing.FileNameRoundTrip` |
| `Listing.ListUsers` | main.py:114 | no more ids than names; an id is listed iff some name ending in `.json` yields it with every `.json` removed |
| `Listing.ListUsersIn` | main.py:109-116 | a missing data directory is an error; otherwise exactly `ListUsers` of its listing, in listing order (see `Listing.ListUsersConcat`), with membership iff a `.json` name yields the id |
| `Listing.ListUsersConcat` | main.py:114 | listing order is kept: the ids of `a + b` are those of `a` followed by those of `b` |
| `Listing.ListUsersSingle` | main.py:114 | one name yields its id iff it ends with `.json` |
| `Listing.FileNameRoundTrip` | main.py:28 | a user id without `.json` in it has a file name that ends with `.json` and is listed as that id |
| `Listing.ReplaceIsNotSuffixStrip` | main.py:114 | the file of user `a.json` is listed as `a` |
| `Listing.ListUsersOfStore` | main.py:108-116 | if the directory holds one file per key of the store and no key contains `.json`, the listed ids are exactly the store's keys |

## Left out

- HTTP routing, status codes and pydantic validation (main.py:1-24): framework plumbing. Failure is the `ok` flag of `Register` and the error values of `GetSummary` and `ListUsersIn`.
- The liveness endpoint `root` (main.py:22-24): it returns a constant.
- File and JSON I/O, `os.path.exists` and `os.listdir`: replaced by the store map and a listing parameter. Paths built from ids that contain `/` are not modelled.
- The `print` calls of `init_user_file`: its `created` result says which message would be printed.
- The clock. `checkin` reads `datetime.today()` three times (main.py:62, 68, 70). The model reads it once, as the parameter `now`, so a check-in that straddles midnight is not modelled.
- Date strings and the `strftime`/`strptime` round trip: dates are day numbers, and datetime's year range 1-9999 is not enforced.
- Floating point: `total_hours` is an exact count of hundredths. The binary representation of each rounded increment and the drift of float addition are not modelled.
- Hand-edited record files: records missing keys other than `total_sessions`, or holding values of other types, are not modelled.
- Concurrent requests and lost updates: the service is modelled as handling one request at a time.
- lambda_function.py: it wraps `build_prompt`, `generate_message` and `build_summary_string` from utils, and utils.py does not define them. Their behaviour is not part of this model.
- Listing.RemoveAll: its own contract states only the length bound. What it does to file names is stated by `Listing.FileNameRoundTrip` and `Listing.ReplaceIsNotSuffixStrip`.
