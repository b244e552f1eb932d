/**
 * get_summary: the view of one user's record, with the last three entries
 * newest first. It fails for an unknown user, and, as written, for a record
 * without a total_sessions key (those init_user_file creates), where the
 * original raises KeyError.
 */
module Summary {
  import opened Wrappers
  import opened Records
  import opened Chapters
  import opened Checkin
  import opened Store

  datatype SummaryError = UserNotFound | MissingTotalSessions

  datatype MilestonesView = MilestonesView(
    totalHours: int,
    totalQuestions: int,
    mockExamsDone: int,
    chaptersCompleted: seq<string>,
    totalSessions: int)

  datatype SummaryView = SummaryView(
    userId: string,
    streakDays: int,
    lastCheckin: Option<int>,
    milestones: MilestonesView,
    recentCheckIns: seq<Entry>)

  function Min(a: int, b: int): int
  {
    if a <= b then a else b
  }

  /** s[::-1] */
  function Reversed<T>(s: seq<T>): (r: seq<T>)
    ensures |r| == |s|
    ensures forall k :: 0 <= k < |s| ==> r[k] == s[|s| - 1 - k]
  {
    if s == [] then [] else Reversed(s[1..]) + [s[0]]
  }

  /** s[-n:] for n >= 1: the whole of s when it is shorter than n. */
  function LastN<T>(s: seq<T>, n: nat): seq<T>
  {
    if |s| <= n then s else s[|s| - n..]
  }

  /** check_ins[-3:][::-1]: the newest min(3, n) entries, newest first. */
  function RecentCheckIns(entries: seq<Entry>): (r: seq<Entry>)
    ensures |r| == Min(3, |entries|)
    ensures forall k :: 0 <= k < |r| ==> r[k] == entries[|entries| - 1 - k]
    ensures entries != [] ==> r[0] == entries[|entries| - 1]
  {
    var last := LastN(entries, 3);
    assert forall k :: 0 <= k < |last| ==> last[k] == entries[|entries| - |last| + k];
    Reversed(last)
  }

  /** get_summary on the store. */
  function GetSummary(store: map<string, Record>, userId: string): (r: Result<SummaryView, SummaryError>)
    ensures r == Err(UserNotFound) <==> userId !in store
    ensures r == Err(MissingTotalSessions) <==> userId in store && store[userId].milestones.totalSessions.None?
    ensures r.Ok? ==> userId in store
    ensures r.Ok? ==> var rec, v := store[userId], r.value;
      && v.userId == userId
      && v.streakDays == rec.streakDays
      && v.lastCheckin == rec.lastCheckin
      && v.milestones == MilestonesView(rec.milestones.totalHours, rec.milestones.totalQuestions,
                                        rec.milestones.mockExamsDone, rec.milestones.chaptersCompleted,
                                        rec.milestones.totalSessions.value)
      && |v.recentCheckIns| == Min(3, |rec.checkIns|)
      && forall k :: 0 <= k < |v.recentCheckIns| ==> v.recentCheckIns[k] == rec.checkIns[|rec.checkIns| - 1 - k]
  {
    if userId !in store then Err(UserNotFound)
    else
      var rec := store[userId];
      var m := rec.milestones;
      match m.totalSessions
      case None => Err(MissingTotalSessions)
      case Some(sessions) =>
        Ok(SummaryView(userId, rec.streakDays, rec.lastCheckin,
                       MilestonesView(m.totalHours, m.totalQuestions, m.mockExamsDone, m.chaptersCompleted, sessions),
                       RecentCheckIns(rec.checkIns)))
  }

  /** After a check-in the summary, when there is one, opens with the entry just made. */
  lemma SummaryShowsNewestFirst(store: map<string, Record>, data: CheckIn, now: Instant)
    ensures var r := GetSummary(CheckinOn(store, data, now), data.userId);
      r.Ok? ==> r.value.recentCheckIns != [] && r.value.recentCheckIns[0] == EntryOf(data, now.day)
  {
  }

  /** A user who registered and then checked in once sees a streak of 1 and that one entry. */
  lemma RegisterThenCheckin(store: map<string, Record>, data: CheckIn, now: Instant)
    requires data.userId !in store
    ensures var r := GetSummary(CheckinOn(store[data.userId := RegisterTemplate(data.userId)], data, now), data.userId);
      && r.Ok?
      && r.value.streakDays == 1
      && r.value.lastCheckin == Some(now.day)
      && r.value.recentCheckIns == [EntryOf(data, now.day)]
      && r.value.milestones.totalSessions == 0
      && r.value.milestones.totalQuestions == data.questionsDone
      && r.value.milestones.totalHours == HoursIncrement(data.durationMins)
      && r.value.milestones.mockExamsDone == (if data.mockDone then 1 else 0)
      && r.value.milestones.chaptersCompleted == Merge([], data.chaptersCovered)
  {
  }

  /** A user whose first contact is a check-in gets the init_user_file record, and get_summary then fails. */
  lemma CheckinWithoutRegisterBreaksSummary(store: map<string, Record>, data: CheckIn, now: Instant)
    requires data.userId !in store
    ensures GetSummary(CheckinOn(store, data, now), data.userId) == Err(MissingTotalSessions)
  {
  }
}
