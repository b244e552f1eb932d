/**
 * The check-in update of one record, as a function of the record, the
 * submission and the current instant, with the invariant it preserves: the
 * milestone counters agree with the check-in history they summarise.
 */
module Checkin {
  import opened Wrappers
  import opened Records
  import opened Streak
  import opened Chapters

  /** The entry appended for a submission made on day today. */
  function EntryOf(data: CheckIn, today: int): Entry
  {
    Entry(today, data.durationMins, data.chaptersCovered, data.questionsDone, data.mockDone, data.notes)
  }

  /** The milestone updates of one check-in; total_sessions is not among them. */
  function UpdateMilestones(m: Milestones, data: CheckIn): Milestones
  {
    m.(totalHours := m.totalHours + HoursIncrement(data.durationMins),
       totalQuestions := m.totalQuestions + data.questionsDone,
       mockExamsDone := if data.mockDone then m.mockExamsDone + 1 else m.mockExamsDone,
       chaptersCompleted := Merge(m.chaptersCompleted, data.chaptersCovered))
  }

  /** The record after one check-in at instant now: streak, stamp, append, milestones. */
  function ApplyCheckin(rec: Record, data: CheckIn, now: Instant): Record
  {
    rec.(streakDays := StreakAfter(rec.streakDays, rec.lastCheckin, now),
         lastCheckin := Some(now.day),
         checkIns := rec.checkIns + [EntryOf(data, now.day)],
         milestones := UpdateMilestones(rec.milestones, data))
  }

  /** The streak cases of a check-in, stated in days and time of day. */
  lemma CheckinStreak(rec: Record, data: CheckIn, now: Instant)
    ensures var s := ApplyCheckin(rec, data, now).streakDays;
      && (rec.lastCheckin.None? ==> s == 1)
      && (now.time != 0 ==> s == 1)
      && (rec.lastCheckin.Some? && now == Midnight(rec.lastCheckin.value + 1) ==> s == rec.streakDays + 1)
      && (rec.lastCheckin.Some? && now == Midnight(rec.lastCheckin.value) ==> s == rec.streakDays)
      && (rec.lastCheckin.Some? && now.day != rec.lastCheckin.value + 1 && now.day != rec.lastCheckin.value ==> s == 1)
  {
  }

  /** A check-in at any time other than exactly midnight leaves a streak of 1. */
  lemma CheckinOffMidnightResetsStreak(rec: Record, data: CheckIn, now: Instant)
    requires now.time != 0
    ensures ApplyCheckin(rec, data, now).streakDays == 1
  {
  }

  /** The stamp and the history: one new entry, dated today, after the unchanged old ones. */
  lemma CheckinAppendsEntry(rec: Record, data: CheckIn, now: Instant)
    ensures var r := ApplyCheckin(rec, data, now);
      && r.userId == rec.userId
      && r.lastCheckin == Some(now.day)
      && |r.checkIns| == |rec.checkIns| + 1
      && rec.checkIns <= r.checkIns
      && r.checkIns[|rec.checkIns|] == Entry(now.day, data.durationMins, data.chaptersCovered,
                                             data.questionsDone, data.mockDone, data.notes)
  {
  }

  /** The counters: questions and hours accumulate, mocks count, total_sessions stays as it was. */
  lemma CheckinCounters(rec: Record, data: CheckIn, now: Instant)
    ensures var m, m' := rec.milestones, ApplyCheckin(rec, data, now).milestones;
      && m'.totalQuestions == m.totalQuestions + data.questionsDone
      && m'.totalHours == m.totalHours + HoursIncrement(data.durationMins)
      && m'.mockExamsDone == (if data.mockDone then m.mockExamsDone + 1 else m.mockExamsDone)
      && m'.totalSessions == m.totalSessions
  {
  }

  /** The chapters: an extension of the old list by covered chapters only, all of them present, still without duplicates. */
  lemma CheckinChapters(rec: Record, data: CheckIn, now: Instant)
    ensures var before, after := rec.milestones.chaptersCompleted, ApplyCheckin(rec, data, now).milestones.chaptersCompleted;
      && before <= after
      && (forall c :: c in data.chaptersCovered ==> c in after)
      && (forall i :: |before| <= i < |after| ==> after[i] in data.chaptersCovered)
      && (NoDup(before) ==> NoDup(after))
  {
  }

  // ---- The history the milestone counters summarise ----

  function HoursOf(entries: seq<Entry>): int
    decreases |entries|
  {
    if entries == [] then 0
    else HoursOf(entries[..|entries| - 1]) + HoursIncrement(entries[|entries| - 1].durationMins)
  }

  function QuestionsOf(entries: seq<Entry>): int
    decreases |entries|
  {
    if entries == [] then 0
    else QuestionsOf(entries[..|entries| - 1]) + entries[|entries| - 1].questionsDone
  }

  function MocksOf(entries: seq<Entry>): nat
    decreases |entries|
  {
    if entries == [] then 0
    else MocksOf(entries[..|entries| - 1]) + (if entries[|entries| - 1].mockDone then 1 else 0)
  }

  /** Every chapter of the history, once each, in order of first appearance. */
  function ChaptersOf(entries: seq<Entry>): (r: seq<string>)
    ensures NoDup(r)
    ensures forall c :: c in r <==> exists i :: 0 <= i < |entries| && c in entries[i].chaptersCovered
    decreases |entries|
  {
    if entries == [] then []
    else
      var front := entries[..|entries| - 1];
      assert forall i :: 0 <= i < |front| ==> front[i] == entries[i];
      Merge(ChaptersOf(front), entries[|entries| - 1].chaptersCovered)
  }

  /**
   * The record invariant: last_checkin is the date of the newest entry, the
   * streak is positive once there is one, every counter agrees with the
   * history, and total_sessions, when present, is still 0.
   */
  predicate Consistent(rec: Record)
  {
    && rec.streakDays >= 0
    && (rec.lastCheckin.Some? ==> rec.streakDays >= 1)
    && rec.lastCheckin == (if rec.checkIns == [] then None else Some(rec.checkIns[|rec.checkIns| - 1].date))
    && rec.milestones.totalHours == HoursOf(rec.checkIns)
    && rec.milestones.totalQuestions == QuestionsOf(rec.checkIns)
    && rec.milestones.mockExamsDone == MocksOf(rec.checkIns)
    && rec.milestones.chaptersCompleted == ChaptersOf(rec.checkIns)
    && (rec.milestones.totalSessions == None || rec.milestones.totalSessions == Some(0))
  }

  lemma ZeroedIsConsistent(rec: Record)
    requires Zeroed(rec)
    ensures Consistent(rec)
  {
  }

  /** A check-in keeps the record consistent, and leaves a streak of at least 1. */
  lemma CheckinPreservesConsistent(rec: Record, data: CheckIn, now: Instant)
    requires Consistent(rec)
    ensures Consistent(ApplyCheckin(rec, data, now))
    ensures ApplyCheckin(rec, data, now).streakDays >= 1
  {
    var s := rec.checkIns;
    var s' := s + [EntryOf(data, now.day)];
    assert s'[..|s'| - 1] == s;
    StreakAtLeastOne(rec.streakDays, rec.lastCheckin, now);
  }

  /** total_sessions never tracks the number of check-ins: after one check-in it differs from it. */
  lemma TotalSessionsLagsHistory(rec: Record, data: CheckIn, now: Instant)
    requires Consistent(rec) && rec.milestones.totalSessions.Some?
    ensures var r := ApplyCheckin(rec, data, now);
      r.milestones.totalSessions == Some(0) && |r.checkIns| >= 1
  {
  }

  // ---- Several check-ins in a row ----

  /** The record after the check-ins subs, made at the instants nows, in order. */
  function CheckinAll(rec: Record, subs: seq<CheckIn>, nows: seq<Instant>): Record
    requires |subs| == |nows|
    decreases |subs|
  {
    if subs == [] then rec
    else ApplyCheckin(CheckinAll(rec, subs[..|subs| - 1], nows[..|nows| - 1]), subs[|subs| - 1], nows[|nows| - 1])
  }

  /** Check-ins made exactly at consecutive midnights build a streak as long as the run. */
  lemma {:induction false} ConsecutiveMidnights(rec: Record, subs: seq<CheckIn>, nows: seq<Instant>, first: int)
    requires rec.lastCheckin == None
    requires |subs| == |nows| >= 1
    requires forall i :: 0 <= i < |nows| ==> nows[i] == Midnight(first + i)
    ensures CheckinAll(rec, subs, nows).streakDays == |subs|
    ensures CheckinAll(rec, subs, nows).lastCheckin == Some(first + |subs| - 1)
    decreases |subs|
  {
    if |subs| > 1 {
      var n := |subs|;
      ConsecutiveMidnights(rec, subs[..n - 1], nows[..n - 1], first);
      assert nows[n - 1] == Midnight(first + n - 1);
    }
  }

  /** Two check-ins on consecutive days at the same time of day, other than midnight, leave a streak of 1. */
  lemma NextDaySameTimeResetsStreak(rec: Record, a: CheckIn, b: CheckIn, day: int, time: TimeOfDay)
    requires time != 0
    ensures CheckinAll(rec, [a, b], [Instant(day, time), Instant(day + 1, time)]).streakDays == 1
  {
    assert [a, b][..1] == [a];
    assert [Instant(day, time), Instant(day + 1, time)][..1] == [Instant(day, time)];
  }
}
