/**
 * The streak transition of a check-in. The original parses the stored date
 * into a datetime at midnight and compares it with datetime.today(), which
 * carries the time of day; the comparison is modelled exactly as written.
 */
module Streak {
  import opened Wrappers
  import opened Records

  /**
   * The new streak_days, given the old one, last_checkin and the current
   * instant. Only at exactly 00:00:00.000000 can a stored date equal either
   * "now minus one day" or "now"; at any other time the streak becomes 1.
   */
  function StreakAfter(streak: int, last: Option<int>, now: Instant): (r: int)
    ensures last.None? ==> r == 1
    ensures now.time != 0 ==> r == 1
    ensures last.Some? && now == Midnight(last.value + 1) ==> r == streak + 1
    ensures last.Some? && now == Midnight(last.value) ==> r == streak
    ensures last.Some? && now.day != last.value + 1 && now.day != last.value ==> r == 1
  {
    match last
    case None => 1
    case Some(lastDay) =>
      var lastDate := Midnight(lastDay);
      if lastDate == MinusOneDay(now) then streak + 1
      else if lastDate != now then 1
      else streak
  }

  /** Away from midnight the stored date never matches, so every check-in restarts the streak. */
  lemma OffMidnightResetsStreak(streak: int, last: Option<int>, now: Instant)
    requires now.time != 0
    ensures StreakAfter(streak, last, now) == 1
  {
  }

  /** The streak is at least 1 after a check-in, provided a record with a last check-in has a positive streak. */
  lemma StreakAtLeastOne(streak: int, last: Option<int>, now: Instant)
    requires streak >= 0
    requires last.Some? ==> streak >= 1
    ensures StreakAfter(streak, last, now) >= 1
  {
  }

  /** Without that proviso the bound fails: a zero streak survives a second check-in at the same midnight. */
  lemma ZeroStreakCanSurvive(day: int)
    ensures StreakAfter(0, Some(day), Midnight(day)) == 0
  {
  }
}
