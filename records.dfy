/**
 * The data model of the study tracker: the check-in submission, the entries
 * a user record accumulates, the milestone counters and the record itself.
 * The original keeps each record as one JSON document; here it is a value.
 * Calendar dates are day numbers and a timestamp is a day number together
 * with a time of day in microseconds, the resolution of Python's datetime.
 */
module Records {
  import opened Wrappers

  /** Microseconds in one day. */
  const MicrosPerDay: int := 86_400_000_000

  /** A time of day, in microseconds after midnight. */
  type TimeOfDay = t: int | 0 <= t < MicrosPerDay

  /** A naive datetime, such as datetime.today() returns. */
  datatype Instant = Instant(day: int, time: TimeOfDay)

  /** What strptime makes of a "%Y-%m-%d" string: that day at 00:00:00.000000. */
  function Midnight(day: int): Instant
  {
    Instant(day, 0)
  }

  /** A datetime minus timedelta(days=1): the same time of day, one day earlier. */
  function MinusOneDay(t: Instant): Instant
  {
    Instant(t.day - 1, t.time)
  }

  /** The body of a check-in request (the CheckIn model of main.py). */
  datatype CheckIn = CheckIn(
    userId: string,
    durationMins: int,
    chaptersCovered: seq<string>,
    questionsDone: int,
    mockDone: bool,
    notes: Option<string>)

  /** One element of a record's check_ins list; its date is assigned by the server. */
  datatype Entry = Entry(
    date: int,
    durationMins: int,
    chaptersCovered: seq<string>,
    questionsDone: int,
    mockDone: bool,
    notes: Option<string>)

  /**
   * The milestones dictionary. totalHours counts hundredths of an hour (see
   * HoursIncrement). totalSessions is None when the key is absent, as it is
   * in records created by init_user_file.
   */
  datatype Milestones = Milestones(
    totalHours: int,
    totalQuestions: int,
    chaptersCompleted: seq<string>,
    mockExamsDone: int,
    totalSessions: Option<int>)

  /** One user's record; lastCheckin is the day number of the last check-in, if any. */
  datatype Record = Record(
    userId: string,
    streakDays: int,
    lastCheckin: Option<int>,
    checkIns: seq<Entry>,
    milestones: Milestones)

  /**
   * round(duration_mins / 60, 2), in hundredths of an hour: the integer
   * nearest to 5 * duration_mins / 3. In exact arithmetic that quotient is
   * never halfway between two integers, so there is no tie to break.
   */
  function HoursIncrement(durationMins: int): (h: int)
    ensures -1 <= 3 * h - 5 * durationMins <= 1
  {
    (5 * durationMins + 1) / 3
  }

  /** A record as created before any check-in: every counter zero, every list empty. */
  predicate Zeroed(r: Record)
  {
    && r.streakDays == 0
    && r.lastCheckin == None
    && r.checkIns == []
    && r.milestones.totalHours == 0
    && r.milestones.totalQuestions == 0
    && r.milestones.chaptersCompleted == []
    && r.milestones.mockExamsDone == 0
    && (r.milestones.totalSessions == None || r.milestones.totalSessions == Some(0))
  }
}
