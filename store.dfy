/**
 * The store of user records (one JSON file per user in the original) and
 * the three operations that write it: registration, init_user_file and
 * check-in. The store is a map from user id to record, kept in a class
 * whose methods update it in place.
 */
module Store {
  import opened Wrappers
  import opened Records
  import opened Streak
  import opened Chapters
  import opened Checkin

  /** The record register_user writes. */
  function RegisterTemplate(userId: string): Record
  {
    Record(userId, 0, None, [], Milestones(0, 0, [], 0, Some(0)))
  }

  /** The record init_user_file writes: the same, but without a total_sessions key. */
  function InitTemplate(userId: string): Record
  {
    Record(userId, 0, None, [], Milestones(0, 0, [], 0, None))
  }

  /** Both templates are zeroed and consistent, and they differ only in total_sessions. */
  lemma TemplatesZeroed(userId: string)
    ensures Zeroed(RegisterTemplate(userId)) && Consistent(RegisterTemplate(userId))
    ensures Zeroed(InitTemplate(userId)) && Consistent(InitTemplate(userId))
    ensures RegisterTemplate(userId).milestones.totalSessions == Some(0)
    ensures InitTemplate(userId).milestones.totalSessions == None
    ensures InitTemplate(userId) == RegisterTemplate(userId).(milestones := RegisterTemplate(userId).milestones.(totalSessions := None))
  {
  }

  /** Every record is filed under its own user id and is consistent. */
  predicate StoreConsistent(store: map<string, Record>)
  {
    forall u :: u in store ==> store[u].userId == u && Consistent(store[u])
  }

  /** The store after init_user_file: a fresh record if the id was absent, otherwise the same store. */
  function InitUserFileOn(store: map<string, Record>, userId: string): (r: map<string, Record>)
    ensures userId in r
    ensures userId in store ==> r == store
    ensures userId !in store ==> r[userId] == InitTemplate(userId)
    ensures forall u :: u != userId ==> (u in r <==> u in store)
    ensures forall u :: u != userId && u in store ==> r[u] == store[u]
  {
    if userId in store then store else store[userId := InitTemplate(userId)]
  }

  /** init_user_file a second time changes nothing. */
  lemma InitUserFileIdempotent(store: map<string, Record>, userId: string)
    ensures InitUserFileOn(InitUserFileOn(store, userId), userId) == InitUserFileOn(store, userId)
  {
  }

  /** The store after a check-in: the user's record, created if need be, updated by ApplyCheckin. */
  function CheckinOn(store: map<string, Record>, data: CheckIn, now: Instant): (r: map<string, Record>)
    ensures data.userId in r
    ensures r[data.userId] == ApplyCheckin(if data.userId in store then store[data.userId] else InitTemplate(data.userId), data, now)
    ensures forall u :: u != data.userId ==> (u in r <==> u in store)
    ensures forall u :: u != data.userId && u in store ==> r[u] == store[u]
  {
    var initialized := InitUserFileOn(store, data.userId);
    initialized[data.userId := ApplyCheckin(initialized[data.userId], data, now)]
  }

  /** init_user_file keeps the store consistent. */
  lemma InitUserFilePreservesConsistent(store: map<string, Record>, userId: string)
    requires StoreConsistent(store)
    ensures StoreConsistent(InitUserFileOn(store, userId))
  {
    TemplatesZeroed(userId);
  }

  /** A check-in keeps the store consistent. */
  lemma CheckinOnPreservesConsistent(store: map<string, Record>, data: CheckIn, now: Instant)
    requires StoreConsistent(store)
    ensures StoreConsistent(CheckinOn(store, data, now))
  {
    InitUserFilePreservesConsistent(store, data.userId);
    var initialized := InitUserFileOn(store, data.userId);
    CheckinPreservesConsistent(initialized[data.userId], data, now);
  }

  class UserStore {
    /** The user files, by user id. */
    var records: map<string, Record>

    ghost predicate Valid()
      reads this
    {
      StoreConsistent(records)
    }

    constructor ()
      ensures records == map[] && Valid()
    {
      records := map[];
    }

    /** register_user: fails if a record exists, otherwise writes the zeroed template. */
    method Register(userId: string) returns (ok: bool)
      modifies this
      ensures ok <==> userId !in old(records)
      ensures !ok ==> records == old(records)
      ensures ok ==> records == old(records)[userId := RegisterTemplate(userId)]
      ensures old(Valid()) ==> Valid()
    {
      if userId in records {
        return false;
      }
      TemplatesZeroed(userId);
      records := records[userId := RegisterTemplate(userId)];
      ok := true;
    }

    /** init_user_file: writes its template if the id is absent; created says which message it prints. */
    method InitUserFile(userId: string) returns (created: bool)
      modifies this
      ensures created <==> userId !in old(records)
      ensures records == InitUserFileOn(old(records), userId)
      ensures old(Valid()) ==> Valid()
    {
      assert StoreConsistent(records) ==> StoreConsistent(InitUserFileOn(records, userId)) by {
        if StoreConsistent(records) {
          InitUserFilePreservesConsistent(records, userId);
        }
      }
      created := userId !in records;
      if created {
        records := records[userId := InitTemplate(userId)];
      }
    }

    /**
     * checkin: creates the record if absent, then updates it field by field
     * as the original does (streak, stamp, append, counters, chapter loop)
     * and writes it back. It returns the new streak and milestones.
     */
    method Checkin(data: CheckIn, now: Instant) returns (streak: int, milestones: Milestones)
      modifies this
      ensures records == CheckinOn(old(records), data, now)
      ensures streak == records[data.userId].streakDays
      ensures milestones == records[data.userId].milestones
      ensures old(Valid()) ==> Valid()
      ensures old(Valid()) ==> streak >= 1
    {
      ghost var before := records;
      var _ := InitUserFile(data.userId);
      var user := records[data.userId];
      var today := now.day;
      streak := user.streakDays;

      if user.lastCheckin.Some? {
        var lastDate := Midnight(user.lastCheckin.value);
        if lastDate == MinusOneDay(now) {
          streak := streak + 1;
        } else if lastDate != now {
          streak := 1;
        }
      } else {
        streak := 1;
      }
      assert streak == StreakAfter(user.streakDays, user.lastCheckin, now);

      var newEntry := Entry(today, data.durationMins, data.chaptersCovered, data.questionsDone, data.mockDone, data.notes);
      var checkIns := user.checkIns + [newEntry];

      milestones := user.milestones;
      milestones := milestones.(totalHours := milestones.totalHours + HoursIncrement(data.durationMins));
      milestones := milestones.(totalQuestions := milestones.totalQuestions + data.questionsDone);
      if data.mockDone {
        milestones := milestones.(mockExamsDone := milestones.mockExamsDone + 1);
      }
      var completed := MergeChapters(milestones.chaptersCompleted, data.chaptersCovered);
      milestones := milestones.(chaptersCompleted := completed);

      var updated := user.(streakDays := streak, lastCheckin := Some(today),
                           checkIns := checkIns, milestones := milestones);
      assert updated == ApplyCheckin(user, data, now);
      records := records[data.userId := updated];
      assert old(Valid()) ==> Valid() by {
        if StoreConsistent(before) {
          CheckinOnPreservesConsistent(before, data, now);
        }
      }
    }
  }

  /** The chapter loop of checkin: append each covered chapter that is not yet listed. */
  method MergeChapters(completed: seq<string>, covered: seq<string>) returns (merged: seq<string>)
    ensures merged == Merge(completed, covered)
  {
    merged := completed;
    for i := 0 to |covered|
      invariant merged == Merge(completed, covered[..i])
    {
      var chapter := covered[i];
      assert covered[..i + 1][..i] == covered[..i];
      if chapter !in merged {
        merged := merged + [chapter];
      }
    }
    assert covered[..|covered|] == covered;
  }
}
