/**
 * Two-call properties of the handlers, stated as clients of one store:
 * repeated check-ins, repeated corrections, and a week started twice.
 */
module Scenarios {
  import opened Wrappers
  import opened Models
  import opened Engine
  import Query

  /**
   * Submitting twice leaves one record, created by the first call with the
   * first call's status; only when the first asks for a `null` status and no
   * record exists does it create nothing, leaving the creation to the second.
   */
  method SubmitTwice(store: AttendanceStore, caller: User, sessionCode: Option<string>,
                     first: JsonField, second: JsonField)
    returns (r1: Reply, r2: Reply)
    requires store.Valid()
    modifies store`records
    ensures store.Valid()
    ensures match store.SubmitTarget(caller, sessionCode)
            case Refused(code) => r1 == Reply(code, false) && r2 == r1 && store.records == old(store.records)
            case Target(_, s, u) =>
              var key := RecordKey(s.id, u.id);
              if key in old(store.records) || RequestedStatus(first).Some? then
                && r1 == Reply(200, key !in old(store.records))
                && r2 == Reply(200, false)
                && store.records == if RequestedStatus(first).Some?
                                    then GetOrCreate(old(store.records), key, RequestedStatus(first).value)
                                    else old(store.records)
              else
                && r1 == Reply(500, false)
                && if RequestedStatus(second).Some?
                   then r2 == Reply(200, true) && store.records == old(store.records)[key := RequestedStatus(second).value]
                   else r2 == Reply(500, false) && store.records == old(store.records)
  {
    var echoed;
    r1, echoed := store.SubmitAttendance(caller, sessionCode, first);
    r2, echoed := store.SubmitAttendance(caller, sessionCode, second);
    match store.SubmitTarget(caller, sessionCode)
    case Refused(_) =>
    case Target(_, s, u) =>
      if RequestedStatus(first).Some? && RequestedStatus(second).Some? {
        GetOrCreateIdempotent(old(store.records), RecordKey(s.id, u.id), RequestedStatus(first).value, RequestedStatus(second).value);
      }
  }

  /** Repeating a correction logs nothing more: at most one entry for the pair of calls. */
  method CorrectTwice(store: AttendanceStore, caller: User, lectureCode: Option<string>, week: Option<int>,
                      studentUsername: Option<string>, status: Option<string>)
    returns (r1: Reply, r2: Reply)
    requires store.Valid()
    modifies store`records, store`changeLog
    ensures store.Valid()
    ensures match store.CorrectionTarget(caller, lectureCode, week, studentUsername, status)
            case Refused(code) =>
              && r1 == Reply(code, false) && r2 == r1
              && store.records == old(store.records) && store.changeLog == old(store.changeLog)
            case Target(_, s, st) =>
              var key := RecordKey(s.id, st.id);
              && r2 == Reply(200, false)
              && store.records == old(store.records)[key := status.value]
              && store.changeLog == old(store.changeLog) +
                   if key in old(store.records) && old(store.records)[key] != status.value
                   then [ChangeLogEntry(caller.id, st.id, s.id, old(store.records)[key], status.value)]
                   else []
  {
    ghost var target := store.CorrectionTarget(caller, lectureCode, week, studentUsername, status);
    r1 := store.CorrectAttendance(caller, lectureCode, week, studentUsername, status);
    assert store.sessions == old(store.sessions);
    ghost var mid := store.records;
    ghost var midLog := store.changeLog;
    r2 := store.CorrectAttendance(caller, lectureCode, week, studentUsername, status);
    assert store.sessions == old(store.sessions);
    match target
    case Refused(_) =>
    case Target(_, s, st) =>
      var key := RecordKey(s.id, st.id);
      assert mid == old(store.records)[key := status.value];
      assert store.changeLog == midLog && store.records == mid;
  }

  /**
   * Nothing stops a second start of the same lecture week; once both sessions
   * are active, ending that week's code finds several and fails.
   */
  method StartTwiceThenEnd(store: AttendanceStore, lectureCode: string, week: int, notified: bool)
    returns (ended: Reply)
    requires store.Valid()
    requires lectureCode != "" && week > 0 && LectureByCode(store.lectures, lectureCode).Some?
    modifies store
    ensures |store.sessions| == |old(store.sessions)| + 2
    ensures ended == Reply(500, false)
  {
    var r1, s1, p1 := store.StartSession(Some(lectureCode), Some(week), notified);
    var r2, s2, p2 := store.StartSession(Some(lectureCode), Some(week), notified);
    var code := SessionCode(lectureCode, week);
    var before := store.sessions[..|store.sessions| - 1];
    assert store.sessions == before + [s2.value];
    assert before[|before| - 1] == s1.value;
    Query.GetAfterDuplicate(before, WithActiveCode(code), s2.value);
    ended := store.EndSession(Some(code), notified);
  }
}
