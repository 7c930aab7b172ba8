/**
 * The session and record handlers of the attendance app over one store:
 * the roster (users and lectures, which these handlers only read), the
 * sessions table, the records table keyed by (session, student), and the
 * append-only change log. Each handler returns the HTTP status of its
 * response and whether it created a row.
 */
module Engine {
  import opened Wrappers
  import opened Models
  import Query
  import Notifier

  /** The status of a handler's response and its `created` flag. */
  datatype Reply = Reply(code: int, created: bool)

  /** One row of the weekly roll call: a student and the status now stored for them. */
  datatype RollCallRow = RollCallRow(student: nat, status: string)

  /** Python truthiness of an optional JSON integer: sent and not zero. */
  predicate GivenInt(v: Option<int>) {
    v.Some? && v.value != 0
  }

  /**
   * `str(v)`: a missing value becomes the text "None", so the result is
   * empty only for a value sent as empty text.
   */
  function Str(v: Option<string>): (s: string)
    ensures s == "" <==> v == Some("")
    ensures v.None? ==> s == "None"
    ensures v.Some? ==> s == v.value
  {
    if v.None? then "None" else v.value
  }

  /** A JSON request field that is either left out, sent as `null`, or sent as text. */
  datatype JsonField = Omitted | JsonNull | JsonText(text: string)

  /**
   * `request.data.get('status', 'present')`: the default only replaces a field
   * that was left out; an explicit `null` comes through as `None`.
   */
  function RequestedStatus(v: JsonField): (s: Option<string>)
    ensures s.None? <==> v.JsonNull?
    ensures v.Omitted? ==> s == Some(Present)
    ensures v.JsonText? ==> s == Some(v.text)
  {
    match v
    case Omitted => Some(Present)
    case JsonNull => None
    case JsonText(text) => Some(text)
  }

  /**
   * `get_or_create` on a record key with a default status: a missing record is
   * created with the default, an existing one is left exactly as it is.
   */
  function GetOrCreate(records: map<RecordKey, string>, key: RecordKey, default: string): (r: map<RecordKey, string>)
    ensures r.Keys == records.Keys + {key}
    ensures key in records ==> r == records
    ensures key !in records ==> r[key] == default
    ensures forall k :: k in records ==> r[k] == records[k]
  {
    if key in records then records else records[key := default]
  }

  /** A repeated check-in changes nothing: the first creates the record, every later one finds it. */
  lemma GetOrCreateIdempotent(records: map<RecordKey, string>, key: RecordKey, first: string, later: string)
    ensures key in GetOrCreate(records, key, first)
    ensures GetOrCreate(GetOrCreate(records, key, first), key, later) == GetOrCreate(records, key, first)
    ensures GetOrCreate(records, key, first)[key] == if key in records then records[key] else first
  {
  }

  /** The records after the roll call of `session`: every listed student has one, `absent` where none existed. */
  function Backfilled(records: map<RecordKey, string>, session: nat, students: set<nat>): (r: map<RecordKey, string>)
    ensures forall k :: k in records ==> k in r && r[k] == records[k]
    ensures forall k :: k in r && k !in records ==> k.session == session && k.student in students && r[k] == Absent
  {
    records + map st | st in students && RecordKey(session, st) !in records :: RecordKey(session, st) := Absent
  }

  /**
   * After the roll call exactly the listed students have been added for the
   * session, every existing record keeps its status, and the added ones are
   * `absent`.
   */
  lemma BackfilledMeaning(records: map<RecordKey, string>, session: nat, students: set<nat>)
    ensures forall k :: k in Backfilled(records, session, students) <==>
              k in records || (k.session == session && k.student in students)
    ensures forall k :: k in records ==> Backfilled(records, session, students)[k] == records[k]
    ensures forall st :: st in students && RecordKey(session, st) !in records ==>
              Backfilled(records, session, students)[RecordKey(session, st)] == Absent
  {
    forall k: RecordKey | k.session == session && k.student in students
      ensures k in Backfilled(records, session, students)
    {
      assert k == RecordKey(session, k.student);
    }
  }

  /** A second roll call of the same week adds nothing. */
  lemma BackfilledIdempotent(records: map<RecordKey, string>, session: nat, students: set<nat>)
    ensures Backfilled(Backfilled(records, session, students), session, students) == Backfilled(records, session, students)
  {
    var once := Backfilled(records, session, students);
    BackfilledMeaning(records, session, students);
    BackfilledMeaning(once, session, students);
    assert Backfilled(once, session, students).Keys == once.Keys;
  }

  /**
   * Three enrolled students, one of whom checked in: the roll call keeps that
   * record and materializes two absences.
   */
  lemma RollCallExample()
    ensures var before := map[RecordKey(1, 10) := Present];
            Backfilled(before, 1, {10, 11, 12})
              == map[RecordKey(1, 10) := Present, RecordKey(1, 11) := Absent, RecordKey(1, 12) := Absent]
  {
    var before := map[RecordKey(1, 10) := Present];
    var after := Backfilled(before, 1, {10, 11, 12});
    BackfilledMeaning(before, 1, {10, 11, 12});
    assert after.Keys == {RecordKey(1, 10), RecordKey(1, 11), RecordKey(1, 12)};
  }

  /** No two rows report on the same student. */
  ghost predicate DistinctStudents(rows: seq<RollCallRow>) {
    forall i, j :: 0 <= i < j < |rows| ==> rows[i].student != rows[j].student
  }

  /** `after` keeps every record of `records`, has one for every student in `done`, and adds only their absences. */
  ghost predicate BackfilledSoFar(records: map<RecordKey, string>, after: map<RecordKey, string>, session: nat, done: set<nat>) {
    && (forall k :: k in records ==> k in after && after[k] == records[k])
    && (forall st :: st in done ==> RecordKey(session, st) in after)
    && (forall k :: k in after && k !in records ==> k.session == session && k.student in done && after[k] == Absent)
  }

  /** The roll call's result is the only map that keeps the old records, has every listed student, and adds only absences. */
  lemma BackfilledUnique(records: map<RecordKey, string>, after: map<RecordKey, string>, session: nat, students: set<nat>)
    requires BackfilledSoFar(records, after, session, students)
    ensures after == Backfilled(records, session, students)
  {
    var b := Backfilled(records, session, students);
    BackfilledMeaning(records, session, students);
    assert after.Keys == b.Keys;
  }

  /** The students a roll call's rows report on. */
  function RowStudents(rows: seq<RollCallRow>): (r: set<nat>)
    ensures forall i :: 0 <= i < |rows| ==> rows[i].student in r
  {
    set i | 0 <= i < |rows| :: rows[i].student
  }

  lemma RowStudentsAppend(rows: seq<RollCallRow>, row: RollCallRow)
    ensures RowStudents(rows + [row]) == RowStudents(rows) + {row.student}
  {
    var r := rows + [row];
    assert forall i :: 0 <= i < |rows| ==> r[i] == rows[i];
    assert r[|rows|] == row;
  }

  /** Each row reports the status stored for its student in `session`. */
  ghost predicate Reports(rows: seq<RollCallRow>, records: map<RecordKey, string>, session: nat) {
    forall i :: 0 <= i < |rows| ==>
      RecordKey(session, rows[i].student) in records && rows[i].status == records[RecordKey(session, rows[i].student)]
  }

  /** Adding records never falsifies a report, and a new row for a stored record extends it. */
  lemma ReportsExtend(rows: seq<RollCallRow>, before: map<RecordKey, string>, after: map<RecordKey, string>,
                      session: nat, row: RollCallRow)
    requires Reports(rows, before, session)
    requires forall k :: k in before ==> k in after && after[k] == before[k]
    requires RecordKey(session, row.student) in after && row.status == after[RecordKey(session, row.student)]
    ensures Reports(rows + [row], after, session)
  {
    var r := rows + [row];
    forall i | 0 <= i < |r|
      ensures RecordKey(session, r[i].student) in after && r[i].status == after[RecordKey(session, r[i].student)]
    {
      if i < |rows| {
        assert r[i] == rows[i];
      }
    }
  }

  /** One get-or-create of an absent record extends the roll call by one student. */
  lemma BackfillStep(records: map<RecordKey, string>, session: nat, done: set<nat>, st: nat)
    ensures GetOrCreate(Backfilled(records, session, done), RecordKey(session, st), Absent)
         == Backfilled(records, session, done + {st})
  {
    var lhs := GetOrCreate(Backfilled(records, session, done), RecordKey(session, st), Absent);
    var rhs := Backfilled(records, session, done + {st});
    assert lhs.Keys == rhs.Keys;
    forall k | k in lhs.Keys
      ensures lhs[k] == rhs[k]
    {
      if k !in records {
        assert k.session == session;
      }
    }
  }

  /** Deactivating one session keeps every session's id, lecture and week. */
  lemma DeactivateKeepsLectures(sessions: seq<Session>, i: nat)
    requires i < |sessions|
    ensures var after := sessions[i := sessions[i].(isActive := false)];
            && |after| == |sessions|
            && (forall j :: 0 <= j < |after| ==>
                  after[j].id == sessions[j].id && after[j].lecture == sessions[j].lecture && after[j].week == sessions[j].week)
            && (forall s :: s in after ==> exists j :: 0 <= j < |sessions| && s.lecture == sessions[j].lecture)
  {
    var after := sessions[i := sessions[i].(isActive := false)];
    forall s | s in after
      ensures exists j :: 0 <= j < |sessions| && s.lecture == sessions[j].lecture
    {
      var j :| 0 <= j < |after| && after[j] == s;
      assert s.lecture == sessions[j].lecture;
    }
  }

  /** The outcome of a check-in's or a correction's guards: the refusal status, or the rows it acts on. */
  datatype Target = Refused(code: int) | Target(lecture: Lecture, session: Session, student: User)

  /** The outcome of the roll call's guards. */
  datatype RollCallTarget = RollCallRefused(code: int) | RollCall(lecture: Lecture, session: Session)

  class AttendanceStore {
    const users: seq<User>
    const lectures: seq<Lecture>
    var sessions: seq<Session>
    var records: map<RecordKey, string>
    var changeLog: seq<ChangeLogEntry>

    /** The roster's unique columns: user ids, usernames and lecture codes. */
    ghost predicate RosterValid() {
      UserIdsUnique(users) && UsernamesUnique(users) && LectureCodesUnique(lectures)
      && LectureProfessorsExist(users, lectures)
    }

    /** Session ids are assigned 1, 2, ... in creation order, and every session's lecture exists. */
    ghost predicate SessionsValid()
      reads this`sessions
    {
      && RosterValid()
      && (forall i :: 0 <= i < |sessions| ==> sessions[i].id == i + 1)
      && (forall s :: s in sessions ==> s.lecture in LectureCodes(lectures))
    }

    /** The database's constraints, with every record and log entry pointing at an existing session. */
    ghost predicate Valid()
      reads this
    {
      && SessionsValid()
      && (forall k :: k in records ==> 1 <= k.session <= |sessions|)
      && (forall e :: e in changeLog ==> 1 <= e.session <= |sessions|)
    }

    /** Every stored status is one of the three declared choices. */
    ghost predicate StatusesAreChoices()
      reads this
    {
      forall k :: k in records ==> IsStatusChoice(records[k])
    }

    constructor (users: seq<User>, lectures: seq<Lecture>)
      requires UserIdsUnique(users) && UsernamesUnique(users) && LectureCodesUnique(lectures)
      requires LectureProfessorsExist(users, lectures)
      ensures Valid() && StatusesAreChoices()
      ensures this.users == users && this.lectures == lectures
      ensures sessions == [] && records == map[] && changeLog == []
    {
      this.users := users;
      this.lectures := lectures;
      sessions := [];
      records := map[];
      changeLog := [];
    }

    /** The lecture a stored session belongs to. */
    function LectureOf(s: Session): (l: Lecture)
      reads this`sessions
      requires SessionsValid() && s in sessions
      ensures l in lectures && l.code == s.lecture
    {
      LectureByCodeFound(lectures, s.lecture);
      LectureByCode(lectures, s.lecture).value
    }

    /** The professor of a stored lecture, through the foreign key. */
    function ProfessorOf(l: Lecture): (u: User)
      requires RosterValid() && l in lectures
      ensures u in users && u.id == l.professor
    {
      UserById(users, Some(l.professor)).value
    }

    /** The position of a stored session is its id less one. */
    lemma SessionPosition(s: Session)
      requires SessionsValid() && s in sessions
      ensures 1 <= s.id <= |sessions| && sessions[s.id - 1] == s
    {
    }

    /** `AttendanceSession.objects.get(id=id, lecture__code=code)`; a missing value matches no row. */
    function SessionByIdInLecture(id: Option<nat>, code: Option<string>): (r: Option<Session>)
      reads this`sessions
      requires SessionsValid()
      ensures r.None? <==> id.None? || code.None? || forall s :: s in sessions ==> s.id != id.value || s.lecture != code.value
      ensures r.Some? ==> id.Some? && code.Some? && r.value in sessions && r.value.id == id.value && r.value.lecture == code.value
      ensures forall s :: s in sessions && id == Some(s.id) && code == Some(s.lecture) ==> r == Some(s)
    {
      if id.None? || code.None? then None
      else if 1 <= id.value <= |sessions| && sessions[id.value - 1].lecture == code.value then Some(sessions[id.value - 1])
      else None
    }

    /** All four fields of a correction are sent (and the week is not zero). */
    predicate Complete(lectureCode: Option<string>, week: Option<int>, studentUsername: Option<string>, status: Option<string>) {
      Given(lectureCode) && GivenInt(week) && Given(studentUsername) && Given(status)
    }

    /** No lecture has the code and belongs to the professor. */
    ghost predicate NoOwnedLecture(code: string, professor: nat) {
      forall l :: l in lectures ==> l.code != code || l.professor != professor
    }

    /** No session of the lecture with the code is for the week. */
    ghost predicate NoSessionInWeek(code: string, week: int)
      reads this`sessions
    {
      forall s :: s in sessions ==> !InLectureWeek(code, week)(s)
    }

    /** No student has the username. */
    ghost predicate NoStudentNamed(name: string) {
      forall u :: u in users ==> u.username != name || u.role != Student
    }

    /**
     * The guards of a student's own submission, in the order the handler
     * applies them: the caller's role, the session code being sent, exactly
     * one active session with that code, and the caller's enrolment.
     */
    function SubmitTarget(caller: User, sessionCode: Option<string>): (t: Target)
      reads this`sessions
      requires SessionsValid()
      ensures caller.role != Student ==> t == Refused(403)
      ensures caller.role == Student && !Given(sessionCode) ==> t == Refused(400)
      ensures caller.role == Student && Given(sessionCode) ==>
                (t == Refused(404) <==> forall s :: s in sessions ==> !WithActiveCode(sessionCode.value)(s))
      ensures caller.role == Student && Given(sessionCode) ==>
                (t == Refused(500) <==> Query.Ambiguous(sessions, WithActiveCode(sessionCode.value)))
      ensures caller.role == Student && Given(sessionCode) ==>
                forall s :: s in sessions && WithActiveCode(sessionCode.value)(s)
                              && !Query.Ambiguous(sessions, WithActiveCode(sessionCode.value)) ==>
                  t == if caller.id in LectureOf(s).students then Target(LectureOf(s), s, caller) else Refused(403)
      ensures t.Target? ==>
                && t.session in sessions && t.session.isActive && CodeOf(t.session) == sessionCode.value
                && t.student == caller && t.lecture == LectureOf(t.session) && caller.id in t.lecture.students
      ensures t.Refused? ==> t.code in {400, 403, 404, 500}
    {
      if caller.role != Student then Refused(403)
      else if !Given(sessionCode) then Refused(400)
      else match Query.Get(sessions, WithActiveCode(sessionCode.value))
        case DoesNotExist => Refused(404)
        case MultipleReturned => Refused(500)
        case Found(s) => if caller.id in LectureOf(s).students then Target(LectureOf(s), s, caller) else Refused(403)
    }

    /**
     * The guards of the beacon's check-in: a user with the id and a session
     * with the id in the lecture with the code (either missing is 404), then
     * enrolment. No role and no activity is checked.
     */
    function BleTarget(studentId: Option<nat>, lectureCode: Option<string>, sessionId: Option<nat>): (t: Target)
      reads this`sessions
      requires SessionsValid()
      ensures t == Refused(404) <==> UserById(users, studentId).None? || SessionByIdInLecture(sessionId, lectureCode).None?
      ensures forall u, s :: u in users && studentId == Some(u.id) && s in sessions && sessionId == Some(s.id) && lectureCode == Some(s.lecture) ==>
                t == if u.id in LectureOf(s).students then Target(LectureOf(s), s, u) else Refused(403)
      ensures t.Target? ==>
                && t.session in sessions && Some(t.session.id) == sessionId && Some(t.session.lecture) == lectureCode
                && t.student in users && Some(t.student.id) == studentId
                && t.lecture == LectureOf(t.session) && t.student.id in t.lecture.students
      ensures t.Refused? ==> t.code in {403, 404}
    {
      match (UserById(users, studentId), SessionByIdInLecture(sessionId, lectureCode))
      case (Some(u), Some(s)) => if u.id in LectureOf(s).students then Target(LectureOf(s), s, u) else Refused(403)
      case _ => Refused(404)
    }

    /**
     * The guards of the scanned-code check-in: exactly one session, active or
     * not, whose code is the text of the request's `session_id`, then enrolment.
     */
    function QrTarget(caller: User, sessionId: Option<string>): (t: Target)
      reads this`sessions
      requires SessionsValid()
      ensures t == Refused(404) <==> forall s :: s in sessions ==> !WithCode(Str(sessionId))(s)
      ensures t == Refused(500) <==> Query.Ambiguous(sessions, WithCode(Str(sessionId)))
      ensures forall s :: s in sessions && WithCode(Str(sessionId))(s) && !Query.Ambiguous(sessions, WithCode(Str(sessionId))) ==>
                t == if caller.id in LectureOf(s).students then Target(LectureOf(s), s, caller) else Refused(403)
      ensures t.Target? ==>
                && t.session in sessions && CodeOf(t.session) == Str(sessionId)
                && t.student == caller && t.lecture == LectureOf(t.session) && caller.id in t.lecture.students
      ensures t.Refused? ==> t.code in {403, 404, 500}
    {
      match Query.Get(sessions, WithCode(Str(sessionId)))
      case DoesNotExist => Refused(404)
      case MultipleReturned => Refused(500)
      case Found(s) => if caller.id in LectureOf(s).students then Target(LectureOf(s), s, caller) else Refused(403)
    }

    /**
     * The guards of a professor's correction: all four fields sent, a lecture
     * with the code owned by the caller, exactly one session of that week, a
     * student with the username, and that student's enrolment.
     */
    function CorrectionTarget(caller: User, lectureCode: Option<string>, week: Option<int>,
                              studentUsername: Option<string>, status: Option<string>): (t: Target)
      reads this`sessions
      requires SessionsValid()
      ensures !Complete(lectureCode, week, studentUsername, status) <==> t == Refused(400)
      ensures t.Target? ==>
                && t.lecture in lectures && t.lecture.code == lectureCode.value && t.lecture.professor == caller.id
                && t.session in sessions && t.session.lecture == t.lecture.code && t.session.week == week.value
                && t.student in users && t.student.username == studentUsername.value && t.student.role == Student
                && t.student.id in t.lecture.students
                && Given(status)
      ensures Complete(lectureCode, week, studentUsername, status) ==>
                (t == Refused(404) <==>
                   || NoOwnedLecture(lectureCode.value, caller.id)
                   || NoSessionInWeek(lectureCode.value, week.value)
                   || (!Query.Ambiguous(sessions, InLectureWeek(lectureCode.value, week.value))
                       && NoStudentNamed(studentUsername.value)))
      ensures Complete(lectureCode, week, studentUsername, status) ==>
                (t == Refused(500) <==>
                   !NoOwnedLecture(lectureCode.value, caller.id) && Query.Ambiguous(sessions, InLectureWeek(lectureCode.value, week.value)))
      ensures Complete(lectureCode, week, studentUsername, status) ==>
                forall l, s, st ::
                  && l in lectures && l.code == lectureCode.value && l.professor == caller.id
                  && s in sessions && InLectureWeek(lectureCode.value, week.value)(s)
                  && !Query.Ambiguous(sessions, InLectureWeek(lectureCode.value, week.value))
                  && st in users && st.username == studentUsername.value && st.role == Student
                  ==> t == if st.id in l.students then Target(l, s, st) else Refused(403)
      ensures t.Refused? ==> t.code in {400, 403, 404, 500}
    {
      if !Complete(lectureCode, week, studentUsername, status) then Refused(400)
      else match OwnedLecture(lectures, lectureCode.value, caller.id)
        case None => Refused(404)
        case Some(l) =>
          match Query.Get(sessions, InLectureWeek(lectureCode.value, week.value))
          case DoesNotExist => Refused(404)
          case MultipleReturned => Refused(500)
          case Found(s) =>
            match StudentByUsername(users, studentUsername.value)
            case None => Refused(404)
            case Some(st) => if st.id in l.students then Target(l, s, st) else Refused(403)
    }

    /**
     * The guards of the roll call: a professor caller, the lecture code and
     * week sent, a lecture with the code owned by the caller, exactly one
     * session of that week.
     */
    function RollCallTargetOf(caller: User, lectureCode: Option<string>, week: Option<int>): (t: RollCallTarget)
      reads this`sessions
      requires SessionsValid()
      ensures caller.role != Professor ==> t == RollCallRefused(403)
      ensures caller.role == Professor && (!Given(lectureCode) || week.None?) ==> t == RollCallRefused(400)
      ensures t.RollCall? ==>
                && caller.role == Professor
                && t.lecture in lectures && t.lecture.code == lectureCode.value && t.lecture.professor == caller.id
                && t.session in sessions && t.session.lecture == t.lecture.code && t.session.week == week.value
      ensures caller.role == Professor && Given(lectureCode) && week.Some? ==>
                (t == RollCallRefused(404) <==>
                   NoOwnedLecture(lectureCode.value, caller.id) || NoSessionInWeek(lectureCode.value, week.value))
      ensures caller.role == Professor && Given(lectureCode) && week.Some? ==>
                (t == RollCallRefused(500) <==>
                   !NoOwnedLecture(lectureCode.value, caller.id) && Query.Ambiguous(sessions, InLectureWeek(lectureCode.value, week.value)))
      ensures caller.role == Professor && Given(lectureCode) && week.Some? ==>
                forall l, s ::
                  && l in lectures && l.code == lectureCode.value && l.professor == caller.id
                  && s in sessions && InLectureWeek(lectureCode.value, week.value)(s)
                  && !Query.Ambiguous(sessions, InLectureWeek(lectureCode.value, week.value))
                  ==> t == RollCall(l, s)
      ensures t.RollCallRefused? ==> t.code in {400, 403, 404, 500}
    {
      if caller.role != Professor then RollCallRefused(403)
      else if !Given(lectureCode) || week.None? then RollCallRefused(400)
      else match OwnedLecture(lectures, lectureCode.value, caller.id)
        case None => RollCallRefused(404)
        case Some(l) =>
          match Query.Get(sessions, InLectureWeek(lectureCode.value, week.value))
          case DoesNotExist => RollCallRefused(404)
          case MultipleReturned => RollCallRefused(500)
          case Found(s) => RollCall(l, s)
    }

    /**
     * Start a session for a lecture code and week; the new session is active
     * and takes the next id. `payload` is what the start call to the beacon
     * controller sends; `notified` is whether the controller accepted it. The
     * call is made after the session is saved.
     */
    method StartSession(lectureCode: Option<string>, week: Option<int>, notified: bool)
      returns (reply: Reply, session: Option<Session>, payload: Option<Notifier.StartPayload>)
      requires Valid()
      modifies this`sessions
      ensures Valid()
      ensures records == old(records) && changeLog == old(changeLog)
      ensures payload.Some? <==> session.Some?
      ensures payload.Some? && session.Some? ==>
                forall c: string, w: nat :: SessionCode(c, w) == payload.value.sessionId ==>
                  c == session.value.lecture && w == session.value.week
      ensures !Given(lectureCode) || !GivenInt(week) ==>
                reply == Reply(400, false) && session.None? && sessions == old(sessions)
      ensures Given(lectureCode) && GivenInt(week) && LectureByCode(lectures, lectureCode.value).None? ==>
                reply == Reply(404, false) && session.None? && sessions == old(sessions)
      ensures Given(lectureCode) && GivenInt(week) && LectureByCode(lectures, lectureCode.value).Some? && week.value < 0 ==>
                reply == Reply(500, false) && session.None? && sessions == old(sessions)
      ensures Given(lectureCode) && GivenInt(week) && LectureByCode(lectures, lectureCode.value).Some? && week.value > 0 ==>
                var s := Session(|old(sessions)| + 1, lectureCode.value, week.value, true);
                && sessions == old(sessions) + [s]
                && session == Some(s)
                && payload == Some(Notifier.StartPayloadFor(s, ProfessorOf(LectureByCode(lectures, lectureCode.value).value).username))
                && reply == Reply(Notifier.StartStatus(notified), true)
    {
      if !Given(lectureCode) || !GivenInt(week) {
        return Reply(400, false), None, None;
      }
      var lecture := LectureByCode(lectures, lectureCode.value);
      if lecture.None? {
        return Reply(404, false), None, None;
      }
      if week.value < 0 {
        // The week column only admits non-negative values, so the insert fails.
        return Reply(500, false), None, None;
      }
      var s := Session(|sessions| + 1, lecture.value.code, week.value, true);
      sessions := sessions + [s];
      reply := Reply(Notifier.StartStatus(notified), true);
      session := Some(s);
      payload := Some(Notifier.StartPayloadFor(s, ProfessorOf(lecture.value).username));
      forall c: string, w: nat | SessionCode(c, w) == payload.value.sessionId
        ensures c == s.lecture && w == s.week
      {
        Notifier.StartPayloadIdentifiesSession(s, ProfessorOf(lecture.value).username, c, w);
      }
    }

    /**
     * End the active session whose derived code is the text of the request's
     * `session_id`. `notified` is whether the controller accepted the stop
     * call, made after the deactivation is saved.
     */
    method EndSession(sessionId: Option<string>, notified: bool) returns (reply: Reply)
      requires Valid()
      modifies this`sessions
      ensures Valid()
      ensures records == old(records) && changeLog == old(changeLog)
      ensures Str(sessionId) == "" ==> reply == Reply(400, false) && sessions == old(sessions)
      ensures Str(sessionId) != "" ==>
                match Query.Get(old(sessions), WithActiveCode(Str(sessionId)))
                case DoesNotExist => reply == Reply(404, false) && sessions == old(sessions)
                case MultipleReturned => reply == Reply(500, false) && sessions == old(sessions)
                case Found(s) =>
                  && 1 <= s.id <= |old(sessions)| && old(sessions)[s.id - 1] == s
                  && sessions == old(sessions)[s.id - 1 := s.(isActive := false)]
                  && reply == Reply(Notifier.EndStatus(s, notified), false)
    {
      var code := Str(sessionId);
      if code == "" {
        return Reply(400, false);
      }
      match Query.Get(sessions, WithActiveCode(code))
      case DoesNotExist =>
        reply := Reply(404, false);
      case MultipleReturned =>
        reply := Reply(500, false);
      case Found(s) =>
        ghost var before := sessions;
        Deactivate(s);
        assert before == old(sessions) && 1 <= s.id <= |before| && before[s.id - 1] == s;
        reply := Reply(Notifier.EndStatus(s, notified), false);
    }

    /** Mark one stored session inactive; its position is its id less one. */
    method Deactivate(s: Session)
      requires Valid() && s in sessions
      modifies this`sessions
      ensures Valid()
      ensures 1 <= s.id <= |old(sessions)| && old(sessions)[s.id - 1] == s
      ensures sessions == old(sessions)[s.id - 1 := s.(isActive := false)]
    {
      SessionPosition(s);
      DeactivateKeepsLectures(sessions, s.id - 1);
      sessions := sessions[s.id - 1 := s.(isActive := false)];
    }

    /** The get-or-create every check-in ends with; `created` is whether the record was missing. */
    method GetOrCreateRecord(key: RecordKey, default: string) returns (created: bool)
      requires Valid() && 1 <= key.session <= |sessions|
      modifies this`records
      ensures Valid()
      ensures created == (key !in old(records))
      ensures records == GetOrCreate(old(records), key, default)
      ensures old(StatusesAreChoices()) && IsStatusChoice(default) ==> StatusesAreChoices()
    {
      created := key !in records;
      records := GetOrCreate(records, key, default);
    }

    /**
     * A student's own check-in with a session code and an optional status.
     * Returns the status the response echoes, which is the requested one even
     * when an existing record keeps another (`None` echoes a JSON `null`).
     */
    method SubmitAttendance(caller: User, sessionCode: Option<string>, status: JsonField)
      returns (reply: Reply, echoed: Option<string>)
      requires Valid()
      modifies this`records
      ensures Valid()
      ensures echoed == RequestedStatus(status)
      ensures old(StatusesAreChoices()) && (echoed.Some? ==> IsStatusChoice(echoed.value)) ==> StatusesAreChoices()
      ensures match SubmitTarget(caller, sessionCode)
              case Refused(code) => reply == Reply(code, false) && records == old(records)
              case Target(_, s, u) =>
                var key := RecordKey(s.id, u.id);
                if echoed.Some? then
                  && reply == Reply(200, key !in old(records))
                  && records == GetOrCreate(old(records), key, echoed.value)
                else
                  // A null status finds an existing record, or fails the NOT NULL insert.
                  && reply == Reply(if key in old(records) then 200 else 500, false)
                  && records == old(records)
    {
      echoed := RequestedStatus(status);
      var t := SubmitTarget(caller, sessionCode);
      if echoed.Some? {
        reply := CheckIn(t, echoed.value);
      } else {
        match t
        case Refused(code) =>
          reply := Reply(code, false);
        case Target(_, s, u) =>
          reply := Reply(if RecordKey(s.id, u.id) in records then 200 else 500, false);
      }
    }

    /** The beacon's check-in for a student id, lecture code and session id; it always records `present`. */
    method BleAttendance(studentId: Option<nat>, lectureCode: Option<string>, sessionId: Option<nat>)
      returns (reply: Reply)
      requires Valid()
      modifies this`records
      ensures Valid()
      ensures old(StatusesAreChoices()) ==> StatusesAreChoices()
      ensures match BleTarget(studentId, lectureCode, sessionId)
              case Refused(code) => reply == Reply(code, false) && records == old(records)
              case Target(_, s, u) =>
                && reply == Reply(200, RecordKey(s.id, u.id) !in old(records))
                && records == GetOrCreate(old(records), RecordKey(s.id, u.id), Present)
    {
      reply := CheckIn(BleTarget(studentId, lectureCode, sessionId), Present);
    }

    /** The check-in from a scanned code, for the caller; it always records `present`. */
    method QrAttendance(caller: User, sessionId: Option<string>) returns (reply: Reply)
      requires Valid()
      modifies this`records
      ensures Valid()
      ensures old(StatusesAreChoices()) ==> StatusesAreChoices()
      ensures match QrTarget(caller, sessionId)
              case Refused(code) => reply == Reply(code, false) && records == old(records)
              case Target(_, s, u) =>
                && reply == Reply(200, RecordKey(s.id, u.id) !in old(records))
                && records == GetOrCreate(old(records), RecordKey(s.id, u.id), Present)
    {
      reply := CheckIn(QrTarget(caller, sessionId), Present);
    }

    /** What every check-in does once its guards are decided: refuse, or get-or-create the record. */
    method CheckIn(t: Target, status: string) returns (reply: Reply)
      requires Valid()
      requires t.Target? ==> t.session in sessions
      modifies this`records
      ensures Valid()
      ensures old(StatusesAreChoices()) && IsStatusChoice(status) ==> StatusesAreChoices()
      ensures match t
              case Refused(code) => reply == Reply(code, false) && records == old(records)
              case Target(_, s, u) =>
                && reply == Reply(200, RecordKey(s.id, u.id) !in old(records))
                && records == GetOrCreate(old(records), RecordKey(s.id, u.id), status)
    {
      match t
      case Refused(code) =>
        reply := Reply(code, false);
      case Target(_, s, u) =>
        SessionPosition(s);
        var created := GetOrCreateRecord(RecordKey(s.id, u.id), status);
        reply := Reply(200, created);
    }

    /**
     * A professor's correction of one student's status for a lecture week. A
     * change of an existing record is logged before it is overwritten.
     */
    method CorrectAttendance(caller: User, lectureCode: Option<string>, week: Option<int>,
                             studentUsername: Option<string>, status: Option<string>)
      returns (reply: Reply)
      requires Valid()
      modifies this`records, this`changeLog
      ensures Valid()
      ensures old(StatusesAreChoices()) && (status.Some? ==> IsStatusChoice(status.value)) ==> StatusesAreChoices()
      ensures match CorrectionTarget(caller, lectureCode, week, studentUsername, status)
              case Refused(code) => reply == Reply(code, false) && records == old(records) && changeLog == old(changeLog)
              case Target(_, s, st) =>
                var key := RecordKey(s.id, st.id);
                && reply == Reply(200, key !in old(records))
                && records == old(records)[key := status.value]
                && changeLog == old(changeLog) +
                     if key in old(records) && old(records)[key] != status.value
                     then [ChangeLogEntry(caller.id, st.id, s.id, old(records)[key], status.value)]
                     else []
    {
      match CorrectionTarget(caller, lectureCode, week, studentUsername, status)
      case Refused(code) =>
        reply := Reply(code, false);
      case Target(_, s, st) =>
        SessionPosition(s);
        var created := ApplyCorrection(caller.id, RecordKey(s.id, st.id), status.value);
        reply := Reply(200, created);
    }

    /**
     * The correction's write: get-or-create the record with the requested
     * status, then, for an existing record with another status, log the change
     * and overwrite it.
     */
    method ApplyCorrection(professor: nat, key: RecordKey, status: string) returns (created: bool)
      requires Valid() && 1 <= key.session <= |sessions|
      modifies this`records, this`changeLog
      ensures Valid()
      ensures old(StatusesAreChoices()) && IsStatusChoice(status) ==> StatusesAreChoices()
      ensures created == (key !in old(records))
      ensures records == old(records)[key := status]
      ensures changeLog == old(changeLog) +
                if key in old(records) && old(records)[key] != status
                then [ChangeLogEntry(professor, key.student, key.session, old(records)[key], status)]
                else []
    {
      created := GetOrCreateRecord(key, status);
      if !created && records[key] != status {
        changeLog := changeLog + [ChangeLogEntry(professor, key.student, key.session, records[key], status)];
        records := records[key := status];
      }
    }

    /**
     * The roll call's loop over the enrolled students: get-or-create an
     * `absent` record for each, and report the status stored for each.
     */
    method Backfill(session: nat, students: set<nat>) returns (rows: seq<RollCallRow>)
      requires Valid() && 1 <= session <= |sessions|
      modifies this`records
      ensures Valid()
      ensures old(StatusesAreChoices()) ==> StatusesAreChoices()
      ensures records == Backfilled(old(records), session, students)
      ensures |rows| == |students|
      ensures RowStudents(rows) == students
      ensures DistinctStudents(rows)
      ensures Reports(rows, records, session)
    {
      rows := [];
      var pending := students;
      ghost var done: set<nat> := {};
      while pending != {}
        invariant pending <= students && done == students - pending
        invariant BackfilledSoFar(old(records), records, session, done)
        invariant |rows| + |pending| == |students|
        invariant RowStudents(rows) == done && DistinctStudents(rows)
        invariant Reports(rows, records, session)
        invariant Valid()
        invariant old(StatusesAreChoices()) ==> StatusesAreChoices()
        decreases |pending|
      {
        var st :| st in pending;
        rows := RollCallStep(session, st, rows, done);
        pending := pending - {st};
        done := done + {st};
      }
      BackfilledUnique(old(records), records, session, students);
    }

    /** One turn of the roll call's loop, for a student not yet reported. */
    method RollCallStep(session: nat, st: nat, rows: seq<RollCallRow>, ghost done: set<nat>) returns (rows': seq<RollCallRow>)
      requires Valid() && 1 <= session <= |sessions|
      requires st !in done && RowStudents(rows) == done && DistinctStudents(rows)
      requires Reports(rows, records, session)
      modifies this`records
      ensures Valid()
      ensures old(StatusesAreChoices()) ==> StatusesAreChoices()
      ensures forall start :: BackfilledSoFar(start, old(records), session, done) ==> BackfilledSoFar(start, records, session, done + {st})
      ensures |rows'| == |rows| + 1
      ensures RowStudents(rows') == done + {st} && DistinctStudents(rows')
      ensures Reports(rows', records, session)
    {
      var key := RecordKey(session, st);
      ghost var before := records;
      var _ := GetOrCreateRecord(key, Absent);
      var row := RollCallRow(st, records[key]);
      RowStudentsAppend(rows, row);
      ReportsExtend(rows, before, records, session, row);
      rows' := rows + [row];
      forall start | BackfilledSoFar(start, before, session, done)
        ensures BackfilledSoFar(start, records, session, done + {st})
      {
      }
    }

    /**
     * A professor's roll call of one lecture week: every enrolled student gets
     * a record, `absent` where none existed, and one row reports each student's
     * stored status. The week arrives as query text, so 0 is accepted.
     */
    method WeeklyRollCall(caller: User, lectureCode: Option<string>, week: Option<int>)
      returns (reply: Reply, rows: seq<RollCallRow>)
      requires Valid()
      modifies this`records
      ensures Valid()
      ensures old(StatusesAreChoices()) ==> StatusesAreChoices()
      ensures match RollCallTargetOf(caller, lectureCode, week)
              case RollCallRefused(code) => reply == Reply(code, false) && rows == [] && records == old(records)
              case RollCall(l, s) =>
                && reply == Reply(200, false)
                && records == Backfilled(old(records), s.id, l.students)
                && |rows| == |l.students|
                && RowStudents(rows) == l.students
                && DistinctStudents(rows)
                && Reports(rows, records, s.id)
    {
      rows := [];
      match RollCallTargetOf(caller, lectureCode, week)
      case RollCallRefused(code) =>
        reply := Reply(code, false);
      case RollCall(l, s) =>
        SessionPosition(s);
        rows := Backfill(s.id, l.students);
        reply := Reply(200, false);
    }
  }
}
