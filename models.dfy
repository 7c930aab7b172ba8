/**
 * The persisted entities of the attendance app and the constraints the
 * database keeps on them: users (only the fields the core reads), lectures,
 * attendance sessions, attendance records and change-log entries.
 */
module Models {
  import opened Wrappers
  import opened Decimal
  import Query

  /** A user's role. Accounts made outside registration (an administrator) carry neither choice. */
  datatype Role = Student | Professor | NoRole

  /** A user; `id` is the primary key and `username` is unique. */
  datatype User = User(id: nat, username: string, name: string, role: Role, major: string, department: string)

  /** A lecture: `code` is unique, `totalWeeks` defaults to 15, and `professor` and `students` hold user ids. */
  datatype Lecture = Lecture(name: string, code: string, totalWeeks: nat, professor: nat, students: set<nat>)

  const DefaultTotalWeeks: nat := 15

  /**
   * An attendance session: `lecture` is the code of the lecture it belongs to
   * (the code is unique, so it identifies the foreign key). There is no
   * session-code column; `SessionCode` derives it.
   */
  datatype Session = Session(id: nat, lecture: string, week: nat, isActive: bool)

  /** The key of an attendance record; the table is unique on (session, student). */
  datatype RecordKey = RecordKey(session: nat, student: nat)

  /** One audit entry of a professor's correction. The table has no update path. */
  datatype ChangeLogEntry = ChangeLogEntry(professor: nat, student: nat, session: nat, oldStatus: string, newStatus: string)

  /** The three declared choices of a record's status. */
  const Present: string := "present"
  const Late: string := "late"
  const Absent: string := "absent"

  /** Python truthiness of an optional text field of a request: sent and not empty. */
  predicate Given(v: Option<string>) {
    v.Some? && v.value != ""
  }

  predicate IsStatusChoice(s: string) {
    s == Present || s == Late || s == Absent
  }

  /** The columns AttendanceSession declares; the ORM resolves filter keywords against them. */
  const SessionFields: set<string> := {"id", "lecture", "week", "created_at", "is_active"}

  /** The code the hardware controller and the check-in requests use for a lecture week: `{code}_{week}`. */
  function SessionCode(lectureCode: string, week: nat): (c: string)
    ensures |c| > |lectureCode| && c[..|lectureCode|] == lectureCode && c[|lectureCode|] == '_'
    ensures AllDigits(c[|lectureCode| + 1..])
  {
    lectureCode + "_" + NatToString(week)
  }

  function CodeOf(s: Session): string {
    SessionCode(s.lecture, s.week)
  }

  /** The derived code determines the lecture and the week: digits hold no underscore, so the last one splits it. */
  lemma {:induction false} SessionCodeInjective(c1: string, w1: nat, c2: string, w2: nat)
    requires SessionCode(c1, w1) == SessionCode(c2, w2)
    ensures c1 == c2 && w1 == w2
  {
    var s := SessionCode(c1, w1);
    var d1, d2 := NatToString(w1), NatToString(w2);
    assert |d1| == |d2|;
    assert c1 == s[..|c1|] == c2;
    assert d1 == s[|c1| + 1..] == d2;
    NatToStringInjective(w1, w2);
  }

  /** A session code always holds an underscore, so the text Python makes of a missing value, "None", is none. */
  lemma NoneIsNoSessionCode(c: string, w: nat)
    ensures SessionCode(c, w) != "None"
  {
    assert SessionCode(c, w)[|c|] == '_';
  }

  /* Filters used with Query.Get. */

  function WithActiveCode(code: string): Session -> bool {
    (s: Session) => CodeOf(s) == code && s.isActive
  }

  function WithCode(code: string): Session -> bool {
    (s: Session) => CodeOf(s) == code
  }

  function InLectureWeek(lectureCode: string, week: int): Session -> bool {
    (s: Session) => s.lecture == lectureCode && s.week == week
  }

  /** The outcome of an ORM filter: a keyword that names no declared column raises FieldError. */
  datatype FilterOutcome<T> = FieldError | Rows(lookup: Query.Lookup<T>)

  /**
   * `AttendanceSession.objects.get(session_code=code, ...)` as written: the
   * keyword is resolved against the declared columns before any row is read.
   */
  function SessionBySessionCodeAsWritten(sessions: seq<Session>, code: string, activeOnly: bool): (r: FilterOutcome<Session>)
    ensures r.Rows? ==> "session_code" in SessionFields
  {
    if "session_code" in SessionFields then
      Rows(Query.Get(sessions, if activeOnly then WithActiveCode(code) else WithCode(code)))
    else FieldError
  }

  /** As written, every lookup by session code raises, for every table and every code. */
  lemma SessionCodeFilterRaises(sessions: seq<Session>, code: string, activeOnly: bool)
    ensures SessionBySessionCodeAsWritten(sessions, code, activeOnly) == FieldError
  {
  }

  /** The derived lookup matches exactly the sessions of that lecture and week. */
  lemma WithCodeMatchesLectureWeek(s: Session, lectureCode: string, week: nat)
    ensures WithCode(SessionCode(lectureCode, week))(s) <==> s.lecture == lectureCode && s.week == week
  {
    if CodeOf(s) == SessionCode(lectureCode, week) {
      SessionCodeInjective(s.lecture, s.week, lectureCode, week);
    }
  }

  /* Uniqueness constraints of the tables. */

  ghost predicate UserIdsUnique(users: seq<User>) {
    forall i, j :: 0 <= i < |users| && 0 <= j < |users| && users[i].id == users[j].id ==> i == j
  }

  ghost predicate UsernamesUnique(users: seq<User>) {
    forall i, j :: 0 <= i < |users| && 0 <= j < |users| && users[i].username == users[j].username ==> i == j
  }

  /** Every lecture's professor is a stored user (the foreign key). */
  ghost predicate LectureProfessorsExist(users: seq<User>, lectures: seq<Lecture>) {
    forall l :: l in lectures ==> exists u :: u in users && u.id == l.professor
  }

  ghost predicate LectureCodesUnique(lectures: seq<Lecture>) {
    forall i, j :: 0 <= i < |lectures| && 0 <= j < |lectures| && lectures[i].code == lectures[j].code ==> i == j
  }

  /** `Lecture.objects.get(code=code)`: the code column is unique, so there is at most one. */
  function LectureByCode(lectures: seq<Lecture>, code: string): (r: Option<Lecture>)
    requires LectureCodesUnique(lectures)
    ensures r.None? <==> forall l :: l in lectures ==> l.code != code
    ensures r.Some? ==> r.value in lectures && r.value.code == code
    ensures forall l :: l in lectures && l.code == code ==> r == Some(l)
  {
    var p := (l: Lecture) => l.code == code;
    Query.GetOnUniqueColumn(lectures, p);
    match Query.Get(lectures, p)
    case Found(l) => Some(l)
    case _ => None
  }

  /** The codes of a lecture table. */
  ghost function LectureCodes(lectures: seq<Lecture>): set<string> {
    set l | l in lectures :: l.code
  }

  /** A code of the table finds its lecture. */
  lemma LectureByCodeFound(lectures: seq<Lecture>, code: string)
    requires LectureCodesUnique(lectures)
    ensures LectureByCode(lectures, code).Some? <==> code in LectureCodes(lectures)
  {
  }

  /** `Lecture.objects.get(code=code, professor=professor)`: only the owner finds the lecture. */
  function OwnedLecture(lectures: seq<Lecture>, code: string, professor: nat): (r: Option<Lecture>)
    requires LectureCodesUnique(lectures)
    ensures r.None? <==> forall l :: l in lectures ==> l.code != code || l.professor != professor
    ensures r.Some? ==> r.value in lectures && r.value.code == code && r.value.professor == professor
    ensures forall l :: l in lectures && l.code == code && l.professor == professor ==> r == Some(l)
  {
    var p := (l: Lecture) => l.code == code && l.professor == professor;
    Query.GetOnUniqueColumn(lectures, p);
    match Query.Get(lectures, p)
    case Found(l) => Some(l)
    case _ => None
  }

  /** `User.objects.get(id=id)`; a missing id matches no row. */
  function UserById(users: seq<User>, id: Option<nat>): (r: Option<User>)
    requires UserIdsUnique(users)
    ensures r.None? <==> id.None? || forall u :: u in users ==> u.id != id.value
    ensures r.Some? ==> id.Some? && r.value in users && r.value.id == id.value
    ensures forall u :: u in users && id == Some(u.id) ==> r == Some(u)
  {
    if id.None? then None
    else
      var p := (u: User) => u.id == id.value;
      Query.GetOnUniqueColumn(users, p);
      match Query.Get(users, p)
      case Found(u) => Some(u)
      case _ => None
  }

  /** `User.objects.get(username=name)`: usernames are unique. */
  function UserByUsername(users: seq<User>, name: string): (r: Option<User>)
    requires UsernamesUnique(users)
    ensures r.None? <==> forall u :: u in users ==> u.username != name
    ensures r.Some? ==> r.value in users && r.value.username == name
    ensures forall u :: u in users && u.username == name ==> r == Some(u)
  {
    var p := (u: User) => u.username == name;
    Query.GetOnUniqueColumn(users, p);
    match Query.Get(users, p)
    case Found(u) => Some(u)
    case _ => None
  }

  /** `User.objects.get(username=name, role='student')`. */
  function StudentByUsername(users: seq<User>, name: string): (r: Option<User>)
    requires UsernamesUnique(users)
    ensures r.None? <==> forall u :: u in users ==> u.username != name || u.role != Student
    ensures r.Some? ==> r.value in users && r.value.username == name && r.value.role == Student
    ensures forall u :: u in users && u.username == name && u.role == Student ==> r == Some(u)
  {
    var p := (u: User) => u.username == name && u.role == Student;
    Query.GetOnUniqueColumn(users, p);
    match Query.Get(users, p)
    case Found(u) => Some(u)
    case _ => None
  }
}
