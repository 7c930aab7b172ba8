# Checkmate attendance core in Dafny

This project models the attendance back end of Checkmate, a Django service for
lecture attendance. A professor starts an attendance session for a lecture week,
and a beacon controller is told to advertise it. Students check in by three
channels: their own submission with the session code, the beacon, and a
scanned QR code. Every channel is a get-or-create of one record per (session,
student). A professor can correct a status; a change to an existing record is
written to an append-only change log. The weekly roll call materializes an
`absent` record for every enrolled student who has none. The statistics views
turn records into attendance rates. Account registration and login each have a
cross-field validator.

Modules (one file each):

- `wrappers.dfy`: `Option` and `Result`.
- `query.dfy`: the ORM's `objects.get(...)` over a table held as a sequence.
  It has three outcomes: no row, one row, or several rows. The handlers catch
  only the first; the last becomes a server error.
- `decimal.dfy`: `str(n)` for naturals and its inverse.
- `models.dfy`: the persisted entities and the tables' unique columns. The
  session code `{lecture_code}_{week}` is derived from a session and never
  stored. The module also holds the lookups the handlers make.
- `notifier.dfy`: what the beacon-controller helpers send, when they raise, and
  the status the session handlers answer with.
- `engine.dfy`: the class `AttendanceStore`, which keeps the sessions, records
  and change log and has one method per handler. Each handler's guards are a
  pure function (`SubmitTarget`, `CorrectionTarget`, ...). The method applies
  the state change the guards select. The roll call is a loop.
- `rates.dfy`: the attendance-rate formulas, kept exact.
- `accounts.dfy`: registration and login validation.
- `scenarios.dfy`: properties of two calls in a row, as client methods.

Inputs from outside the store are parameters: the caller, the request fields,
whether the beacon controller accepted a call, and the password check. A
request field the client may omit is an `Option`; the submission's `status`,
which the code treats differently when left out and when sent as `null`, is a
`JsonField` (`Omitted`, `JsonNull` or `JsonText`). Python truthiness (`not x`)
is `Given`/`GivenInt`, and `str(None)` is `"None"`.

Where the code's behaviour is surprising, the model follows the code:

- Start has no guard against a second active session for the same lecture week
  (`Scenarios.StartTwiceThenEnd`).
- End's 400 answer is reachable only when an empty string is sent, because
  `str(None)` is `"None"`.
- Week 0 is refused by Start and by a correction (JSON `0` is falsy). The roll
  call accepts it, since its week is query text and `"0"` is truthy.
- The status `choices` are not enforced on save, so a stored status is any
  string the request carried (within the column length, which the model does
  not bound; see "## Left out"). The `StatusesAreChoices` invariant is preserved
  only when every status written is one of the choices.

## Model

| member | source | states |
|---|---|---|
| Query.Get | attendance/views.py:46-49 | `get` finds nothing iff no row matches. It returns a row only when every matching row is that row. It reports several rows iff two distinct positions match. |
| Query.GetOnUniqueColumn | attendance/models.py:6 | On a unique column, `get` never reports several rows. |
| Query.GetAfterDuplicate | attendance/views.py:51-55 | Adding a second matching row makes `get` report several rows. |
| Decimal.NatToString | attendance/utils/raspberry_pi.py:7 | The week printed by `str` is a non-empty run of digits with no leading zero. |
| Decimal.ParseNatToString | attendance/utils/raspberry_pi.py:7 | Reading the printed week back gives the week. |
| Decimal.NatToStringInjective | attendance/utils/raspberry_pi.py:7 | Distinct weeks print differently. |
| Models.SessionCode | attendance/utils/raspberry_pi.py:7 | The code is the lecture code, an underscore, then the week's digits. |
| Models.SessionCodeInjective | attendance/utils/raspberry_pi.py:7 | Equal codes mean the same lecture and the same week. |
| Models.NoneIsNoSessionCode | attendance/views.py:79 | No session code is the text `"None"` that a missing `session_id` becomes. |
| Models.WithCodeMatchesLectureWeek | attendance/views.py:571 | Looking up by derived code matches exactly the sessions of that lecture and week. |
| Models.SessionBySessionCodeAsWritten | attendance/views.py:85 | As written, a `session_code=` lookup reads rows only if the keyword names a declared column of the session. |
| Models.SessionCodeFilterRaises | attendance/views.py:85 | As written, every `session_code=` lookup raises, because the session has no such column. |
| Models.LectureByCode | attendance/views.py:46-49 | The lookup finds nothing iff no lecture has the code, and finds every lecture that has it. |
| Models.LectureByCodeFound | attendance/models.py:6 | The lookup by code succeeds iff the code is in the table. |
| Models.OwnedLecture | attendance/views.py:337 | Exactly the lecture with the code whose professor is the caller is found, when there is one. |
| Models.UserById | attendance/views.py:535 | A missing id finds no user. Otherwise the user with that id is found, and nothing iff no user has it. |
| Models.UserByUsername | users/serializers.py:14-17 | The lookup finds nothing iff no user has the username, and otherwise finds the user who has it. |
| Models.StudentByUsername | attendance/views.py:347-350 | Exactly the user with the username and the student role is found, when there is one. |
| Notifier.StartPayloadIdentifiesSession | attendance/utils/raspberry_pi.py:6-11 | The code a start call sends determines the session's lecture and week. |
| Notifier.NotifyStop | attendance/utils/raspberry_pi.py:22-32 | The stop helper raises iff given a bare id. Otherwise it returns the controller's answer. |
| Notifier.StartStatus | attendance/views.py:58-64 | Start answers 201, or 207 iff the controller did not accept. |
| Notifier.EndStatusAfterCall | attendance/views.py:92-98 | End answers 200, 207 or 500; 500 exactly when the helper raised, and otherwise 200 exactly when the controller accepted. |
| Notifier.EndStatusAsWritten | attendance/views.py:92-98 | End as written, passing `session.id`, answers one of 200, 207 and 500. |
| Notifier.EndAsWrittenAlwaysFails | attendance/views.py:92 | As written, End answers 500 whatever the controller does. |
| Notifier.EndStatus | attendance/views.py:92-98 | Corrected End answers 200 iff the controller accepted, and 207 iff not. |
| Engine.Str | attendance/views.py:79-82 | The text is empty iff the value was sent as empty text, so a missing `session_id` never gets End's 400. |
| Engine.GetOrCreate | attendance/views.py:194-198 | Get-or-create adds exactly the key. An existing record is untouched and a new one gets the default. |
| Engine.GetOrCreateIdempotent | attendance/views.py:194-198 | A repeated get-or-create changes nothing. The stored status is the first default or the existing one. |
| Engine.Backfilled | attendance/views.py:658-663 | The roll call keeps every old record, and each record it adds is an `absent` of a listed student in the session. |
| Engine.BackfilledMeaning | attendance/views.py:658-663 | After the roll call there is a record for every old key and every enrolled student. Old statuses are kept and new ones are `absent`. |
| Engine.BackfilledUnique | attendance/views.py:658-663 | Any map with those three properties is the roll call's result. |
| Engine.BackfilledIdempotent | attendance/views.py:658-663 | A second roll call of the same week adds nothing. |
| Engine.RollCallExample | attendance/views.py:658-668 | Three students, one already present: rows present, absent, absent. |
| Engine.BackfillStep | attendance/views.py:658-663 | One get-or-create of an absence extends the roll call by one student. |
| Engine.RowStudents | attendance/views.py:664-668 | Every row's student is among the reported students. |
| Engine.DeactivateKeepsLectures | attendance/views.py:89-90 | Deactivating a session keeps every session's id and lecture. |
| Engine.AttendanceStore.constructor | attendance/models.py:4-40 | An empty store over a roster with unique ids, usernames and codes, whose lectures' professors exist, is valid. |
| Engine.AttendanceStore.ProfessorOf | attendance/models.py:8 | A stored lecture's professor is a stored user with the lecture's professor id. |
| Engine.AttendanceStore.LectureOf | attendance/models.py:16 | Every stored session's lecture exists and has the session's code. |
| Engine.AttendanceStore.SessionPosition | attendance/models.py:15-19 | A session's id is its position plus one. |
| Engine.AttendanceStore.SessionByIdInLecture | attendance/views.py:536 | The session with the id and lecture code is found, nothing iff there is none, and a missing value finds none. |
| Engine.AttendanceStore.SubmitTarget | attendance/views.py:176-191 | Checks in order: 403 for a non-student, 400 with no code, 404 iff no active session has the code, 500 iff several do. For the one active session with the code, the caller is accepted iff enrolled in its lecture, and refused with 403 otherwise. |
| Engine.AttendanceStore.BleTarget | attendance/views.py:534-541 | 404 iff the student or the session in that lecture is missing. A found student and session are accepted iff the student is enrolled, and refused with 403 otherwise. |
| Engine.AttendanceStore.QrTarget | attendance/views.py:568-576 | 404 iff no session (active or not) has the code, 500 iff several do. For the one session with the code, the caller is accepted iff enrolled, and refused with 403 otherwise. |
| Engine.AttendanceStore.CorrectionTarget | attendance/views.py:333-353 | 400 iff a field is missing. For a complete request, 404 iff no owned lecture, no session that week, or (the week being unambiguous) no such student; 500 iff the owned lecture has several sessions that week. With the lecture, the one session and the student found, it accepts them iff the student is enrolled, and refuses with 403 otherwise. |
| Engine.AttendanceStore.RollCallTargetOf | attendance/views.py:641-655 | 403 for a non-professor, then 400 with no code or week. After that 404 iff no owned lecture or no session that week, and 500 iff several sessions that week. The owned lecture and its one session of the week are always selected. |
| Engine.AttendanceStore.StartSession | attendance/views.py:39-64 | 400 and 404 create nothing, and a negative week fails. Otherwise exactly one session is appended, active and with the next id, even if one already exists. The start call's payload is made exactly for a new session: the session's code and its lecture's professor's username, and that code determines the new session's lecture and week. |
| Engine.AttendanceStore.EndSession | attendance/views.py:78-98 | 404/500 change nothing. Otherwise only the matching active session becomes inactive, and records and log stay unchanged. |
| Engine.AttendanceStore.Deactivate | attendance/views.py:89-90 | Only the given session is marked inactive. |
| Engine.AttendanceStore.GetOrCreateRecord | attendance/views.py:194-198 | `created` iff the key was missing. The records become get-or-create of the old ones. |
| Engine.AttendanceStore.CheckIn | attendance/views.py:194-198 | A refusal writes nothing. Otherwise get-or-create, with `created` iff no record existed. |
| Engine.AttendanceStore.SubmitAttendance | attendance/views.py:171-207 | A refusal writes nothing. A left-out status asks for `present`. A requested status is get-or-created and echoed even when the existing record keeps another. A `null` status writes nothing: it answers 200 when the record exists and 500 when the NOT NULL insert fails. |
| Engine.AttendanceStore.BleAttendance | attendance/views.py:529-549 | A refusal writes nothing. Success get-or-creates `present`. |
| Engine.AttendanceStore.QrAttendance | attendance/views.py:566-584 | A refusal writes nothing. Success get-or-creates `present`. |
| Engine.AttendanceStore.CorrectAttendance | attendance/views.py:327-378 | A refusal writes nothing. Success ends with the requested status. One log entry (old, new) is added iff the record existed with another status. |
| Engine.AttendanceStore.ApplyCorrection | attendance/views.py:355-370 | The record ends with the requested status. The log grows by the entry iff the old status differed. |
| Engine.AttendanceStore.Backfill | attendance/views.py:658-668 | The records become the roll call's result. There is exactly one row per enrolled student, reporting the stored status. |
| Engine.AttendanceStore.RollCallStep | attendance/views.py:659-668 | One student's record exists afterwards and one row reports it. |
| Engine.AttendanceStore.WeeklyRollCall | attendance/views.py:636-674 | A refusal writes nothing. Otherwise the records are backfilled and one row reports each enrolled student. |
| Rates.Count | attendance/views.py:130-132 | A count is zero iff no record has the status, and full iff all do. |
| Rates.CountConcat | attendance/views.py:464-466 | Counts add over concatenated record lists. |
| Rates.Points | attendance/views.py:135 | Points are never negative, and zero iff nothing counted. |
| Rates.Rate | attendance/views.py:135 | The rate is zero for a zero denominator and never negative. |
| Rates.RateExample | attendance/views.py:135 | 6 present and 2 late of 10 weeks give 70 percent. |
| Rates.RateAtMostHundred | attendance/views.py:135 | The rate is at most 100 while the counted weeks fit in the denominator. |
| Rates.LateCountsHalf | attendance/views.py:135 | Two late weeks count as one present week. |
| Rates.RateMonotone | attendance/views.py:135 | More present or late weeks never lower the rate. |
| Rates.StudentRate | attendance/views.py:129-135 | A lecture with no weeks gives rate 0. |
| Rates.PresentRaisesStudentRate | attendance/views.py:130-135 | In a lecture with weeks, each further present record raises the student's rate. |
| Rates.OtherStatusesNeverCount | attendance/views.py:132-135 | An absence, or any other status, never changes a rate. |
| Rates.SummaryRate | attendance/views.py:467-469 | No students or no weeks gives rate 0. |
| Rates.SumOfRatesIsPoints | attendance/views.py:135 | The students' rates sum to all their points over the term. |
| Rates.SummaryIsMeanOfStudentRates | attendance/views.py:460-469 | The professor summary, over students × weeks, is the mean of the student rates. |
| Rates.StatisticsRateAsWritten | attendance/views.py:240-245 | As written, the statistics view's rate is never negative and is 0 for a lecture with no weeks. |
| Rates.StatisticsAsWrittenAlwaysZero | attendance/views.py:240-245 | As written, the statistics view's rate is 0 when statuses are the stored choices. |
| Rates.StatisticsCounterexample | attendance/views.py:240-245 | One present record of 15 weeks: the statistics view says 0, the student view more. |
| Accounts.ValidateRegistration | users/serializers.py:40-58 | Each refusal happens iff its case holds: wrong role, no username, then no major or department by role. Accepted data is unchanged. |
| Accounts.RoleOf | users/models.py:5-8 | The stored role is Student or Professor exactly for those texts. |
| Accounts.AcceptedRegistration | users/serializers.py:43-58 | An accepted request has a valid role, a username, and its role's field. |
| Accounts.OtherRoleFieldIgnored | users/serializers.py:43-53 | A student's department and a professor's major never decide the outcome. |
| Accounts.CommonFieldsIgnored | users/serializers.py:40-58 | E-mail, password and name never decide the outcome. |
| Accounts.ValidateLogin | users/serializers.py:10-23 | Unknown user iff no account has the username; a wrong password names an account that fails the check. Success attaches that account. |
| Accounts.LoginSucceedsIff | users/serializers.py:14-23 | With unique usernames, login succeeds iff the named account accepts the password, and then returns that account. |
| Accounts.SameUsernameSameUser | users/serializers.py:15 | With unique usernames, one username names one account. |
| Scenarios.SubmitTwice | attendance/views.py:174-207 | A repeated submission leaves one record, created only the first time, with the first status. A first `null` status with no record creates nothing, and the second call alone decides. |
| Scenarios.CorrectTwice | attendance/views.py:355-370 | Repeating a correction adds no second log entry. |
| Scenarios.StartTwiceThenEnd | attendance/views.py:51-55 | Two starts of a week add two sessions, and ending that week then answers 500. |

## Left out

- Network I/O: the calls to the beacon controller, the connection check and the BLE mock endpoints. A controller answer is a boolean parameter.
- QR image generation: it needs the image and base64 libraries.
- Floating point: rates are exact reals. Python's `round(…, 1)` and binary floats are not modelled.
- Concurrency and atomicity: `get_or_create` and concurrent Starts run one after another here.
- Authentication, JWT and password hashing: the caller is a parameter. The password check is a function parameter of `Accounts.ValidateLogin`.
- Timestamps (`created_at`, `timestamp`, `changed_at`) and the response bodies' text fields.
- Field-level request validation runs before the cross-field validators (types, required flags, `max_length`, unique e-mail). It is not modelled, so `RegistrationData` fields may be missing.
- `RegisterSerializer.create` is left out (it is `set_password` and save).
- Non-integer JSON values for `week`, `student_id` and `session_id`, and query text that is not a number: the model takes them as already-typed integers.
- The read-only listing and search views, and the request handling of the statistics views (lookups, response shape). Only their rate formulas are modelled.
- Rates.StudentRate and Rates.SummaryRate: their input is the list of the selected records' statuses, not a query over the store.
- The 403 at attendance/views.py:344-345 is not a branch: the lecture was already found with `professor=request.user`, so the check never fails.
- Engine.AttendanceStore.StartSession: the new session's id is the next position. Database id allocation and gaps are not modelled.
- Column widths and integer ranges. A week above the positive-integer column's range (2147483647 on most backends) makes Start's insert fail with 500, but the model appends the session. A status longer than the 10 characters of `CharField(max_length=10)` fails the insert or update on a backend that enforces the length, but the model stores it. The BLE `student_id` and `session_id` are naturals, so a negative id cannot be expressed; the code answers 404 for one.
- Engine.AttendanceStore.EndSession, SubmitAttendance and QrAttendance use the derived session code (the corrected behaviour). As written they raise; see Findings.
- Engine.AttendanceStore.EndSession: it also answers with `Notifier.EndStatus`, which passes the session object, as the stop helper expects (the corrected behaviour). As written the handler passes `session.id`, so End raises after saving the deactivation and answers 500; see Findings.

## Findings

| source | as written | input that shows it | evidently intended | confidence | as-written member | corrected member |
|---|---|---|---|---|---|---|
| attendance/views.py:85, 185, 571 | sessions are looked up with `session_code=…`, a column `AttendanceSession` does not have, which raises FieldError outside the `except` | any End, Submit (student caller) or QR request with a session code, e.g. `CS101_2` | match the derived code `{lecture.code}_{week}` | not executed | Models.SessionCodeFilterRaises | Models.WithCodeMatchesLectureWeek |
| attendance/views.py:92, attendance/utils/raspberry_pi.py:23 | End passes `session.id` to the stop helper, which reads `.lecture` before its `try` and raises AttributeError | ending any active session, controller up or down; reached only once the `session_code` lookup at :85 is fixed | pass the session, answer 200, or 207 when the controller did not accept | not executed | Notifier.EndAsWrittenAlwaysFails | Notifier.EndStatus |
| attendance/views.py:240-245 | the statistics view counts records by the Korean labels `출석`/`지각`, which a choice-valued status never writes | a student with one `present` record in a 15-week lecture: rate 0 | count by the stored values, as the student statistics view does | not executed | Rates.StatisticsCounterexample | Rates.PresentRaisesStudentRate |
