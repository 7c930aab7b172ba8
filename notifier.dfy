/**
 * The best-effort calls to the beacon controller. The network call itself is
 * not modelled: whether the controller answered with success is a parameter.
 * What is modelled is what each helper sends, when it raises instead of
 * returning, and which response status the session handlers derive from it.
 */
module Notifier {
  import opened Models

  /** The JSON body of a start call: the session's derived code and the owning professor's username. */
  datatype StartPayload = StartPayload(sessionId: string, professorUsername: string)

  function StartPayloadFor(s: Session, professorUsername: string): (p: StartPayload)
    ensures p.sessionId == SessionCode(s.lecture, s.week) && p.professorUsername == professorUsername
  {
    StartPayload(CodeOf(s), professorUsername)
  }

  /** The controller can recover the session's lecture and week from the code a start call sends. */
  lemma StartPayloadIdentifiesSession(s: Session, professorUsername: string, lectureCode: string, week: nat)
    requires StartPayloadFor(s, professorUsername).sessionId == SessionCode(lectureCode, week)
    ensures lectureCode == s.lecture && week == s.week
  {
    SessionCodeInjective(s.lecture, s.week, lectureCode, week);
  }

  /** What the stop helper is called with: the session object it expects, or a bare primary key. */
  datatype StopArgument = SessionObject(session: Session) | SessionPrimaryKey(id: nat)

  /** Calling a helper either returns whether the controller answered 200, or raises before its try block. */
  datatype CallOutcome = Returned(notified: bool) | Raised

  /**
   * `notify_raspberry_pi_stop(arg)`: the session code is built from `arg.lecture`
   * and `arg.week` before the try block, so an argument without those attributes
   * raises AttributeError, which the helper does not catch. Otherwise the helper
   * reports the controller's answer, and every request exception as false.
   */
  function NotifyStop(arg: StopArgument, controllerOk: bool): (r: CallOutcome)
    ensures r.Raised? <==> arg.SessionPrimaryKey?
    ensures r.Returned? ==> r.notified == controllerOk
  {
    match arg
    case SessionObject(_) => Returned(controllerOk)
    case SessionPrimaryKey(_) => Raised
  }

  /** The response status of the start handler once the session is saved. */
  function StartStatus(notified: bool): (code: int)
    ensures code == 201 || code == 207
    ensures code == 207 <==> !notified
  {
    if notified then 201 else 207
  }

  /** The response status of the end handler once the deactivation is saved; an exception is a server error. */
  function EndStatusAfterCall(call: CallOutcome): (code: int)
    ensures code in {200, 207, 500}
    ensures code == 500 <==> call.Raised?
    ensures call.Returned? ==> (code == 200 <==> call.notified)
  {
    match call
    case Returned(ok) => if ok then 200 else 207
    case Raised => 500
  }

  /** The end handler as written: it passes `session.id` to the stop helper. */
  function EndStatusAsWritten(s: Session, controllerOk: bool): (code: int)
    ensures code in {200, 207, 500}
  {
    EndStatusAfterCall(NotifyStop(SessionPrimaryKey(s.id), controllerOk))
  }

  /** As written, ending a session always answers 500, whatever the controller does, after the session was saved inactive. */
  lemma EndAsWrittenAlwaysFails(s: Session, controllerOk: bool)
    ensures EndStatusAsWritten(s, controllerOk) == 500
  {
  }

  /** The end handler passing the session itself, as the helper expects. */
  function EndStatus(s: Session, controllerOk: bool): (code: int)
    ensures code == 200 <==> controllerOk
    ensures code == 207 <==> !controllerOk
  {
    EndStatusAfterCall(NotifyStop(SessionObject(s), controllerOk))
  }
}
