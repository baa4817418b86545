/**
 * The store keys the screens read, against the keys the login and logout
 * handlers write. The HOD dashboard reads 'teacher_id', 'name' and
 * 'department'; the teacher dashboard reads 'user_data'; the HOD student
 * list reads 'department_id'.
 */
module SessionReaders {
  import opened Js
  import Http
  import opened Session
  import StudentLogin
  import TeacherLogin
  import AdminApi

  /** What can happen to the store between app start and a reader. */
  datatype Event =
    | StudentLoginEvent(email: string, password: string, reply: Http.Outcome)
    | TeacherLoginEvent(email: string, password: string, reply: Http.Outcome)
    | AdminLoginEvent(username: string, password: string, reply: Http.Outcome)
    | Logout

  function Apply(store: map<string, Stored>, e: Event): map<string, Stored> {
    match e
    case StudentLoginEvent(email, password, reply) => StudentLogin.StudentLoginStep(store, email, password, reply).store
    case TeacherLoginEvent(email, password, reply) => TeacherLogin.TeacherLoginStep(store, email, password, reply).store
    case AdminLoginEvent(username, password, reply) =>
      // `AdminLoginScreen` stores the returned body under 'adminUser' and nothing else.
      if username != "" && password != "" && AdminApi.AdminLogin(reply).Returned?
      then store["adminUser" := Json(AdminApi.AdminLogin(reply).value)]
      else store
    case Logout => map[]
  }

  /** The store after a run of events. */
  function Run(store: map<string, Stored>, events: seq<Event>): map<string, Stored>
    decreases |events|
  {
    if events == [] then store else Run(Apply(store, events[0]), events[1..])
  }

  /** Keys some screen reads but no handler ever writes. */
  const NeverWritten: set<string> := {"name", "department", "user_data"}

  /** One handler writes none of the never-written keys. */
  lemma ApplyKeepsOut(store: map<string, Stored>, e: Event, k: string)
    requires k in NeverWritten && k !in store
    ensures k !in Apply(store, e)
  {
    match e
    case StudentLoginEvent(email, password, reply) =>
    case TeacherLoginEvent(email, password, reply) =>
      if email != "" && password != "" && Http.Ok(reply) {
        TeacherLogin.TeacherWritesKeys(store, reply.body);
      }
    case AdminLoginEvent(username, password, reply) =>
    case Logout =>
  }

  /**
   * From a fresh install, whatever student, teacher and admin logins and
   * logouts happen, 'name',
   * 'department' and 'user_data' are never in the store: the HOD dashboard's
   * greeting and department and the teacher dashboard's user read nothing.
   */
  lemma {:induction false} ReadersFindNothing(store: map<string, Stored>, events: seq<Event>)
    requires forall k :: k in NeverWritten ==> k !in store
    ensures forall k :: k in NeverWritten ==> k !in Run(store, events)
    decreases |events|
  {
    if events != [] {
      forall k | k in NeverWritten ensures k !in Apply(store, events[0]) {
        ApplyKeepsOut(store, events[0], k);
      }
      ReadersFindNothing(Apply(store, events[0]), events[1..]);
    }
  }

  /**
   * A login that reaches a teacher dashboard leaves the id and department
   * the HOD screens read, as the texts the reply's numbers render to.
   */
  lemma HodScreensFindIds(store: map<string, Stored>, email: string, password: string, reply: Http.Outcome)
    requires TeacherLogin.TeacherLoginStep(store, email, password, reply).replaceWith.Some?
    ensures var after := TeacherLogin.TeacherLoginStep(store, email, password, reply).store;
      && "teacher_id" in after && after["teacher_id"] == Text(Render(Get(reply.body, "teacher_id")))
      && "department_id" in after && after["department_id"] == Text(Render(Get(reply.body, "department_id")))
  {
    TeacherLogin.TeacherWritesKeys(store, reply.body);
  }
}
