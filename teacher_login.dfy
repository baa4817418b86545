/**
 * `handleLogin` of the teacher login screen
 * (`mobile/PCASConnect/src/screens/TeacherLoginScreen.js`): five storage
 * writes in order, a success alert, and a move to the HOD or the teacher
 * dashboard by role. A write whose value cannot be produced (`toString()`
 * of a missing id, a role that is not a string) throws, so the writes
 * before it stay and the catch shows the connection alert.
 */
module TeacherLogin {
  import opened Wrappers
  import opened Js
  import Http
  import opened Session
  import StudentLogin

  const CouldNotConnect := Alert("Login Failed", Plain("Could not connect to server."))

  /** The five keys a complete teacher login writes. */
  const TeacherKeys: set<string> := {"teacher", "teacherId", "teacher_id", "department_id", "role"}

  /** A value `toString()` accepts. */
  predicate HasValue(v: JsVal) {
    !(v.Undefined? || v.Null?)
  }

  /** The dashboard a role leads to. */
  function DashboardFor(role: string): string {
    if role == "HOD" then "HODDashboard" else "TeacherDashboard"
  }

  /** The storage writes after a 2xx reply, up to the first one that throws, and whether all went through. */
  function TeacherWrites(store: map<string, Stored>, data: JsonObject): (map<string, Stored>, bool) {
    var s1 := store["teacher" := Json(data)];
    match ToStr(Get(data, "teacher_id"))
    case None => (s1, false)
    case Some(id) =>
      var s2 := s1["teacherId" := Text(id)]["teacher_id" := Text(id)];
      match ToStr(Get(data, "department_id"))
      case None => (s2, false)
      case Some(dept) =>
        var s3 := s2["department_id" := Text(dept)];
        if Get(data, "role").Str? then (s3["role" := Text(Get(data, "role").s)], true) else (s3, false)
  }

  /** What `handleLogin` does for the typed fields and the request's outcome. */
  function TeacherLoginStep(store: map<string, Stored>, email: string, password: string, reply: Http.Outcome): Step {
    if email == "" || password == "" then
      Step(store, [Alert("Required", Plain(StudentLogin.FillAllFields))], [], None)
    else if Http.Ok(reply) then
      var (written, complete) := TeacherWrites(store, reply.body);
      if complete then
        Step(written, [Alert("Success", Plain("Login Successful"))], [StudentLogin.LoginRequest("teacher")],
             Some(Route(DashboardFor(Get(reply.body, "role").s), None)))
      else
        Step(written, [CouldNotConnect], [StudentLogin.LoginRequest("teacher")], None)
    else if reply.Responded? then
      Step(store, [Alert("Login Failed", JsonOf(reply.body))], [StudentLogin.LoginRequest("teacher")], None)
    else
      Step(store, [CouldNotConnect], [StudentLogin.LoginRequest("teacher")], None)
  }

  /**
   * A complete login writes exactly the five teacher keys, with `teacherId`
   * and `teacher_id` holding the same text (the id's rendering) and
   * `teacher` the whole reply; an interrupted one writes only some of them.
   * Nothing else in the store changes.
   */
  lemma TeacherWritesKeys(store: map<string, Stored>, data: JsonObject)
    ensures var (written, complete) := TeacherWrites(store, data);
      && written.Keys == store.Keys + (written.Keys * TeacherKeys)
      && (forall k :: k in store && k !in TeacherKeys ==> k in written && written[k] == store[k])
      && "teacher" in written && written["teacher"] == Json(data)
      && (complete <==> HasValue(Get(data, "teacher_id")) && HasValue(Get(data, "department_id")) && Get(data, "role").Str?)
      && (complete ==>
            && TeacherKeys <= written.Keys
            && written["teacherId"] == written["teacher_id"] == Text(Render(Get(data, "teacher_id")))
            && written["role"] == Text(Get(data, "role").s))
  {
  }

  /**
   * Empty fields stop before any request. A failed request writes nothing
   * and does not navigate. A 2xx reply navigates exactly when all five
   * writes went through, to the HOD dashboard for role "HOD" and to the
   * teacher dashboard for any other role.
   */
  lemma TeacherLoginOutcomes(store: map<string, Stored>, email: string, password: string, reply: Http.Outcome)
    ensures var step := TeacherLoginStep(store, email, password, reply);
      && ((email == "" || password == "") ==> step.store == store && step.requests == [] && step.replaceWith.None?)
      && (email != "" && password != "" && !Http.Ok(reply) ==> step.store == store && step.replaceWith.None?)
      && (step.replaceWith.Some? <==> email != "" && password != "" && Http.Ok(reply) && TeacherWrites(store, reply.body).1)
      && (step.replaceWith.Some? ==>
            && step.replaceWith.value.name == (if Get(reply.body, "role") == Str("HOD") then "HODDashboard" else "TeacherDashboard")
            && TeacherKeys <= step.store.Keys)
  {
  }

  class TeacherLoginScreen {
    var email: string
    var password: string
    var loading: bool

    constructor ()
      ensures email == "" && password == "" && !loading
    {
      email := "";
      password := "";
      loading := false;
    }

    /** `handleLogin`, given the outcome of the login request. */
    method HandleLogin(device: Device, reply: Http.Outcome)
      modifies this, device
      ensures var step := TeacherLoginStep(old(device.store), email, password, reply);
        && device.store == step.store
        && device.alerts == old(device.alerts) + step.alerts
        && device.requests == old(device.requests) + step.requests
        && device.stack == (if step.replaceWith.Some? then Replaced(old(device.stack), step.replaceWith.value)
                            else old(device.stack))
      ensures email == old(email) && password == old(password)
      ensures email != "" && password != "" ==> !loading
      ensures email == "" || password == "" ==> loading == old(loading)
    {
      if email == "" || password == "" {
        device.Show(Alert("Required", Plain(StudentLogin.FillAllFields)));
        return;
      }
      loading := true;
      device.Send(StudentLogin.LoginRequest("teacher"));
      if !Http.Ok(reply) {
        if reply.Responded? {
          device.Show(Alert("Login Failed", JsonOf(reply.body)));
        } else {
          device.Show(CouldNotConnect);
        }
        loading := false;
        return;
      }
      var data := reply.body;
      device.SetItem("teacher", Json(data));
      var id := ToStr(Get(data, "teacher_id"));
      if id.None? {
        device.Show(CouldNotConnect);
        loading := false;
        return;
      }
      device.SetItem("teacherId", Text(id.value));
      device.SetItem("teacher_id", Text(id.value));
      var dept := ToStr(Get(data, "department_id"));
      if dept.None? {
        device.Show(CouldNotConnect);
        loading := false;
        return;
      }
      device.SetItem("department_id", Text(dept.value));
      var role := Get(data, "role");
      if !role.Str? {
        device.Show(CouldNotConnect);
        loading := false;
        return;
      }
      device.SetItem("role", Text(role.s));
      device.Show(Alert("Success", Plain("Login Successful")));
      if role.s == "HOD" {
        device.Replace(Route("HODDashboard", None));
      } else {
        device.Replace(Route("TeacherDashboard", None));
      }
      loading := false;
    }
  }
}
