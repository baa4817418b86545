/**
 * `handleLogin` of the student login screen
 * (`mobile/PCASConnect/src/screens/StudentLoginScreen.js`): field check,
 * the login request, the message check, the "student" store write and the
 * move to the dashboard.
 */
module StudentLogin {
  import opened Wrappers
  import opened Js
  import Http
  import opened Session
  import StudentViews

  /** `loginUser` in `api/auth.js` posts to its own host. */
  const AuthBaseUrl := "http://10.121.154.1:8000"

  function LoginRequest(role: string): Request {
    Request("POST", AuthBaseUrl + "/api/" + role + "/login/")
  }

  const FillAllFields := "Please fill in all fields"

  /** What `handleLogin` does for the typed fields and the request's outcome. */
  function StudentLoginStep(store: map<string, Stored>, email: string, password: string, reply: Http.Outcome): Step {
    if email == "" || password == "" then
      Step(store, [Alert("Error", Plain(FillAllFields))], [], None)
    else if Http.Ok(reply) then
      var message := Get(reply.body, "message");
      if message != Str(StudentViews.LoginSuccessful) then
        Step(store, [Alert("Login Failed", Plain(if Truthy(message) then Render(message) else "Unknown error"))],
             [LoginRequest("student")], None)
      else
        Step(store["student" := Json(reply.body)], [], [LoginRequest("student")],
             Some(Route("StudentDashboard", Some(reply.body))))
    else if reply.Responded? then
      Step(store, [Alert("Login Failed", JsonOf(reply.body))], [LoginRequest("student")], None)
    else
      Step(store, [Alert("Login Failed", Plain("Network error or server is down."))], [LoginRequest("student")], None)
  }

  /**
   * Empty fields stop before any request; the store changes only on a 2xx
   * reply carrying "Login successful", and then only "student", which holds
   * the whole reply; exactly then the screen moves to the dashboard with the
   * reply as `userData`. Every other path shows one "Login Failed" alert.
   */
  lemma StudentLoginOutcomes(store: map<string, Stored>, email: string, password: string, reply: Http.Outcome)
    ensures var step := StudentLoginStep(store, email, password, reply);
      && ((email == "" || password == "") ==>
            step == Step(store, [Alert("Error", Plain(FillAllFields))], [], None))
      && (email != "" && password != "" ==> step.requests == [LoginRequest("student")])
      && (var success := email != "" && password != "" && Http.Ok(reply)
                         && Get(reply.body, "message") == Str(StudentViews.LoginSuccessful);
          && (step.replaceWith.Some? <==> success)
          && (success ==> step.store == store["student" := Json(reply.body)]
                          && step.replaceWith == Some(Route("StudentDashboard", Some(reply.body))))
          && (!success ==> step.store == store)
          && (!success && email != "" && password != "" ==>
                |step.alerts| == 1 && step.alerts[0].title == "Login Failed"))
  {
  }

  /**
   * Against the student login view: the dashboard is reached exactly for a
   * logged-in student, and a refused login shows the view's error body.
   */
  lemma StudentLoginAgainstView(store: map<string, Stored>, email: string, password: string,
                                reply: StudentViews.StudentLoginReply)
    requires email != "" && password != ""
    ensures var step := StudentLoginStep(store, email, password, Http.Responded(reply.Status(), reply.Body()));
      && (step.replaceWith.Some? <==> reply.StudentLoggedIn?)
      && (!reply.StudentLoggedIn? ==> step.alerts == [Alert("Login Failed", JsonOf(reply.Body()))])
  {
    StudentViews.LoginBodyMessage(reply);
  }

  class StudentLoginScreen {
    var email: string
    var password: string
    var loading: bool

    constructor ()
      ensures email == "" && password == "" && !loading
    {
      email := "";
      password := "";
      loading := false;
    }

    /** `handleLogin`, given the outcome of the login request. */
    method HandleLogin(device: Device, reply: Http.Outcome)
      modifies this, device
      ensures var step := StudentLoginStep(old(device.store), email, password, reply);
        && device.store == step.store
        && device.alerts == old(device.alerts) + step.alerts
        && device.requests == old(device.requests) + step.requests
        && device.stack == (if step.replaceWith.Some? then Replaced(old(device.stack), step.replaceWith.value)
                            else old(device.stack))
      ensures email == old(email) && password == old(password)
      ensures email != "" && password != "" ==> !loading
      ensures email == "" || password == "" ==> loading == old(loading)
    {
      if email == "" || password == "" {
        device.Show(Alert("Error", Plain(FillAllFields)));
        return;
      }
      loading := true;
      device.Send(LoginRequest("student"));
      if Http.Ok(reply) {
        var data := reply.body;
        var message := Get(data, "message");
        if message != Str(StudentViews.LoginSuccessful) {
          device.Show(Alert("Login Failed", Plain(if Truthy(message) then Render(message) else "Unknown error")));
          loading := false;
        } else {
          device.SetItem("student", Json(data));
          device.Replace(Route("StudentDashboard", Some(data)));
        }
      } else if reply.Responded? {
        device.Show(Alert("Login Failed", JsonOf(reply.body)));
      } else {
        device.Show(Alert("Login Failed", Plain("Network error or server is down.")));
      }
      loading := false;
    }
  }
}
