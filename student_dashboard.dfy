/**
 * The student dashboard's session handling
 * (`mobile/PCASConnect/src/screens/StudentDashboardScreen.js`): which
 * student id it uses, the order of its requests and what it keeps from
 * them, pull-to-refresh, and logout. The current year and month are
 * parameters; the two attendance requests, which the source starts
 * together, are taken in order.
 */
module StudentDashboard {
  import opened Wrappers
  import opened Js
  import Http
  import opened Session
  import StudentLogin
  import StudentViews

  /** `BASE_URL` of `api/studentApi.js`. */
  const StudentApiBase := "http://10.219.6.134:8000"

  function ProfileRequest(id: JsVal): Request {
    Request("GET", StudentApiBase + "/api/student/" + Render(id) + "/dashboard/")
  }

  function TodayRequest(id: JsVal): Request {
    Request("GET", StudentApiBase + "/api/student/" + Render(id) + "/attendance/today/")
  }

  function MonthRequest(id: JsVal, year: int, month: int): Request {
    Request("GET", StudentApiBase + "/api/student/" + Render(id) + "/attendance/monthly/"
                   + Render(Num(year)) + "/" + Render(Num(month)) + "/")
  }

  /** The student id `loadUserData` settles on, or why it has none. */
  datatype Resolution = Resolved(id: JsVal) | NoSession | StorageError

  /**
   * `loadUserData`'s choice: the route's `userData.student_id` when truthy,
   * else the `student_id` of the stored "student" object. A stored plain
   * string cannot be parsed back into an object here, so it lands in the
   * catch (`StorageError`).
   */
  function ResolveStudentId(userData: Option<JsonObject>, stored: Option<Stored>): Resolution {
    var fromRoute := if userData.Some? then Get(userData.value, "student_id") else Undefined;
    if Truthy(fromRoute) then Resolved(fromRoute)
    else match stored
      case None => NoSession
      case Some(Json(obj)) => if Truthy(Get(obj, "student_id")) then Resolved(Get(obj, "student_id")) else NoSession
      case Some(Text(s)) => if s == "" then NoSession else StorageError
  }

  /**
   * A truthy route id wins whatever is stored; without one the stored
   * object's id is used; the resolved id is always truthy.
   */
  lemma RouteIdTakesPrecedence(userData: Option<JsonObject>, stored: Option<Stored>)
    ensures ResolveStudentId(userData, stored).Resolved? ==> Truthy(ResolveStudentId(userData, stored).id)
    ensures userData.Some? && Truthy(Get(userData.value, "student_id")) ==>
      ResolveStudentId(userData, stored) == Resolved(Get(userData.value, "student_id"))
    ensures (userData.None? || !Truthy(Get(userData.value, "student_id"))) && stored.Some? && stored.value.Json?
            && Truthy(Get(stored.value.obj, "student_id")) ==>
      ResolveStudentId(userData, stored) == Resolved(Get(stored.value.obj, "student_id"))
    ensures (userData.None? || !Truthy(Get(userData.value, "student_id"))) && stored.None? ==>
      ResolveStudentId(userData, stored) == NoSession
  {
  }

  /**
   * After a successful student login (id non-zero), the dashboard resolves
   * the logged-in student's id both from the route it was opened with and,
   * on a later start without route parameters, from the store alone.
   */
  lemma LoginThenDashboard(store: map<string, Stored>, email: string, password: string,
                           reply: StudentViews.StudentLoginReply)
    requires email != "" && password != ""
    requires reply.StudentLoggedIn? && reply.studentId != 0
    ensures var step := StudentLogin.StudentLoginStep(store, email, password, Http.Responded(reply.Status(), reply.Body()));
      && step.replaceWith.Some? && "student" in step.store
      && ResolveStudentId(step.replaceWith.value.userData, Some(step.store["student"])) == Resolved(Num(reply.studentId))
      && ResolveStudentId(None, Some(step.store["student"])) == Resolved(Num(reply.studentId))
  {
    StudentViews.LoginBodyMessage(reply);
  }

  /** The requests `fetchAllData` sends: the profile first, and the two attendance requests only after it succeeded. */
  function FetchRequests(id: JsVal, profileReply: Http.Outcome, year: int, month: int): (r: seq<Request>)
    ensures |r| == if Http.Ok(profileReply) then 3 else 1
    ensures r[0] == ProfileRequest(id)
  {
    [ProfileRequest(id)] + (if Http.Ok(profileReply) then [TodayRequest(id), MonthRequest(id, year, month)] else [])
  }

  class StudentDashboardScreen {
    /** `route.params?.userData`. */
    const userData: Option<JsonObject>
    var loading: bool
    var refreshing: bool
    var studentId: JsVal
    var profile: Option<JsonObject>
    var todayData: Option<JsonObject>
    var monthData: Option<JsonObject>

    constructor (userData: Option<JsonObject>)
      ensures this.userData == userData
      ensures loading && !refreshing && studentId == Null
      ensures profile.None? && todayData.None? && monthData.None?
    {
      this.userData := userData;
      loading := true;
      refreshing := false;
      studentId := Null;
      profile := None;
      todayData := None;
      monthData := None;
    }

    /**
     * `fetchAllData`: profile, then today's and the month's attendance; the
     * attendance is kept only when both of those requests succeed. Both
     * spinners are off afterwards.
     */
    method FetchAllData(device: Device, id: JsVal, profileReply: Http.Outcome, todayReply: Http.Outcome,
                        monthReply: Http.Outcome, year: int, month: int)
      modifies this, device
      ensures device.requests == old(device.requests) + FetchRequests(id, profileReply, year, month)
      ensures device.store == old(device.store) && device.stack == old(device.stack) && device.alerts == old(device.alerts)
      ensures profile == if Http.Ok(profileReply) then Some(profileReply.body) else old(profile)
      ensures Http.Ok(profileReply) && Http.Ok(todayReply) && Http.Ok(monthReply) ==>
        todayData == Some(todayReply.body) && monthData == Some(monthReply.body)
      ensures !(Http.Ok(profileReply) && Http.Ok(todayReply) && Http.Ok(monthReply)) ==>
        todayData == old(todayData) && monthData == old(monthData)
      ensures !loading && !refreshing
      ensures studentId == old(studentId)
    {
      if !refreshing {
        loading := true;
      }
      device.Send(ProfileRequest(id));
      if Http.Ok(profileReply) {
        profile := Some(profileReply.body);
        device.Send(TodayRequest(id));
        device.Send(MonthRequest(id, year, month));
        if Http.Ok(todayReply) && Http.Ok(monthReply) {
          todayData := Some(todayReply.body);
          monthData := Some(monthReply.body);
        }
      }
      loading := false;
      refreshing := false;
    }

    /**
     * `loadUserData`: with an id, remember it and fetch; with none, alert and
     * go back to the login screen without any request; a storage error does
     * nothing.
     */
    method LoadUserData(device: Device, profileReply: Http.Outcome, todayReply: Http.Outcome,
                        monthReply: Http.Outcome, year: int, month: int)
      modifies this, device
      ensures device.store == old(device.store)
      ensures var r := ResolveStudentId(userData, if "student" in old(device.store) then Some(old(device.store)["student"]) else None);
        && (r.Resolved? ==>
              && studentId == r.id
              && device.requests == old(device.requests) + FetchRequests(r.id, profileReply, year, month)
              && device.stack == old(device.stack) && device.alerts == old(device.alerts)
              && profile == (if Http.Ok(profileReply) then Some(profileReply.body) else old(profile))
              && (if Http.Ok(profileReply) && Http.Ok(todayReply) && Http.Ok(monthReply)
                  then todayData == Some(todayReply.body) && monthData == Some(monthReply.body)
                  else todayData == old(todayData) && monthData == old(monthData))
              && !loading && !refreshing)
        && (r.NoSession? ==>
              && device.requests == old(device.requests)
              && device.alerts == old(device.alerts) + [Alert("Session Error: Please login again.", Plain(""))]
              && device.stack == Replaced(old(device.stack), Route("StudentLogin", None))
              && profile == old(profile) && todayData == old(todayData) && monthData == old(monthData)
              && studentId == old(studentId) && loading == old(loading) && refreshing == old(refreshing))
        && (r.StorageError? ==>
              && device.requests == old(device.requests) && device.alerts == old(device.alerts)
              && device.stack == old(device.stack) && profile == old(profile)
              && todayData == old(todayData) && monthData == old(monthData)
              && studentId == old(studentId) && loading == old(loading) && refreshing == old(refreshing))
    {
      var stored := if "student" in device.store then Some(device.store["student"]) else None;
      var r := ResolveStudentId(userData, stored);
      match r
      case Resolved(id) =>
        studentId := id;
        FetchAllData(device, id, profileReply, todayReply, monthReply, year, month);
      case NoSession =>
        device.Show(Alert("Session Error: Please login again.", Plain("")));
        device.Replace(Route("StudentLogin", None));
      case StorageError =>
    }

    /**
     * `onRefresh`: fetch again for the remembered id. Without one nothing is
     * fetched and the refresh spinner stays on.
     */
    method OnRefresh(device: Device, profileReply: Http.Outcome, todayReply: Http.Outcome,
                     monthReply: Http.Outcome, year: int, month: int)
      modifies this, device
      ensures device.store == old(device.store) && device.stack == old(device.stack) && device.alerts == old(device.alerts)
      ensures Truthy(studentId) ==>
        && device.requests == old(device.requests) + FetchRequests(studentId, profileReply, year, month)
        && profile == (if Http.Ok(profileReply) then Some(profileReply.body) else old(profile))
        && (if Http.Ok(profileReply) && Http.Ok(todayReply) && Http.Ok(monthReply)
            then todayData == Some(todayReply.body) && monthData == Some(monthReply.body)
            else todayData == old(todayData) && monthData == old(monthData))
        && !loading && !refreshing
      ensures !Truthy(studentId) ==>
        && device.requests == old(device.requests) && refreshing && loading == old(loading)
        && profile == old(profile) && todayData == old(todayData) && monthData == old(monthData)
      ensures studentId == old(studentId)
    {
      refreshing := true;
      if Truthy(studentId) {
        FetchAllData(device, studentId, profileReply, todayReply, monthReply, year, month);
      }
    }

    /** `handleLogout`: the whole store is cleared and the app restarts at role selection. */
    method HandleLogout(device: Device)
      modifies device
      ensures device.store == map[]
      ensures device.stack == [Route("RoleSelect", None)]
      ensures device.alerts == old(device.alerts) && device.requests == old(device.requests)
    {
      device.Clear();
      device.Reset(Route("RoleSelect", None));
    }
  }
}
