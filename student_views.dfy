/**
 * The student endpoints of `backend/student/views.py`: login, the
 * dashboard, today's and the monthly attendance, and the weekly timetable.
 * The function-based views `student_dashboard` and `student_timetable` in
 * `backend/core/views.py` do the same and are covered by the same members.
 */
module StudentViews {
  import opened Wrappers
  import Seqs
  import opened Records
  import Models
  import Js

  // ---------------------------------------------------------------------
  // StudentLoginView
  // ---------------------------------------------------------------------

  const LoginSuccessful := "Login successful"

  datatype StudentLoginReply =
    | StudentInvalidCredentials
    | NotAStudent
    | StudentLoggedIn(studentId: nat, name: string, email: string, semester: int)
  {
    function Status(): int {
      match this
      case StudentInvalidCredentials => 401
      case NotAStudent => 400
      case StudentLoggedIn(_, _, _, _) => 200
    }

    /** The reply body as the client receives it. */
    function Body(): Js.JsonObject {
      match this
      case StudentInvalidCredentials => map["error" := Js.Str("Invalid email or password")]
      case NotAStudent => map["error" := Js.Str("Not a student account")]
      case StudentLoggedIn(id, name, email, semester) =>
        map["message" := Js.Str(LoginSuccessful), "student_id" := Js.Num(id), "name" := Js.Str(name),
            "email" := Js.Str(email), "semester" := Js.Num(semester)]
    }
  }

  /** `Student.objects.get(email=email)`: the first student with that email. */
  function StudentByEmail(students: seq<Student>, email: string): (r: Option<Student>)
    ensures r.Some? ==> r.value in students && r.value.email == email
    ensures r.None? <==> forall i :: 0 <= i < |students| ==> students[i].email != email
  {
    if students == [] then None
    else if students[0].email == email then Some(students[0])
    else
      var r := StudentByEmail(students[1..], email);
      assert forall i :: 1 <= i < |students| ==> students[i] == students[1..][i - 1];
      r
  }

  /**
   * The login: 401 when no user has that username and password, 400 when
   * no student has the email, otherwise the student's id and details.
   */
  function StudentLogin(users: seq<User>, students: seq<Student>, email: string, password: string): (r: StudentLoginReply)
    ensures r.StudentInvalidCredentials? <==> Authenticate(users, email, password).None?
    ensures r.NotAStudent? <==>
      (Authenticate(users, email, password).Some? && forall i :: 0 <= i < |students| ==> students[i].email != email)
    ensures r.StudentLoggedIn? ==>
      (exists i :: 0 <= i < |students| && students[i].id == r.studentId && students[i].email == email)
  {
    if Authenticate(users, email, password).None? then StudentInvalidCredentials
    else match StudentByEmail(students, email)
      case None => NotAStudent
      case Some(s) =>
        var i :| 0 <= i < |students| && students[i] == s;
        StudentLoggedIn(s.id, s.name, s.email, s.semester)
  }

  /** Exactly the successful replies carry the message the client checks for, and a numeric id. */
  lemma LoginBodyMessage(reply: StudentLoginReply)
    ensures (Js.Get(reply.Body(), "message") == Js.Str(LoginSuccessful)) <==> reply.StudentLoggedIn?
    ensures reply.StudentLoggedIn? ==> Js.Get(reply.Body(), "student_id") == Js.Num(reply.studentId)
  {
  }

  // ---------------------------------------------------------------------
  // StudentDashboardView
  // ---------------------------------------------------------------------

  datatype SubjectEntry = SubjectEntry(subjectId: nat, name: string, code: string, credit: int, percentage: real)

  datatype DashboardReply =
    | DashboardStudentNotFound
    | Dashboard(name: string, semester: int, totalCredits: int, average: real, subjects: seq<SubjectEntry>)

  /** The dashboard line for one enrolled subject. */
  function EntryFor(attendance: seq<Attendance>, student: nat, s: Subject): (r: SubjectEntry)
    ensures r.subjectId == s.id && r.name == s.name && r.code == s.code && r.credit == s.credit
    ensures 0.0 <= r.percentage <= 100.0
    ensures r.percentage == Models.AttendancePercentage(attendance, student, s.id)
  {
    SubjectEntry(s.id, s.name, s.code, s.credit, Models.AttendancePercentage(attendance, student, s.id))
  }

  function SumPercentages(entries: seq<SubjectEntry>): real {
    if entries == [] then 0.0 else entries[0].percentage + SumPercentages(entries[1..])
  }

  lemma {:induction false} SumPercentagesBounds(entries: seq<SubjectEntry>)
    requires forall i :: 0 <= i < |entries| ==> 0.0 <= entries[i].percentage <= 100.0
    ensures 0.0 <= SumPercentages(entries) <= 100.0 * (|entries| as real)
  {
    if entries != [] {
      SumPercentagesBounds(entries[1..]);
    }
  }

  /** `sum(percentages) / len(percentages) if percentages else 0`. */
  function Average(entries: seq<SubjectEntry>): (r: real)
    requires forall i :: 0 <= i < |entries| ==> 0.0 <= entries[i].percentage <= 100.0
    ensures entries == [] ==> r == 0.0
    ensures entries != [] ==> r * (|entries| as real) == SumPercentages(entries)
    ensures 0.0 <= r <= 100.0
  {
    SumPercentagesBounds(entries);
    if entries == [] then 0.0 else SumPercentages(entries) / (|entries| as real)
  }

  /**
   * The dashboard: 404 for an unknown id; otherwise the student's name and
   * semester, and one line per enrollment of the student, in enrollment
   * order, with that subject's id, name, code, credit and attendance
   * percentage, the student's total credits, and the mean of the
   * percentages (0 without enrollments).
   */
  method StudentDashboard(db: Database, student: nat) returns (reply: DashboardReply)
    requires db.Valid()
    ensures reply.DashboardStudentNotFound? <==> !Seqs.HasKey(db.students, StudentId, student)
    ensures reply.Dashboard? ==>
      var enrolled := EnrolledSubjects(db.enrollments, student);
      && (exists k :: 0 <= k < |db.students| && db.students[k].id == student
            && reply.name == db.students[k].name && reply.semester == db.students[k].semester)
      && |reply.subjects| == |enrolled|
      && (forall i :: 0 <= i < |enrolled| ==>
            reply.subjects[i].subjectId == enrolled[i].id && reply.subjects[i].credit == enrolled[i].credit
            && reply.subjects[i].name == enrolled[i].name && reply.subjects[i].code == enrolled[i].code
            && reply.subjects[i].percentage == Models.AttendancePercentage(db.attendance, student, enrolled[i].id))
      && reply.totalCredits == Models.TotalCredits(db.enrollments, student)
      && reply.average == Average(reply.subjects)
  {
    var index := StudentIndex(db.students, student);
    if index.None? {
      return DashboardStudentNotFound;
    }
    var s := db.students[index.value];
    var enrolled := EnrolledSubjects(db.enrollments, student);
    var entries: seq<SubjectEntry> := [];
    for i := 0 to |enrolled|
      invariant |entries| == i
      invariant forall k :: 0 <= k < i ==> entries[k] == EntryFor(db.attendance, student, enrolled[k])
    {
      entries := entries + [EntryFor(db.attendance, student, enrolled[i])];
    }
    reply := Dashboard(s.name, s.semester, Models.TotalCredits(db.enrollments, student), Average(entries), entries);
  }

  // ---------------------------------------------------------------------
  // StudentAttendanceTodayView and StudentAttendanceMonthlyView
  // ---------------------------------------------------------------------

  datatype Lookup<T> = LookupStudentNotFound | LookupFound(data: T)

  /**
   * Both views answer 404 for an unknown id and otherwise pass on what the
   * student model reports (`get_today_attendance`, `get_monthly_attendance`,
   * which are not part of this model and arrive as `data`).
   */
  function ForStudent<T>(students: seq<Student>, student: nat, data: T): (r: Lookup<T>)
    ensures r.LookupStudentNotFound? <==> !Seqs.HasKey(students, StudentId, student)
    ensures r.LookupFound? ==> r.data == data
  {
    if StudentIndex(students, student).None? then LookupStudentNotFound else LookupFound(data)
  }

  // ---------------------------------------------------------------------
  // StudentTimeTableView
  // ---------------------------------------------------------------------

  const Weekdays: set<string> := {"MON", "TUE", "WED", "THU", "FRI", "SAT"}

  datatype TimetableReply = TimetableStudentNotFound | Week(days: map<string, seq<Slot>>)

  function ForClass(department: nat, semester: int): Slot -> bool {
    (s: Slot) => s.department == department && s.semester == semester
  }

  /** The number of a period id; a slot always refers to an existing period, so the fallback is never used. */
  function PeriodNumber(periods: seq<Period>, id: nat): int {
    if periods == [] then 0 else if periods[0].id == id then periods[0].number else PeriodNumber(periods[1..], id)
  }

  function ByPeriod(periods: seq<Period>): Slot -> real {
    (s: Slot) => PeriodNumber(periods, s.period) as real
  }

  function OnDay(day: string): Slot -> bool {
    (s: Slot) => s.day == day
  }

  /** The class's slots ordered by period number (rows with the same number keep table order). */
  function ClassSlots(timetable: seq<Slot>, periods: seq<Period>, department: nat, semester: int): seq<Slot> {
    Seqs.SortBy(Seqs.Filter(timetable, ForClass(department, semester)), ByPeriod(periods))
  }

  /** Grouping appends each entry to its day's list, and ignores an entry for any other day. */
  /** One step of the grouping loop: the entry joins the list of its own day only. */
  lemma GroupStep(days: map<string, seq<Slot>>, done: seq<Slot>, entry: Slot)
    requires days.Keys == Weekdays
    requires forall d :: d in Weekdays ==> days[d] == Seqs.Filter(done, OnDay(d))
    ensures var next := if entry.day in days then days[entry.day := days[entry.day] + [entry]] else days;
      && next.Keys == Weekdays
      && forall d :: d in Weekdays ==> next[d] == Seqs.Filter(done + [entry], OnDay(d))
  {
    forall d | d in Weekdays
      ensures Seqs.Filter(done + [entry], OnDay(d)) == days[d] + (if entry.day == d then [entry] else [])
    {
      Seqs.FilterConcat(done, [entry], OnDay(d));
      Seqs.FilterOne(entry, OnDay(d));
    }
  }

  method GroupByDay(entries: seq<Slot>) returns (days: map<string, seq<Slot>>)
    ensures days.Keys == Weekdays
    ensures forall d :: d in Weekdays ==> days[d] == Seqs.Filter(entries, OnDay(d))
  {
    days := map["MON" := [], "TUE" := [], "WED" := [], "THU" := [], "FRI" := [], "SAT" := []];
    for i := 0 to |entries|
      invariant days.Keys == Weekdays
      invariant forall d :: d in Weekdays ==> days[d] == Seqs.Filter(entries[..i], OnDay(d))
    {
      var entry := entries[i];
      GroupStep(days, entries[..i], entry);
      if entry.day in days {
        days := days[entry.day := days[entry.day] + [entry]];
      }
      assert entries[..i + 1] == entries[..i] + [entry];
    }
    assert entries[..|entries|] == entries;
  }

  /**
   * The timetable: 404 for an unknown id; otherwise the class's slots,
   * ordered by period number, grouped under exactly the six weekday keys.
   */
  method StudentTimetable(db: Database, student: nat) returns (reply: TimetableReply)
    requires db.Valid()
    ensures reply.TimetableStudentNotFound? <==> !Seqs.HasKey(db.students, StudentId, student)
    ensures reply.Week? ==>
      exists i :: 0 <= i < |db.students| && db.students[i].id == student
        && reply.days.Keys == Weekdays
        && forall d :: d in Weekdays ==>
             reply.days[d] == Seqs.Filter(ClassSlots(db.timetable, db.periods, db.students[i].department,
                                                     db.students[i].semester), OnDay(d))
  {
    var index := StudentIndex(db.students, student);
    if index.None? {
      return TimetableStudentNotFound;
    }
    var s := db.students[index.value];
    var ordered := ClassSlots(db.timetable, db.periods, s.department, s.semester);
    var days := GroupByDay(ordered);
    reply := Week(days);
  }

  /**
   * What the grouping promises: each day's list holds only that day's slots
   * of the class, ordered by period number; every class slot on a weekday is
   * listed under its own day, and slots with any other day appear nowhere.
   */
  lemma WeekFacts(timetable: seq<Slot>, periods: seq<Period>, department: nat, semester: int, d: string)
    requires d in Weekdays
    ensures var ordered := ClassSlots(timetable, periods, department, semester);
      var list := Seqs.Filter(ordered, OnDay(d));
      && Seqs.SortedBy(list, ByPeriod(periods))
      && (forall x :: x in list <==> x in timetable && ForClass(department, semester)(x) && x.day == d)
  {
    var mine := Seqs.Filter(timetable, ForClass(department, semester));
    var ordered := ClassSlots(timetable, periods, department, semester);
    Seqs.SortBySorted(mine, ByPeriod(periods));
    Seqs.FilterKeepsSorted(ordered, OnDay(d), ByPeriod(periods));
    Seqs.FilterMembers(timetable, ForClass(department, semester));
    Seqs.FilterMembers(ordered, OnDay(d));
    assert forall x :: x in ordered <==> x in mine by {
      forall x ensures x in ordered <==> x in mine {
        assert x in ordered <==> x in multiset(ordered);
        assert x in mine <==> x in multiset(mine);
      }
    }
  }

  /** A slot whose day is not a weekday key is in no list. */
  lemma OtherDaysDropped(entries: seq<Slot>, x: Slot)
    requires x.day !in Weekdays
    ensures forall d :: d in Weekdays ==> x !in Seqs.Filter(entries, OnDay(d))
  {
    forall d | d in Weekdays ensures x !in Seqs.Filter(entries, OnDay(d)) {
      Seqs.FilterMembers(entries, OnDay(d));
    }
  }
}
