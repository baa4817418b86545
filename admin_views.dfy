/**
 * `backend/adminpanel/views.py`: the administrator's login, student search,
 * the semester attendance report, promotion of a whole class, editing a
 * student, and resetting a student's password.
 *
 * The function-based views in `backend/core/views.py` named `admin_login`
 * and `admin_semester_attendance` do the same as `AdminLogin` and
 * `SemesterAttendance` below.
 */
module AdminViews {
  import opened Wrappers
  import Seqs
  import Text
  import opened Records
  import Passwords

  // ---------------------------------------------------------------------
  // AdminLoginView
  // ---------------------------------------------------------------------

  datatype LoginReply = InvalidCredentials | NotAdmin | AdminLoggedIn(userId: nat, username: string, isSuperuser: bool)
  {
    function Status(): int {
      match this
      case InvalidCredentials => 401
      case NotAdmin => 403
      case AdminLoggedIn(_, _, _) => 200
    }
  }

  /** Unknown credentials are refused, non-staff users are forbidden, staff users get their id. */
  function AdminLogin(users: seq<User>, username: string, password: string): (r: LoginReply)
    ensures r.InvalidCredentials? <==>
      forall i :: 0 <= i < |users| ==> !(users[i].username == username && users[i].password == password)
    ensures r.AdminLoggedIn? ==> exists u :: (u in users && u.isStaff && u.id == r.userId
      && u.username == username && u.password == password && u.isSuperuser == r.isSuperuser)
    ensures r.NotAdmin? ==> exists u :: (u in users && !u.isStaff && u.username == username && u.password == password)
  {
    match Authenticate(users, username, password)
    case None => InvalidCredentials
    case Some(user) =>
      if !user.isStaff then NotAdmin else AdminLoggedIn(user.id, user.username, user.isSuperuser)
  }

  // ---------------------------------------------------------------------
  // SearchStudentsView
  // ---------------------------------------------------------------------

  /** Case-insensitive containment (`__icontains`). */
  predicate IContains(haystack: string, needle: string) {
    Text.Contains(Text.Lower(haystack), Text.Lower(needle))
  }

  function MatchesQuery(query: string): Student -> bool {
    (s: Student) => IContains(s.name, query) || IContains(s.registerNumber, query)
  }

  const SearchLimit := 20

  /** An empty query finds nothing; otherwise the first 20 students whose name or register number contains it. */
  function SearchStudents(students: seq<Student>, query: string): (r: seq<Student>)
    ensures |r| <= SearchLimit
  {
    if query == "" then []
    else
      var found := Seqs.Filter(students, MatchesQuery(query));
      if |found| <= SearchLimit then found else found[..SearchLimit]
  }

  /**
   * The search returns nothing for an empty query. Otherwise it returns
   * matching students only, in table order: every match when there are at
   * most 20 of them, and otherwise exactly the first 20 matches.
   */
  lemma SearchResults(students: seq<Student>, query: string)
    ensures query == "" ==> SearchStudents(students, query) == []
    ensures forall i :: 0 <= i < |SearchStudents(students, query)| ==>
      SearchStudents(students, query)[i] in students && MatchesQuery(query)(SearchStudents(students, query)[i])
    ensures Seqs.IsSubsequence(SearchStudents(students, query), students)
    ensures query != "" && |Seqs.Filter(students, MatchesQuery(query))| <= SearchLimit ==>
      forall i :: 0 <= i < |students| && MatchesQuery(query)(students[i]) ==> students[i] in SearchStudents(students, query)
    ensures query != "" && |Seqs.Filter(students, MatchesQuery(query))| > SearchLimit ==>
      SearchStudents(students, query) == Seqs.Filter(students, MatchesQuery(query))[..SearchLimit]
  {
    if query == "" {
      Seqs.EmptyIsSubsequence(students);
    } else {
      var found := Seqs.Filter(students, MatchesQuery(query));
      Seqs.FilterMembers(students, MatchesQuery(query));
      Seqs.FilterIsSubsequence(students, MatchesQuery(query));
      if |found| > SearchLimit {
        Seqs.SubsequencePrefix(found, students, SearchLimit);
      }
    }
  }

  // ---------------------------------------------------------------------
  // AdminSemesterAttendanceView
  // ---------------------------------------------------------------------

  /**
   * What `Student.get_monthly_attendance(year, month)` reports. That method
   * is not part of this model: the report takes it as a parameter.
   */
  datatype MonthSummary = MonthSummary(present: nat, total: nat, percentage: real)

  /** One line of the report. */
  datatype SummaryRow = SummaryRow(studentId: nat, name: string, present: nat, total: nat, percentage: real)

  datatype SemesterReport = SemesterReport(totalClasses: nat, students: seq<SummaryRow>, lowAttendance: seq<SummaryRow>)

  function InClass(department: int, semester: int): Student -> bool {
    (s: Student) => s.department == department && s.semester == semester
  }

  function SummaryOf(s: Student, monthly: Student -> MonthSummary): SummaryRow {
    var m := monthly(s);
    SummaryRow(s.id, s.name, m.present, m.total, m.percentage)
  }

  function SummaryRows(students: seq<Student>, monthly: Student -> MonthSummary): (r: seq<SummaryRow>)
    ensures |r| == |students|
  {
    seq(|students|, i requires 0 <= i < |students| => SummaryOf(students[i], monthly))
  }

  /** Sorting key: ascending order of the negated percentage is descending order of the percentage. */
  function Descending(row: SummaryRow): real { -row.percentage }

  /** `sorted(summaries, key=percentage, reverse=True)`. */
  function Rank(rows: seq<SummaryRow>): (r: seq<SummaryRow>)
    ensures |r| == |rows|
  {
    Seqs.SortBy(rows, Descending)
  }

  predicate IsLow(row: SummaryRow) { row.percentage < 75.0 }

  /** `[s for s in ranked if s["percentage"] < 75]`. */
  function LowAttendance(ranked: seq<SummaryRow>): (r: seq<SummaryRow>)
    ensures |r| <= |ranked|
  {
    Seqs.Filter(ranked, IsLow)
  }

  /** The ranking is a permutation of the summaries, in non-increasing order of percentage. */
  lemma RankOrdered(rows: seq<SummaryRow>)
    ensures multiset(Rank(rows)) == multiset(rows)
    ensures forall i, j :: 0 <= i < j < |Rank(rows)| ==> Rank(rows)[i].percentage >= Rank(rows)[j].percentage
  {
    Seqs.SortBySorted(rows, Descending);
  }

  function PercentageIs(v: real): SummaryRow -> bool {
    (row: SummaryRow) => row.percentage == v
  }

  /** The sort is stable: students with equal percentages keep the order the query returned them in. */
  lemma RankStable(rows: seq<SummaryRow>, v: real)
    ensures Seqs.Filter(Rank(rows), PercentageIs(v)) == Seqs.Filter(rows, PercentageIs(v))
  {
    Seqs.SortByStable(rows, Descending, -v);
    Seqs.FilterExt(Rank(rows), PercentageIs(v), Seqs.KeyIs(Descending, -v));
    Seqs.FilterExt(rows, PercentageIs(v), Seqs.KeyIs(Descending, -v));
  }

  /**
   * The low-attendance list is exactly the entries of the ranking below 75%,
   * in ranking order, and they form its tail: everyone listed before them is at 75% or more.
   */
  lemma LowAttendanceIsTail(rows: seq<SummaryRow>)
    ensures LowAttendance(Rank(rows)) == Rank(rows)[|Rank(rows)| - |LowAttendance(Rank(rows))|..]
    ensures forall i :: 0 <= i < |LowAttendance(Rank(rows))| ==> LowAttendance(Rank(rows))[i].percentage < 75.0
    ensures forall i :: 0 <= i < |Rank(rows)| - |LowAttendance(Rank(rows))| ==> Rank(rows)[i].percentage >= 75.0
  {
    var ranked := Rank(rows);
    var low := LowAttendance(ranked);
    Seqs.SortBySorted(rows, Descending);
    Seqs.FilterAboveIsSuffix(ranked, Descending, -75.0, IsLow);
    Seqs.FilterMembers(ranked, IsLow);
  }

  /** Records of students in the class, in the given month. */
  function InClassMonth(students: seq<Student>, department: int, semester: int, year: int, month: int): Attendance -> bool {
    (a: Attendance) =>
      a.date.year == year && a.date.month == month &&
      var k := StudentIndex(students, a.student);
      k.Some? && students[k.value].department == department && students[k.value].semester == semester
  }

  /** A class held: one period on one date. */
  function Session(a: Attendance): (Date, nat) { (a.date, a.period) }

  /** `.values('date', 'period').distinct().count()` over the class's records of the month. */
  function ClassesConducted(students: seq<Student>, attendance: seq<Attendance>,
                            department: int, semester: int, year: int, month: int): nat {
    |Seqs.Image(Seqs.Filter(attendance, InClassMonth(students, department, semester, year, month)), Session)|
  }

  /** No more classes are counted than there are records, and none exactly when there are no records. */
  lemma ClassesConductedBounds(students: seq<Student>, attendance: seq<Attendance>,
                               department: int, semester: int, year: int, month: int)
    ensures ClassesConducted(students, attendance, department, semester, year, month)
         <= |Seqs.Filter(attendance, InClassMonth(students, department, semester, year, month))|
    ensures ClassesConducted(students, attendance, department, semester, year, month) == 0
        <==> Seqs.Filter(attendance, InClassMonth(students, department, semester, year, month)) == []
  {
    Seqs.ImageSize(Seqs.Filter(attendance, InClassMonth(students, department, semester, year, month)), Session);
  }

  /** The report: one summary per student of the class, ranked, and its low-attendance tail. */
  method SemesterAttendance(db: Database, department: int, semester: int, year: int, month: int,
                            monthly: Student -> MonthSummary) returns (report: SemesterReport)
    ensures report.students == Rank(SummaryRows(Seqs.Filter(db.students, InClass(department, semester)), monthly))
    ensures report.lowAttendance == LowAttendance(report.students)
    ensures report.totalClasses == ClassesConducted(db.students, db.attendance, department, semester, year, month)
  {
    var students := Seqs.Filter(db.students, InClass(department, semester));
    var totalClasses := ClassesConducted(db.students, db.attendance, department, semester, year, month);
    var summaries: seq<SummaryRow> := [];
    var i := 0;
    while i < |students|
      invariant 0 <= i <= |students|
      invariant |summaries| == i
      invariant forall k :: 0 <= k < i ==> summaries[k] == SummaryOf(students[k], monthly)
    {
      summaries := summaries + [SummaryOf(students[i], monthly)];
      i := i + 1;
    }
    assert summaries == SummaryRows(students, monthly);
    var ranked := Rank(summaries);
    report := SemesterReport(totalClasses, ranked, LowAttendance(ranked));
  }

  // ---------------------------------------------------------------------
  // PromoteStudentsView
  // ---------------------------------------------------------------------

  datatype PromoteReply = MissingFields | NoStudents | Promoted(count: nat, target: int)
  {
    function Status(): int {
      match this
      case MissingFields => 400
      case NoStudents => 404
      case Promoted(_, _) => 200
    }
  }

  /** Python truthiness of a request field holding a number or nothing. */
  predicate Given(v: Option<int>) { v.Some? && v.value != 0 }

  function PromoteRow(s: Student, department: int, semester: int): Student {
    if InClass(department, semester)(s) then s.(semester := semester + 1) else s
  }

  /** The students table after the class (department, semester) has moved up one semester. */
  function PromoteRows(students: seq<Student>, department: int, semester: int): (r: seq<Student>)
    ensures |r| == |students|
  {
    seq(|students|, i requires 0 <= i < |students| => PromoteRow(students[i], department, semester))
  }

  /** Ids of the class's students, in table order. */
  function ClassIds(students: seq<Student>, department: int, semester: int): seq<nat> {
    if students == [] then []
    else (if InClass(department, semester)(students[0]) then [students[0].id] else [])
         + ClassIds(students[1..], department, semester)
  }

  /** Re-enroll each listed student in `subjects`, one after another. */
  function ReenrollAll(enrollments: seq<Enrollment>, ids: seq<nat>, subjects: seq<Subject>): seq<Enrollment>
    decreases |ids|
  {
    if ids == [] then enrollments else ReenrollAll(Reenroll(enrollments, ids[0], subjects), ids[1..], subjects)
  }

  /**
   * Promotion moves every student of the class to the next semester and
   * changes nothing else about them; other students are untouched; nobody
   * is left in the old class, and the ids of the moved students are the class's ids.
   */
  lemma PromotionMovesClass(students: seq<Student>, department: int, semester: int)
    ensures forall i :: 0 <= i < |students| && InClass(department, semester)(students[i]) ==>
      PromoteRows(students, department, semester)[i] == students[i].(semester := semester + 1)
    ensures forall i :: 0 <= i < |students| && !InClass(department, semester)(students[i]) ==>
      PromoteRows(students, department, semester)[i] == students[i]
    ensures Seqs.Filter(PromoteRows(students, department, semester), InClass(department, semester)) == []
    ensures |ClassIds(students, department, semester)| == |Seqs.Filter(students, InClass(department, semester))|
  {
    var r := PromoteRows(students, department, semester);
    Seqs.FilterNone(r, InClass(department, semester));
    ClassIdsCount(students, department, semester);
  }

  lemma {:induction false} ClassIdsCount(students: seq<Student>, department: int, semester: int)
    ensures |ClassIds(students, department, semester)| == |Seqs.Filter(students, InClass(department, semester))|
    ensures forall x :: x in ClassIds(students, department, semester) <==>
      exists i :: 0 <= i < |students| && students[i].id == x && InClass(department, semester)(students[i])
  {
    if students != [] {
      ClassIdsCount(students[1..], department, semester);
      forall x ensures x in ClassIds(students, department, semester) <==>
        exists i :: 0 <= i < |students| && students[i].id == x && InClass(department, semester)(students[i])
      {
        if exists i :: 0 <= i < |students| && students[i].id == x && InClass(department, semester)(students[i]) {
          var i :| 0 <= i < |students| && students[i].id == x && InClass(department, semester)(students[i]);
          if i > 0 {
            assert students[1..][i - 1] == students[i];
          }
        }
        if x in ClassIds(students[1..], department, semester) {
          var i :| 0 <= i < |students[1..]| && students[1..][i].id == x && InClass(department, semester)(students[1..][i]);
          assert students[i + 1] == students[1..][i];
        }
      }
    }
  }

  /**
   * After promotion each promoted student is enrolled in exactly the subjects
   * of the new semester (the old enrollments are gone); everyone else keeps theirs.
   */
  lemma {:induction false} ReenrollAllSubjects(enrollments: seq<Enrollment>, ids: seq<nat>, subjects: seq<Subject>, x: nat)
    ensures x in ids ==> EnrolledSubjects(ReenrollAll(enrollments, ids, subjects), x) == subjects
    ensures x !in ids ==> EnrolledSubjects(ReenrollAll(enrollments, ids, subjects), x) == EnrolledSubjects(enrollments, x)
    decreases |ids|
  {
    if ids != [] {
      var next := Reenroll(enrollments, ids[0], subjects);
      ReenrollAllSubjects(next, ids[1..], subjects, x);
      ReenrollSubjects(enrollments, ids[0], subjects, x);
    }
  }

  /**
   * The promotion loop: each student of the class moves up one semester and
   * is re-enrolled in the new semester's subjects; the count is the class size.
   */
  method PromoteClass(db: Database, d: int, s: int, newSubjects: seq<Subject>) returns (count: nat)
    modifies db`students, db`enrollments
    ensures count == |ClassIds(old(db.students), d, s)|
    ensures db.students == PromoteRows(old(db.students), d, s)
    ensures db.enrollments == ReenrollAll(old(db.enrollments), ClassIds(old(db.students), d, s), newSubjects)
  {
    ghost var students0, enrollments0 := db.students, db.enrollments;
    count := 0;
    var i := 0;
    while i < |db.students|
      invariant 0 <= i <= |students0| == |db.students|
      invariant forall k :: 0 <= k < i ==> db.students[k] == PromoteRow(students0[k], d, s)
      invariant forall k :: i <= k < |students0| ==> db.students[k] == students0[k]
      invariant ReenrollAll(db.enrollments, ClassIds(students0[i..], d, s), newSubjects)
             == ReenrollAll(enrollments0, ClassIds(students0, d, s), newSubjects)
      invariant count + |ClassIds(students0[i..], d, s)| == |ClassIds(students0, d, s)|
    {
      assert students0[i..][1..] == students0[i + 1..];
      var rest := ClassIds(students0[i + 1..], d, s);
      assert ClassIds(students0[i..], d, s)
          == (if InClass(d, s)(students0[i]) then [students0[i].id] else []) + rest;
      var student := db.students[i];
      if InClass(d, s)(student) {
        db.students := db.students[i := student.(semester := s + 1)];
        assert ReenrollAll(db.enrollments, [student.id] + rest, newSubjects)
            == ReenrollAll(Reenroll(db.enrollments, student.id, newSubjects), rest, newSubjects) by {
          assert ([student.id] + rest)[0] == student.id && ([student.id] + rest)[1..] == rest;
        }
        db.enrollments := Reenroll(db.enrollments, student.id, newSubjects);
        count := count + 1;
      } else {
        assert ClassIds(students0[i..], d, s) == rest;
      }
      i := i + 1;
    }
    assert students0[i..] == [];
    assert db.students == PromoteRows(students0, d, s);
  }

  /** Promotion rewrites semesters only: ids and user links stay where they were. */
  lemma PromoteRowsKeepKeys(students: seq<Student>, department: int, semester: int)
    ensures forall k :: 0 <= k < |students| ==>
      && PromoteRows(students, department, semester)[k].id == students[k].id
      && PromoteRows(students, department, semester)[k].user == students[k].user
  {
  }

  /**
   * The admin promotion: 400 without a department or semester, 404 when the
   * class is empty (both leave every table as it was); otherwise every
   * student of the class moves to the next semester and is re-enrolled in
   * that semester's subjects, and the count is the class size.
   */
  method PromoteStudents(db: Database, department: Option<int>, currentSemester: Option<int>) returns (reply: PromoteReply)
    requires db.Valid()
    modifies db`students, db`enrollments
    ensures db.Valid()
    ensures reply.MissingFields? <==> !Given(department) || !Given(currentSemester)
    ensures !reply.MissingFields? ==>
      (reply.NoStudents? <==> Seqs.Filter(old(db.students), InClass(department.value, currentSemester.value)) == [])
    ensures !reply.Promoted? ==> db.students == old(db.students) && db.enrollments == old(db.enrollments)
    ensures reply.Promoted? ==>
      && reply.target == currentSemester.value + 1
      && reply.count == |Seqs.Filter(old(db.students), InClass(department.value, currentSemester.value))|
      && db.students == PromoteRows(old(db.students), department.value, currentSemester.value)
      && db.enrollments == ReenrollAll(old(db.enrollments), ClassIds(old(db.students), department.value, currentSemester.value),
                                       SubjectsOf(db.subjects, department.value, currentSemester.value + 1))
  {
    if !Given(department) || !Given(currentSemester) {
      return MissingFields;
    }
    var d, s := department.value, currentSemester.value;
    if Seqs.Filter(db.students, InClass(d, s)) == [] {
      return NoStudents;
    }
    var target := s + 1;
    var newSubjects := SubjectsOf(db.subjects, d, target);
    ghost var students0 := db.students;
    ClassIdsCount(students0, d, s);
    var count := PromoteClass(db, d, s, newSubjects);
    PromoteRowsKeepKeys(students0, d, s);
    SameKeysKeepUnique(students0, db.students, StudentId);
    SameLinksKeepLinked(students0, db.students, db.users, db.users);
    reply := Promoted(count, target);
  }

  // ---------------------------------------------------------------------
  // AdminStudentDetailView.put
  // ---------------------------------------------------------------------

  /** The fields a PUT may carry; absent fields keep their stored values. */
  datatype StudentEdit = StudentEdit(name: Option<string>, email: Option<string>, registerNumber: Option<string>,
                                     phone: Option<string>, address: Option<string>,
                                     department: Option<nat>, semester: Option<int>)

  datatype UpdateReply = StudentNotFound | StudentUpdated
  {
    function Status(): int {
      match this
      case StudentNotFound => 404
      case StudentUpdated => 200
    }
  }

  /** The student row after the edit: each given field replaces the stored one. */
  function EditedStudent(s: Student, edit: StudentEdit): Student {
    s.(name := edit.name.GetOr(s.name), email := edit.email.GetOr(s.email),
       registerNumber := edit.registerNumber.GetOr(s.registerNumber),
       phone := edit.phone.GetOr(s.phone), address := edit.address.GetOr(s.address),
       department := edit.department.GetOr(s.department), semester := edit.semester.GetOr(s.semester))
  }

  /** Enrollments after the edit: replaced only when the semester changes. */
  function EditedEnrollments(enrollments: seq<Enrollment>, subjects: seq<Subject>, s: Student, edit: StudentEdit): seq<Enrollment> {
    var after := EditedStudent(s, edit);
    if after.semester != s.semester then Reenroll(enrollments, s.id, SubjectsOf(subjects, after.department, after.semester))
    else enrollments
  }

  /**
   * A changed semester gives the student exactly the subjects of their (possibly
   * new) department in the new semester and leaves other students alone; an
   * unchanged semester leaves all enrollments untouched, even when the
   * department changes.
   */
  lemma EditEnrollmentRule(enrollments: seq<Enrollment>, subjects: seq<Subject>, s: Student, edit: StudentEdit, other: nat)
    ensures edit.semester.GetOr(s.semester) != s.semester ==>
      && EnrolledSubjects(EditedEnrollments(enrollments, subjects, s, edit), s.id)
         == SubjectsOf(subjects, edit.department.GetOr(s.department), edit.semester.GetOr(s.semester))
      && (other != s.id ==> EnrolledSubjects(EditedEnrollments(enrollments, subjects, s, edit), other)
                            == EnrolledSubjects(enrollments, other))
    ensures edit.semester.GetOr(s.semester) == s.semester ==> EditedEnrollments(enrollments, subjects, s, edit) == enrollments
  {
    var after := EditedStudent(s, edit);
    ReenrollSubjects(enrollments, s.id, SubjectsOf(subjects, after.department, after.semester), other);
  }

  /** The linked user's email and username both become `email`. */
  function SyncUser(users: seq<User>, id: nat, email: string): (r: seq<User>)
    ensures |r| == |users|
  {
    seq(|users|, i requires 0 <= i < |users| =>
      if users[i].id == id then users[i].(email := email, username := email) else users[i])
  }

  /** Rewriting one student without touching its id or user link, and users without touching their ids, keeps the tables valid. */
  lemma EditKeepsTables(students: seq<Student>, users: seq<User>, k: nat, after: Student, newUsers: seq<User>)
    requires k < |students| && after.id == students[k].id && after.user == students[k].user
    requires |newUsers| == |users| && forall i :: 0 <= i < |users| ==> newUsers[i].id == users[i].id
    requires Seqs.UniqueBy(students, StudentId) && Seqs.UniqueBy(users, UserId) && UsersLinked(students, users)
    ensures Seqs.UniqueBy(students[k := after], StudentId)
    ensures Seqs.UniqueBy(newUsers, UserId)
    ensures UsersLinked(students[k := after], newUsers)
  {
    SameKeysKeepUnique(students, students[k := after], StudentId);
    SameKeysKeepUnique(users, newUsers, UserId);
    SameLinksKeepLinked(students, students[k := after], users, newUsers);
  }

  /**
   * The edit: 404 for an unknown id; otherwise the row is edited, enrollments
   * follow `EditedEnrollments`, and a linked user takes the student's email
   * as both email and username.
   */
  method UpdateStudent(db: Database, pk: nat, edit: StudentEdit) returns (reply: UpdateReply)
    requires db.Valid()
    modifies db`students, db`enrollments, db`users
    ensures db.Valid()
    ensures reply.StudentNotFound? <==> !Seqs.HasKey(old(db.students), StudentId, pk)
    ensures reply.StudentNotFound? ==>
      db.students == old(db.students) && db.enrollments == old(db.enrollments) && db.users == old(db.users)
    ensures reply.StudentUpdated? ==>
      var k := StudentIndex(old(db.students), pk).value;
      var after := EditedStudent(old(db.students)[k], edit);
      && db.students == old(db.students)[k := after]
      && db.enrollments == EditedEnrollments(old(db.enrollments), db.subjects, old(db.students)[k], edit)
      && db.users == (if after.user.Some? then SyncUser(old(db.users), after.user.value, after.email) else old(db.users))
  {
    var idx := StudentIndex(db.students, pk);
    if idx.None? {
      return StudentNotFound;
    }
    var student := db.students[idx.value];
    var after := EditedStudent(student, edit);
    var students := db.students[idx.value := after];
    var enrollments := db.enrollments;
    if after.semester != student.semester {
      enrollments := Reenroll(enrollments, student.id, SubjectsOf(db.subjects, after.department, after.semester));
    }
    var users := db.users;
    if after.user.Some? {
      users := SyncUser(users, after.user.value, after.email);
    }
    EditKeepsTables(db.students, db.users, idx.value, after, users);
    db.students, db.enrollments, db.users := students, enrollments, users;
    reply := StudentUpdated;
  }

  // ---------------------------------------------------------------------
  // AdminStudentPasswordResetView
  // ---------------------------------------------------------------------

  datatype ResetReply = ResetStudentNotFound | NoLinkedUser | PasswordReset(newPassword: string)
  {
    function Status(): int {
      match this
      case ResetStudentNotFound => 404
      case NoLinkedUser => 400
      case PasswordReset(_) => 200
    }
  }

  /** The users table with the password of user `id` set. */
  function WithPassword(users: seq<User>, id: nat, password: string): (r: seq<User>)
    ensures |r| == |users|
  {
    seq(|users|, i requires 0 <= i < |users| => if users[i].id == id then users[i].(password := password) else users[i])
  }

  /** After a password is set, that user can log in with it; every other user is untouched. */
  lemma NewPasswordWorks(users: seq<User>, id: nat, password: string)
    requires Seqs.HasKey(users, UserId, id)
    ensures exists i :: (0 <= i < |users| && users[i].id == id
      && Authenticate(WithPassword(users, id, password), users[i].username, password).Some?)
    ensures forall i :: 0 <= i < |users| && users[i].id != id ==> WithPassword(users, id, password)[i] == users[i]
  {
    var i :| 0 <= i < |users| && UserId(users[i]) == id;
    var after := WithPassword(users, id, password);
    assert after[i].username == users[i].username && after[i].password == password;
  }

  /** Setting a password changes no user id, so the users stay unique and every link still resolves. */
  lemma WithPasswordKeepsTables(students: seq<Student>, users: seq<User>, id: nat, password: string)
    requires Seqs.UniqueBy(users, UserId) && UsersLinked(students, users)
    ensures Seqs.UniqueBy(WithPassword(users, id, password), UserId)
    ensures UsersLinked(students, WithPassword(users, id, password))
  {
    var after := WithPassword(users, id, password);
    assert forall k :: 0 <= k < |users| ==> after[k].id == users[k].id;
    SameKeysKeepUnique(users, after, UserId);
    SameLinksKeepLinked(students, students, users, after);
  }

  /** 404 for an unknown student, 400 without a linked user, otherwise the default password is set and returned. */
  method ResetStudentPassword(db: Database, pk: nat) returns (reply: ResetReply)
    requires db.Valid()
    modifies db`users
    ensures db.Valid()
    ensures reply.ResetStudentNotFound? <==> !Seqs.HasKey(db.students, StudentId, pk)
    ensures reply.NoLinkedUser? <==>
      Seqs.HasKey(db.students, StudentId, pk) && db.students[StudentIndex(db.students, pk).value].user.None?
    ensures !reply.PasswordReset? ==> db.users == old(db.users)
    ensures reply.PasswordReset? ==>
      var s := db.students[StudentIndex(db.students, pk).value];
      && s.user.Some?
      && reply.newPassword == Passwords.StudentPassword(s.name, s.dob)
      && db.users == WithPassword(old(db.users), s.user.value, reply.newPassword)
  {
    var idx := StudentIndex(db.students, pk);
    if idx.None? {
      return ResetStudentNotFound;
    }
    var student := db.students[idx.value];
    if student.user.None? {
      return NoLinkedUser;
    }
    var newPassword := Passwords.StudentPassword(student.name, student.dob);
    db.users := WithPassword(db.users, student.user.value, newPassword);
    WithPasswordKeepsTables(db.students, old(db.users), student.user.value, newPassword);
    reply := PasswordReset(newPassword);
  }
}
