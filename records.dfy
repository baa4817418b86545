/**
 * The backend's tables, as the views use them: each table is a sequence of
 * rows held by one `Database` object that the views update in place.
 * Foreign keys are row ids (`nat`); a department is known only by its id.
 * An enrollment carries the subject row it links to, so that a student's
 * subjects can be read off the enrollment table directly.
 */
module Records {
  import opened Wrappers
  import Seqs

  datatype Date = Date(year: int, month: int, day: int)

  /** `django.contrib.auth` user: only the fields the views read or write. */
  datatype User = User(id: nat, username: string, email: string, password: string,
                       isStaff: bool, isSuperuser: bool)

  datatype Student = Student(id: nat, name: string, registerNumber: string, email: string,
                             phone: string, address: string, department: nat, semester: int,
                             dob: Option<Date>, user: Option<nat>)

  datatype Teacher = Teacher(id: nat, name: string, email: string, department: nat,
                             isHod: bool, user: Option<nat>)

  datatype Subject = Subject(id: nat, name: string, code: string, semester: int,
                             credit: int, department: nat)

  datatype Enrollment = Enrollment(student: nat, subject: Subject)

  /** One attendance mark: a student, in one subject, in one period of one day. */
  datatype Attendance = Attendance(student: nat, subject: nat, period: nat, teacher: nat,
                                   date: Date, status: string)

  datatype Period = Period(id: nat, number: int)

  /** One timetable slot: who teaches what in one period of one weekday, for one class. */
  datatype Slot = Slot(id: nat, department: nat, semester: int, day: string, period: nat,
                       subject: nat, teacher: nat)

  /** The identity of an attendance record as the marking views check it. */
  datatype MarkKey = MarkKey(student: nat, subject: nat, period: nat, date: Date)

  /** The identity of a timetable slot as the upsert looks it up. */
  datatype SlotKey = SlotKey(department: nat, semester: int, day: string, period: nat)

  function StudentId(s: Student): nat { s.id }
  function UserId(u: User): nat { u.id }
  function Username(u: User): string { u.username }
  function TeacherId(t: Teacher): nat { t.id }
  function SubjectId(s: Subject): nat { s.id }
  function SlotId(s: Slot): nat { s.id }
  function KeyOf(a: Attendance): MarkKey { MarkKey(a.student, a.subject, a.period, a.date) }
  function SlotKeyOf(s: Slot): SlotKey { SlotKey(s.department, s.semester, s.day, s.period) }
  function EnrollmentKey(e: Enrollment): (nat, nat) { (e.student, e.subject.id) }

  /** Every student's `user` link points at an existing user row. */
  predicate UsersLinked(students: seq<Student>, users: seq<User>) {
    forall i :: 0 <= i < |students| && students[i].user.Some? ==>
      Seqs.HasKey(users, UserId, students[i].user.value)
  }

  class Database {
    var users: seq<User>
    var students: seq<Student>
    var teachers: seq<Teacher>
    var subjects: seq<Subject>
    var periods: seq<Period>
    var enrollments: seq<Enrollment>
    var attendance: seq<Attendance>
    var timetable: seq<Slot>

    /** Primary keys and the unique constraints the views rely on. */
    ghost predicate Valid()
      reads this
    {
      && Seqs.UniqueBy(users, UserId)
      && Seqs.UniqueBy(students, StudentId)
      && Seqs.UniqueBy(teachers, TeacherId)
      && Seqs.UniqueBy(subjects, SubjectId)
      && Seqs.UniqueBy(attendance, KeyOf)
      && Seqs.UniqueBy(timetable, SlotKeyOf)
      && UsersLinked(students, users)
    }

    constructor ()
      ensures Valid()
      ensures users == [] && students == [] && teachers == [] && subjects == []
      ensures periods == [] && enrollments == [] && attendance == [] && timetable == []
    {
      users, students, teachers, subjects := [], [], [], [];
      periods, enrollments, attendance, timetable := [], [], [], [];
    }
  }

  /** Rewriting rows without changing their keys keeps the keys unique. */
  lemma SameKeysKeepUnique<T, K>(a: seq<T>, b: seq<T>, key: T -> K)
    requires |a| == |b| && forall i :: 0 <= i < |a| ==> key(a[i]) == key(b[i])
    requires Seqs.UniqueBy(a, key)
    ensures Seqs.UniqueBy(b, key)
  {
    forall i, j | 0 <= i < j < |b| ensures key(b[i]) != key(b[j]) {
      assert key(a[i]) != key(a[j]);
    }
  }

  /** Rewriting student and user rows without touching links or user ids keeps every link valid. */
  lemma SameLinksKeepLinked(s0: seq<Student>, s1: seq<Student>, u0: seq<User>, u1: seq<User>)
    requires |s0| == |s1| && forall i :: 0 <= i < |s0| ==> s1[i].user == s0[i].user
    requires |u0| == |u1| && forall i :: 0 <= i < |u0| ==> u1[i].id == u0[i].id
    requires UsersLinked(s0, u0)
    ensures UsersLinked(s1, u1)
  {
    forall i | 0 <= i < |s1| && s1[i].user.Some? ensures Seqs.HasKey(u1, UserId, s1[i].user.value) {
      var k :| 0 <= k < |u0| && UserId(u0[k]) == s0[i].user.value;
      assert UserId(u1[k]) == s1[i].user.value;
    }
  }

  // ---------------------------------------------------------------------
  // Lookups by id (`Model.objects.get(id=...)`)
  // ---------------------------------------------------------------------

  /** Position of the student with id `id`, if any. */
  function StudentIndex(students: seq<Student>, id: nat): (r: Option<nat>)
    ensures r.Some? ==> r.value < |students| && students[r.value].id == id
    ensures r.None? <==> !Seqs.HasKey(students, StudentId, id)
  {
    if students == [] then None
    else if students[0].id == id then Some(0)
    else
      var r := StudentIndex(students[1..], id);
      assert Seqs.HasKey(students[1..], StudentId, id) <==> Seqs.HasKey(students, StudentId, id) by {
        if Seqs.HasKey(students, StudentId, id) {
          var i :| 0 <= i < |students| && StudentId(students[i]) == id;
          assert students[1..][i - 1] == students[i];
        }
      }
      if r.None? then None else Some(r.value + 1)
  }

  /** Position of the user with id `id`, if any. */
  function UserIndex(users: seq<User>, id: nat): (r: Option<nat>)
    ensures r.Some? ==> r.value < |users| && users[r.value].id == id
    ensures r.None? <==> !Seqs.HasKey(users, UserId, id)
  {
    if users == [] then None
    else if users[0].id == id then Some(0)
    else
      var r := UserIndex(users[1..], id);
      assert Seqs.HasKey(users[1..], UserId, id) <==> Seqs.HasKey(users, UserId, id) by {
        if Seqs.HasKey(users, UserId, id) {
          var i :| 0 <= i < |users| && UserId(users[i]) == id;
          assert users[1..][i - 1] == users[i];
        }
      }
      if r.None? then None else Some(r.value + 1)
  }

  /** Position of the teacher with id `id`, if any. */
  function TeacherIndex(teachers: seq<Teacher>, id: nat): (r: Option<nat>)
    ensures r.Some? ==> r.value < |teachers| && teachers[r.value].id == id
    ensures r.None? <==> !Seqs.HasKey(teachers, TeacherId, id)
  {
    if teachers == [] then None
    else if teachers[0].id == id then Some(0)
    else
      var r := TeacherIndex(teachers[1..], id);
      assert Seqs.HasKey(teachers[1..], TeacherId, id) <==> Seqs.HasKey(teachers, TeacherId, id) by {
        if Seqs.HasKey(teachers, TeacherId, id) {
          var i :| 0 <= i < |teachers| && TeacherId(teachers[i]) == id;
          assert teachers[1..][i - 1] == teachers[i];
        }
      }
      if r.None? then None else Some(r.value + 1)
  }

  /** An id not used by any row: what the database assigns to a new row. */
  function NextId<T>(rows: seq<T>, id: T -> nat): (r: nat)
    ensures forall i :: 0 <= i < |rows| ==> id(rows[i]) < r
  {
    if rows == [] then 1
    else
      var rest := NextId(rows[1..], id);
      assert forall i :: 1 <= i < |rows| ==> id(rows[i]) == id(rows[1..][i - 1]);
      if id(rows[0]) < rest then rest else id(rows[0]) + 1
  }

  lemma NextIdIsFresh<T>(rows: seq<T>, id: T -> nat)
    ensures !Seqs.HasKey(rows, id, NextId(rows, id))
  {
  }

  /**
   * `authenticate(username=..., password=...)`: the user with that username
   * and password, if any (passwords are compared as stored; hashing is not modelled).
   */
  function Authenticate(users: seq<User>, username: string, password: string): (r: Option<User>)
    ensures r.Some? ==> r.value in users && r.value.username == username && r.value.password == password
    ensures r.None? <==> forall i :: 0 <= i < |users| ==> !(users[i].username == username && users[i].password == password)
  {
    if users == [] then None
    else if users[0].username == username && users[0].password == password then Some(users[0])
    else
      var r := Authenticate(users[1..], username, password);
      assert forall i :: 1 <= i < |users| ==> users[i] == users[1..][i - 1];
      r
  }

  /** A new user row does not break any existing link. */
  lemma LinkedAfterNewUser(students: seq<Student>, users: seq<User>, u: User)
    requires UsersLinked(students, users)
    ensures UsersLinked(students, users + [u])
  {
    forall i | 0 <= i < |students| && students[i].user.Some?
      ensures Seqs.HasKey(users + [u], UserId, students[i].user.value)
    {
      var k :| 0 <= k < |users| && UserId(users[k]) == students[i].user.value;
      assert (users + [u])[k] == users[k];
    }
  }

  /** A new student row keeps the links valid when its own link is valid. */
  lemma LinkedAfterNewStudent(students: seq<Student>, users: seq<User>, s: Student)
    requires UsersLinked(students, users)
    requires s.user.Some? ==> Seqs.HasKey(users, UserId, s.user.value)
    ensures UsersLinked(students + [s], users)
  {
    forall i | 0 <= i < |students + [s]| && (students + [s])[i].user.Some?
      ensures Seqs.HasKey(users, UserId, (students + [s])[i].user.value)
    {
      if i < |students| {
        assert (students + [s])[i] == students[i];
      }
    }
  }

  /**
   * `User.objects.create_user(username=email, email=email, password=...)`:
   * appends a non-staff user under a fresh id, or fails (an integrity error
   * in the source) when a user already has that username.
   */
  method CreateUser(db: Database, email: string, password: string) returns (id: Option<nat>)
    requires db.Valid()
    modifies db`users
    ensures db.Valid()
    ensures id.None? <==> Seqs.HasKey(old(db.users), Username, email)
    ensures id.None? ==> db.users == old(db.users)
    ensures id.Some? ==> !Seqs.HasKey(old(db.users), UserId, id.value)
    ensures id.Some? ==> db.users == old(db.users) + [User(id.value, email, email, password, false, false)]
  {
    if exists i :: 0 <= i < |db.users| && Username(db.users[i]) == email {
      return None;
    }
    var next := NextId(db.users, UserId);
    var u := User(next, email, email, password, false, false);
    Seqs.AppendKeepsUnique(db.users, u, UserId);
    LinkedAfterNewUser(db.students, db.users, u);
    db.users := db.users + [u];
    id := Some(next);
  }

  /** A user added under an unused username is the one `authenticate` finds for that username and password. */
  lemma {:induction false} NewUserAuthenticates(users: seq<User>, u: User)
    requires !Seqs.HasKey(users, Username, u.username)
    ensures Authenticate(users + [u], u.username, u.password) == Some(u)
  {
    if users != [] {
      assert (users + [u])[1..] == users[1..] + [u];
      assert users[0].username != u.username;
      assert !Seqs.HasKey(users[1..], Username, u.username) by {
        forall i | 0 <= i < |users[1..]| ensures Username(users[1..][i]) != u.username {
          assert users[1..][i] == users[i + 1];
        }
      }
      NewUserAuthenticates(users[1..], u);
    }
  }

  // ---------------------------------------------------------------------
  // Subjects and enrollments
  // ---------------------------------------------------------------------

  function InSemester(department: int, semester: int): Subject -> bool {
    (s: Subject) => s.department == department && s.semester == semester
  }

  /** `Subject.objects.filter(department=..., semester=...)`, in table order. */
  function SubjectsOf(subjects: seq<Subject>, department: int, semester: int): (r: seq<Subject>)
    ensures |r| <= |subjects|
  {
    Seqs.Filter(subjects, InSemester(department, semester))
  }

  /** The subjects `student` is enrolled in, in enrollment-table order. */
  function EnrolledSubjects(enrollments: seq<Enrollment>, student: nat): (r: seq<Subject>)
    ensures |r| <= |enrollments|
  {
    if enrollments == [] then []
    else (if enrollments[0].student == student then [enrollments[0].subject] else [])
         + EnrolledSubjects(enrollments[1..], student)
  }

  /** `[Enrollment(student=student, subject=sub) for sub in subjects]`. */
  function EnrollAll(student: nat, subjects: seq<Subject>): (r: seq<Enrollment>)
    ensures |r| == |subjects|
    ensures forall i :: 0 <= i < |r| ==> r[i] == Enrollment(student, subjects[i])
  {
    if subjects == [] then [] else [Enrollment(student, subjects[0])] + EnrollAll(student, subjects[1..])
  }

  function NotOfStudent(student: nat): Enrollment -> bool {
    (e: Enrollment) => e.student != student
  }

  /** `Enrollment.objects.filter(student=student).delete()`. */
  function DropEnrollments(enrollments: seq<Enrollment>, student: nat): (r: seq<Enrollment>)
    ensures |r| <= |enrollments|
  {
    Seqs.Filter(enrollments, NotOfStudent(student))
  }

  /** Delete the student's enrollments, then bulk-create one per subject. */
  function Reenroll(enrollments: seq<Enrollment>, student: nat, subjects: seq<Subject>): seq<Enrollment> {
    DropEnrollments(enrollments, student) + EnrollAll(student, subjects)
  }

  lemma {:induction false} EnrolledSubjectsConcat(a: seq<Enrollment>, b: seq<Enrollment>, student: nat)
    ensures EnrolledSubjects(a + b, student) == EnrolledSubjects(a, student) + EnrolledSubjects(b, student)
  {
    if a == [] {
      assert a + b == b;
    } else {
      var c := a + b;
      assert c[0] == a[0];
      assert c[1..] == a[1..] + b;
      EnrolledSubjectsConcat(a[1..], b, student);
      var h := if a[0].student == student then [a[0].subject] else [];
      assert EnrolledSubjects(c, student)
          == h + (EnrolledSubjects(a[1..], student) + EnrolledSubjects(b, student));
      assert EnrolledSubjects(a, student) == h + EnrolledSubjects(a[1..], student);
    }
  }

  /** The enrollments created for `student` list exactly the given subjects, and none for anyone else. */
  lemma {:induction false} EnrollAllSubjects(student: nat, subjects: seq<Subject>, other: nat)
    ensures EnrolledSubjects(EnrollAll(student, subjects), student) == subjects
    ensures other != student ==> EnrolledSubjects(EnrollAll(student, subjects), other) == []
  {
    if subjects != [] {
      EnrollAllSubjects(student, subjects[1..], other);
      assert EnrollAll(student, subjects)[1..] == EnrollAll(student, subjects[1..]);
    }
  }

  /** Deleting a student's enrollments empties their list and leaves everyone else's alone. */
  lemma {:induction false} DropEnrollmentsSubjects(enrollments: seq<Enrollment>, student: nat, other: nat)
    ensures EnrolledSubjects(DropEnrollments(enrollments, student), student) == []
    ensures other != student ==>
      EnrolledSubjects(DropEnrollments(enrollments, student), other) == EnrolledSubjects(enrollments, other)
  {
    if enrollments != [] {
      DropEnrollmentsSubjects(enrollments[1..], student, other);
      var p := NotOfStudent(student);
      var head := if p(enrollments[0]) then [enrollments[0]] else [];
      assert DropEnrollments(enrollments, student) == head + DropEnrollments(enrollments[1..], student);
      EnrolledSubjectsConcat(head, DropEnrollments(enrollments[1..], student), student);
      EnrolledSubjectsConcat(head, DropEnrollments(enrollments[1..], student), other);
    }
  }

  /** After re-enrollment the student has exactly the new subjects; other students keep theirs. */
  lemma ReenrollSubjects(enrollments: seq<Enrollment>, student: nat, subjects: seq<Subject>, other: nat)
    ensures EnrolledSubjects(Reenroll(enrollments, student, subjects), student) == subjects
    ensures other != student ==>
      EnrolledSubjects(Reenroll(enrollments, student, subjects), other) == EnrolledSubjects(enrollments, other)
  {
    EnrolledSubjectsConcat(DropEnrollments(enrollments, student), EnrollAll(student, subjects), student);
    EnrolledSubjectsConcat(DropEnrollments(enrollments, student), EnrollAll(student, subjects), other);
    DropEnrollmentsSubjects(enrollments, student, other);
    EnrollAllSubjects(student, subjects, other);
  }
}
