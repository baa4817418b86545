/**
 * The admin panel's create serializers (`backend/adminpanel/serializers.py`):
 * a new student gets a login user, a row linked to it and one enrollment per
 * subject of their department and semester; a new teacher gets a login user
 * and a linked row. Both report the generated default password.
 */
module AdminSerializers {
  import opened Wrappers
  import Seqs
  import opened Records
  import opened Passwords

  /** The validated fields of a student creation. */
  datatype StudentData = StudentData(name: string, registerNumber: string, email: string,
                                     department: nat, semester: int, dob: Option<Date>)

  /** The validated fields of a teacher creation. */
  datatype TeacherData = TeacherData(name: string, email: string, department: nat, isHod: bool)

  datatype StudentCreation =
    | StudentUsernameTaken
    | StudentCreated(student: nat, user: nat, password: string, assignedSubjects: nat)

  datatype TeacherCreation =
    | TeacherUsernameTaken
    | TeacherCreated(teacher: nat, user: nat, password: string)

  /** The student row the serializer stores: the validated fields, the link, blank contact fields. */
  function StudentRow(id: nat, data: StudentData, user: nat): (r: Student)
    ensures r.id == id && r.user == Some(user)
    ensures r.name == data.name && r.email == data.email && r.registerNumber == data.registerNumber
    ensures r.department == data.department && r.semester == data.semester && r.dob == data.dob
  {
    Student(id, data.name, data.registerNumber, data.email, "", "", data.department, data.semester,
            data.dob, Some(user))
  }

  /**
   * `StudentCreateSerializer.create`: a user named by the email with the
   * student default password, then the linked student row, then one
   * enrollment per subject of (department, semester), whose number is reported.
   * When the username is taken, `create_user` fails before anything is written.
   */
  method CreateStudent(db: Database, data: StudentData) returns (reply: StudentCreation)
    requires db.Valid()
    modifies db`users, db`students, db`enrollments
    ensures db.Valid()
    ensures reply.StudentUsernameTaken? <==> Seqs.HasKey(old(db.users), Username, data.email)
    ensures reply.StudentUsernameTaken? ==>
      db.users == old(db.users) && db.students == old(db.students) && db.enrollments == old(db.enrollments)
    ensures reply.StudentCreated? ==>
      && reply.password == StudentPassword(data.name, data.dob)
      && db.users == old(db.users) + [User(reply.user, data.email, data.email, reply.password, false, false)]
      && !Seqs.HasKey(old(db.students), StudentId, reply.student)
      && db.students == old(db.students) + [StudentRow(reply.student, data, reply.user)]
      && db.enrollments == old(db.enrollments)
                           + EnrollAll(reply.student, SubjectsOf(db.subjects, data.department, data.semester))
      && reply.assignedSubjects == |SubjectsOf(db.subjects, data.department, data.semester)|
  {
    var password := StudentPassword(data.name, data.dob);
    var user := CreateUser(db, data.email, password);
    if user.None? {
      return StudentUsernameTaken;
    }
    var id := NextId(db.students, StudentId);
    var row := StudentRow(id, data, user.value);
    assert Seqs.HasKey(db.users, UserId, user.value) by {
      assert db.users[|db.users| - 1].id == user.value;
    }
    Seqs.AppendKeepsUnique(db.students, row, StudentId);
    LinkedAfterNewStudent(db.students, db.users, row);
    db.students := db.students + [row];
    var subjects := SubjectsOf(db.subjects, data.department, data.semester);
    var enrollments := EnrollAll(id, subjects);
    db.enrollments := db.enrollments + enrollments;
    reply := StudentCreated(id, user.value, password, |enrollments|);
  }

  /**
   * What the creation leaves behind, stated over the tables: the new user
   * logs in with the reported password, and the new student's subjects are
   * their earlier ones (none, for a fresh id) followed by exactly the subjects
   * of their department and semester.
   */
  lemma {:induction false} StudentCreationEffects(users: seq<User>, enrollments: seq<Enrollment>, subjects: seq<Subject>,
                               data: StudentData, student: nat, user: nat)
    requires !Seqs.HasKey(users, Username, data.email)
    requires forall i :: 0 <= i < |enrollments| ==> enrollments[i].student != student
    ensures Authenticate(users + [User(user, data.email, data.email, StudentPassword(data.name, data.dob), false, false)],
                         data.email, StudentPassword(data.name, data.dob)).Some?
    ensures EnrolledSubjects(enrollments + EnrollAll(student, SubjectsOf(subjects, data.department, data.semester)), student)
         == SubjectsOf(subjects, data.department, data.semester)
  {
    NewUserAuthenticates(users, User(user, data.email, data.email, StudentPassword(data.name, data.dob), false, false));
    var subs := SubjectsOf(subjects, data.department, data.semester);
    EnrolledSubjectsConcat(enrollments, EnrollAll(student, subs), student);
    EnrollAllSubjects(student, subs, student);
    NoEnrollmentsOf(enrollments, student);
  }

  lemma {:induction false} NoEnrollmentsOf(enrollments: seq<Enrollment>, student: nat)
    requires forall i :: 0 <= i < |enrollments| ==> enrollments[i].student != student
    ensures EnrolledSubjects(enrollments, student) == []
  {
    if enrollments != [] {
      assert forall i :: 0 <= i < |enrollments[1..]| ==> enrollments[1..][i] == enrollments[i + 1];
      NoEnrollmentsOf(enrollments[1..], student);
    }
  }

  /** The teacher row the serializer stores. */
  function TeacherRow(id: nat, data: TeacherData, user: nat): (r: Teacher)
    ensures r.id == id && r.user == Some(user) && r.name == data.name && r.email == data.email
    ensures r.department == data.department && r.isHod == data.isHod
  {
    Teacher(id, data.name, data.email, data.department, data.isHod, Some(user))
  }

  /**
   * `TeacherCreateSerializer.create`: a user named by the email with the
   * teacher default password, then the linked teacher row.
   */
  method CreateTeacher(db: Database, data: TeacherData) returns (reply: TeacherCreation)
    requires db.Valid()
    modifies db`users, db`teachers
    ensures db.Valid()
    ensures reply.TeacherUsernameTaken? <==> Seqs.HasKey(old(db.users), Username, data.email)
    ensures reply.TeacherUsernameTaken? ==> db.users == old(db.users) && db.teachers == old(db.teachers)
    ensures reply.TeacherCreated? ==>
      && reply.password == TeacherPassword(data.name)
      && db.users == old(db.users) + [User(reply.user, data.email, data.email, reply.password, false, false)]
      && !Seqs.HasKey(old(db.teachers), TeacherId, reply.teacher)
      && db.teachers == old(db.teachers) + [TeacherRow(reply.teacher, data, reply.user)]
  {
    var password := TeacherPassword(data.name);
    var user := CreateUser(db, data.email, password);
    if user.None? {
      return TeacherUsernameTaken;
    }
    var id := NextId(db.teachers, TeacherId);
    var row := TeacherRow(id, data, user.value);
    Seqs.AppendKeepsUnique(db.teachers, row, TeacherId);
    db.teachers := db.teachers + [row];
    reply := TeacherCreated(id, user.value, password);
  }
}
