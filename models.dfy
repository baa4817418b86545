/**
 * The derived values `backend/core/models.py` computes for a student:
 * total credits over the enrollments, and the attendance percentage for one
 * subject. Percentages are exact rationals here; the source rounds them to
 * two decimals.
 */
module Models {
  import Seqs
  import opened Records

  /** The sum of the credits of `subjects`. */
  function SumCredits(subjects: seq<Subject>): int {
    if subjects == [] then 0 else subjects[0].credit + SumCredits(subjects[1..])
  }

  lemma {:induction false} SumCreditsConcat(a: seq<Subject>, b: seq<Subject>)
    ensures SumCredits(a + b) == SumCredits(a) + SumCredits(b)
  {
    if a == [] {
      assert a + b == b;
    } else {
      assert (a + b)[1..] == a[1..] + b;
      SumCreditsConcat(a[1..], b);
    }
  }

  /** Credits are never negative when no subject carries negative credit. */
  lemma {:induction false} SumCreditsNonNegative(subjects: seq<Subject>)
    requires forall i :: 0 <= i < |subjects| ==> subjects[i].credit >= 0
    ensures SumCredits(subjects) >= 0
  {
    if subjects != [] {
      SumCreditsNonNegative(subjects[1..]);
    }
  }

  /** `Student.total_credits`: the credits of the subjects the student is enrolled in. */
  function TotalCredits(enrollments: seq<Enrollment>, student: nat): int {
    SumCredits(EnrolledSubjects(enrollments, student))
  }

  /**
   * Re-enrolling a student (promotion, semester edit) makes their total the
   * credits of exactly the new subjects, and leaves every other student's total alone.
   */
  lemma TotalCreditsAfterReenroll(enrollments: seq<Enrollment>, student: nat, subjects: seq<Subject>, other: nat)
    ensures TotalCredits(Reenroll(enrollments, student, subjects), student) == SumCredits(subjects)
    ensures other != student ==>
      TotalCredits(Reenroll(enrollments, student, subjects), other) == TotalCredits(enrollments, other)
  {
    ReenrollSubjects(enrollments, student, subjects, other);
  }

  /** Records of `student` in `subject`. */
  function OfPair(student: nat, subject: nat): Attendance -> bool {
    (a: Attendance) => a.student == student && a.subject == subject
  }

  /** Records of `student` in `subject` marked present. */
  function PresentOfPair(student: nat, subject: nat): Attendance -> bool {
    (a: Attendance) => a.student == student && a.subject == subject && a.status == "P"
  }

  /** How many records the student has in the subject, and how many of them say present. */
  function Counts(attendance: seq<Attendance>, student: nat, subject: nat): (r: (nat, nat))
    ensures r.1 <= r.0
  {
    Seqs.FilterStricter(attendance, OfPair(student, subject), PresentOfPair(student, subject));
    (|Seqs.Filter(attendance, OfPair(student, subject))|,
     |Seqs.Filter(attendance, PresentOfPair(student, subject))|)
  }

  /** `Student.attendance_percentage`: 0 without records, otherwise present / total × 100. */
  function AttendancePercentage(attendance: seq<Attendance>, student: nat, subject: nat): (r: real)
    ensures 0.0 <= r <= 100.0
    ensures Counts(attendance, student, subject).0 == 0 ==> r == 0.0
    ensures r * (Counts(attendance, student, subject).0 as real)
         == (Counts(attendance, student, subject).1 as real) * 100.0
  {
    var (total, present) := Counts(attendance, student, subject);
    if total == 0 then 0.0 else Ratio(present, total)
  }

  /** `present / total × 100` for `present <= total`. */
  function Ratio(present: nat, total: nat): (r: real)
    requires 0 < total && present <= total
    ensures 0.0 <= r <= 100.0
    ensures r * (total as real) == (present as real) * 100.0
  {
    (present as real) / (total as real) * 100.0
  }

  /** A student is at 100% exactly when they have records and every one of them says present. */
  lemma FullAttendance(attendance: seq<Attendance>, student: nat, subject: nat)
    ensures AttendancePercentage(attendance, student, subject) == 100.0
        <==> (Counts(attendance, student, subject).0 > 0
              && Counts(attendance, student, subject).1 == Counts(attendance, student, subject).0)
  {
    var (total, present) := Counts(attendance, student, subject);
    var r := AttendancePercentage(attendance, student, subject);
    if total > 0 && r == 100.0 {
      assert (present as real) * 100.0 == 100.0 * (total as real);
    }
  }

  /** The status choices the Attendance model declares. */
  predicate ValidStatus(status: string) {
    status == "P" || status == "A"
  }

  predicate AllStatusesValid(attendance: seq<Attendance>) {
    forall i :: 0 <= i < |attendance| ==> ValidStatus(attendance[i].status)
  }

  /** The model's declared uniqueness of (student, subject, date). */
  predicate UniquePerDay(attendance: seq<Attendance>) {
    forall i, j :: 0 <= i < j < |attendance| ==>
      (attendance[i].student, attendance[i].subject, attendance[i].date)
      != (attendance[j].student, attendance[j].subject, attendance[j].date)
  }
}
