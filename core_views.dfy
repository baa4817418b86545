/**
 * The bound `mark_attendance` of `backend/core/views.py` (a later
 * definition of the same name replaces the earlier one). It follows the
 * same rule as the teacher app's marking view but reports no counts. The
 * other function-based views of that file that this model covers
 * (`student_dashboard`, `teacher_today_timetable`, `teacher_today_status`,
 * `admin_semester_attendance`, `student_timetable`, `admin_login`) repeat
 * class-based views and are modelled once, in `StudentViews`,
 * `TeacherViews` and `AdminViews`.
 */
module CoreViews {
  import Seqs
  import opened Records
  import opened TeacherViews

  datatype CoreMarkReply = CoreMissingFields | AttendanceSaved
  {
    function Status(): int {
      match this
      case CoreMissingFields => 400
      case AttendanceSaved => 200
    }
  }

  /**
   * 400 and no record when a field is missing; otherwise each entry is
   * stored unless its (student, subject, period, date) already has a record.
   */
  method MarkAttendanceCore(db: Database, req: MarkRequest) returns (reply: CoreMarkReply)
    requires db.Valid()
    modifies db`attendance
    ensures db.Valid()
    ensures reply.CoreMissingFields? <==> !req.Complete()
    ensures reply.CoreMissingFields? ==> db.attendance == old(db.attendance)
    ensures reply.AttendanceSaved? ==> db.attendance == MarkAll(old(db.attendance), req.entries.value, ContextOf(req))
  {
    if !req.Complete() {
      return CoreMissingFields;
    }
    var ctx := ContextOf(req);
    var entries := req.entries.value;
    ghost var attendance0 := db.attendance;
    for i := 0 to |entries|
      invariant db.Valid()
      invariant MarkAll(db.attendance, entries[i..], ctx) == MarkAll(attendance0, entries, ctx)
    {
      var entry := entries[i];
      assert entries[i..][1..] == entries[i + 1..];
      var key := MarkKey(entry.student, ctx.subject, ctx.period, ctx.date);
      if exists k :: 0 <= k < |db.attendance| && KeyOf(db.attendance[k]) == key {
        continue;
      }
      var record := Attendance(entry.student, ctx.subject, ctx.period, ctx.teacher, ctx.date, entry.status);
      Seqs.AppendKeepsUnique(db.attendance, record, KeyOf);
      db.attendance := db.attendance + [record];
    }
    assert entries[|entries|..] == [];
    reply := AttendanceSaved;
  }
}
