/**
 * The teacher and HOD endpoints of `backend/teacher/views.py`: login,
 * attendance marking, today's timetable and status, the HOD dashboard
 * numbers, the HOD promotion and the timetable upsert.
 */
module TeacherViews {
  import opened Wrappers
  import Seqs
  import opened Records
  import Models
  import AdminViews

  // ---------------------------------------------------------------------
  // TeacherLoginView
  // ---------------------------------------------------------------------

  datatype TeacherLoginReply =
    | TeacherInvalidCredentials
    | NoTeacherProfile
    | TeacherLoggedIn(role: string, teacherId: nat, name: string, email: string, departmentId: nat)
  {
    function Status(): int {
      match this
      case TeacherInvalidCredentials => 401
      case NoTeacherProfile => 400
      case TeacherLoggedIn(_, _, _, _, _) => 200
    }
  }

  /** `Teacher.objects.get(user=user)`: the first teacher linked to the user. */
  function TeacherOfUser(teachers: seq<Teacher>, user: nat): (r: Option<Teacher>)
    ensures r.Some? ==> r.value in teachers && r.value.user == Some(user)
    ensures r.None? <==> forall i :: 0 <= i < |teachers| ==> teachers[i].user != Some(user)
  {
    if teachers == [] then None
    else if teachers[0].user == Some(user) then Some(teachers[0])
    else
      var r := TeacherOfUser(teachers[1..], user);
      assert forall i :: 1 <= i < |teachers| ==> teachers[i] == teachers[1..][i - 1];
      r
  }

  /**
   * The login: 401 when no user has that email and password, 400 when the
   * user has no teacher profile, otherwise the teacher's data with role
   * "HOD" for a head of department and "TEACHER" for anyone else.
   */
  function TeacherLogin(users: seq<User>, teachers: seq<Teacher>, email: string, password: string): (r: TeacherLoginReply)
    ensures r.TeacherInvalidCredentials? <==> Authenticate(users, email, password).None?
    ensures r.NoTeacherProfile? <==>
      (Authenticate(users, email, password).Some?
       && TeacherOfUser(teachers, Authenticate(users, email, password).value.id).None?)
    ensures r.TeacherLoggedIn? ==>
      (exists i, j :: (0 <= i < |users| && 0 <= j < |teachers|
        && users[i].username == email && users[i].password == password
        && teachers[j].user == Some(users[i].id) && teachers[j].id == r.teacherId
        && teachers[j].department == r.departmentId
        && r.role == (if teachers[j].isHod then "HOD" else "TEACHER")))
  {
    match Authenticate(users, email, password)
    case None => TeacherInvalidCredentials
    case Some(u) =>
      match TeacherOfUser(teachers, u.id)
      case None => NoTeacherProfile
      case Some(t) =>
        var i :| 0 <= i < |users| && users[i] == u;
        var j :| 0 <= j < |teachers| && teachers[j] == t;
        TeacherLoggedIn(if t.isHod then "HOD" else "TEACHER", t.id, t.name, t.email, t.department)
  }

  // ---------------------------------------------------------------------
  // MarkAttendanceView
  // ---------------------------------------------------------------------

  /** One item of the request's attendance list. */
  datatype Entry = Entry(student: nat, status: string)

  /**
   * The request fields. A field is `None` when it is missing or falsy
   * (an id 0, an empty date string); the list is checked for emptiness itself.
   */
  datatype MarkRequest = MarkRequest(teacher: Option<nat>, subject: Option<nat>, period: Option<nat>,
                                     date: Option<Date>, entries: Option<seq<Entry>>)
  {
    /** `all([teacher_id, subject_id, period_id, date_str, attendance_data])`. */
    predicate Complete() {
      && teacher.Some? && teacher.value != 0
      && subject.Some? && subject.value != 0
      && period.Some? && period.value != 0
      && date.Some?
      && entries.Some? && entries.value != []
    }
  }

  /** The fields every record of one request shares. */
  datatype MarkContext = MarkContext(subject: nat, period: nat, teacher: nat, date: Date)

  function EntryKey(ctx: MarkContext): Entry -> MarkKey {
    (e: Entry) => MarkKey(e.student, ctx.subject, ctx.period, ctx.date)
  }

  function Record(ctx: MarkContext, e: Entry): Attendance {
    Attendance(e.student, ctx.subject, ctx.period, ctx.teacher, ctx.date, e.status)
  }

  /** One entry: skipped when a record with its key exists, otherwise stored. */
  function Mark(attendance: seq<Attendance>, e: Entry, ctx: MarkContext): seq<Attendance> {
    if Seqs.HasKey(attendance, KeyOf, EntryKey(ctx)(e)) then attendance else attendance + [Record(ctx, e)]
  }

  /** All entries, in request order. */
  function MarkAll(attendance: seq<Attendance>, entries: seq<Entry>, ctx: MarkContext): seq<Attendance>
    decreases |entries|
  {
    if entries == [] then attendance else MarkAll(Mark(attendance, entries[0], ctx), entries[1..], ctx)
  }

  /** Existing records are never modified or removed: the old table is a prefix of the new one. */
  lemma {:induction false} MarkAllKeepsRecords(attendance: seq<Attendance>, entries: seq<Entry>, ctx: MarkContext)
    ensures |attendance| <= |MarkAll(attendance, entries, ctx)| <= |attendance| + |entries|
    ensures MarkAll(attendance, entries, ctx)[..|attendance|] == attendance
    decreases |entries|
  {
    if entries != [] {
      var next := Mark(attendance, entries[0], ctx);
      MarkAllKeepsRecords(next, entries[1..], ctx);
      assert next[..|attendance|] == attendance;
    }
  }

  /** Every stored record's key is unique afterwards, if it was before. */
  lemma {:induction false} MarkAllKeepsUnique(attendance: seq<Attendance>, entries: seq<Entry>, ctx: MarkContext)
    requires Seqs.UniqueBy(attendance, KeyOf)
    ensures Seqs.UniqueBy(MarkAll(attendance, entries, ctx), KeyOf)
    decreases |entries|
  {
    if entries != [] {
      var e := entries[0];
      if !Seqs.HasKey(attendance, KeyOf, EntryKey(ctx)(e)) {
        assert KeyOf(Record(ctx, e)) == EntryKey(ctx)(e);
        Seqs.AppendKeepsUnique(attendance, Record(ctx, e), KeyOf);
      }
      MarkAllKeepsUnique(Mark(attendance, e, ctx), entries[1..], ctx);
    }
  }

  /** The keys afterwards are the keys before together with the keys of all entries. */
  lemma {:induction false} MarkAllKeys(attendance: seq<Attendance>, entries: seq<Entry>, ctx: MarkContext)
    ensures Seqs.Image(MarkAll(attendance, entries, ctx), KeyOf)
         == Seqs.Image(attendance, KeyOf) + Seqs.Image(entries, EntryKey(ctx))
    decreases |entries|
  {
    if entries != [] {
      var e := entries[0];
      var next := Mark(attendance, e, ctx);
      assert Seqs.Image(next, KeyOf) == Seqs.Image(attendance, KeyOf) + {EntryKey(ctx)(e)} by {
        Seqs.HasKeyImage(attendance, KeyOf, EntryKey(ctx)(e));
        if !Seqs.HasKey(attendance, KeyOf, EntryKey(ctx)(e)) {
          Seqs.ImageAppend(attendance, Record(ctx, e), KeyOf);
        }
      }
      MarkAllKeys(next, entries[1..], ctx);
      Seqs.ImageCons(entries, EntryKey(ctx));
    }
  }

  /**
   * How many records marking stores: one per distinct entry key that had no
   * record yet. So an entry is skipped exactly when its key already has a
   * record, whether from before the request or from an earlier entry.
   */
  lemma StoredCount(attendance: seq<Attendance>, entries: seq<Entry>, ctx: MarkContext)
    requires Seqs.UniqueBy(attendance, KeyOf)
    ensures |MarkAll(attendance, entries, ctx)| - |attendance|
         == |Seqs.Image(entries, EntryKey(ctx)) - Seqs.Image(attendance, KeyOf)|
  {
    var after := MarkAll(attendance, entries, ctx);
    MarkAllKeepsUnique(attendance, entries, ctx);
    MarkAllKeys(attendance, entries, ctx);
    Seqs.UniqueImageSize(attendance, KeyOf);
    Seqs.UniqueImageSize(after, KeyOf);
    var old_, new_ := Seqs.Image(attendance, KeyOf), Seqs.Image(entries, EntryKey(ctx));
    assert old_ + new_ == old_ + (new_ - old_);
    assert old_ !! (new_ - old_);
  }

  /** Afterwards every entry's key has a record. */
  lemma EveryEntryRecorded(attendance: seq<Attendance>, entries: seq<Entry>, ctx: MarkContext)
    ensures forall i :: 0 <= i < |entries| ==>
      Seqs.HasKey(MarkAll(attendance, entries, ctx), KeyOf, EntryKey(ctx)(entries[i]))
  {
    MarkAllKeys(attendance, entries, ctx);
    forall i | 0 <= i < |entries|
      ensures Seqs.HasKey(MarkAll(attendance, entries, ctx), KeyOf, EntryKey(ctx)(entries[i]))
    {
      assert EntryKey(ctx)(entries[i]) in Seqs.Image(entries, EntryKey(ctx));
      Seqs.HasKeyImage(MarkAll(attendance, entries, ctx), KeyOf, EntryKey(ctx)(entries[i]));
    }
  }

  /** A student listed twice in one request, not yet marked: the first entry is saved, the second skipped. */
  lemma RepeatedStudentSavedOnce(attendance: seq<Attendance>, e1: Entry, e2: Entry, ctx: MarkContext)
    requires e1.student == e2.student
    requires !Seqs.HasKey(attendance, KeyOf, EntryKey(ctx)(e1))
    ensures MarkAll(attendance, [e1, e2], ctx) == attendance + [Record(ctx, e1)]
  {
    var once := attendance + [Record(ctx, e1)];
    assert Mark(attendance, e1, ctx) == once;
    assert Seqs.HasKey(once, KeyOf, EntryKey(ctx)(e2)) by {
      assert KeyOf(once[|attendance|]) == EntryKey(ctx)(e2);
    }
    assert Mark(once, e2, ctx) == once;
    assert [e1, e2][1..] == [e2];
    assert MarkAll(once, [e2], ctx) == MarkAll(once, [], ctx) by {
      assert [e2][1..] == [];
    }
  }

  datatype MarkReply = MarkMissingFields | MarkProcessed(saved: nat, skipped: nat)
  {
    function Status(): int {
      match this
      case MarkMissingFields => 400
      case MarkProcessed(_, _) => 200
    }
  }

  function ContextOf(req: MarkRequest): MarkContext
    requires req.Complete()
  {
    MarkContext(req.subject.value, req.period.value, req.teacher.value, req.date.value)
  }

  /**
   * `MarkAttendanceView.post`: 400 and no record when a field is missing;
   * otherwise each entry is stored unless its key already has a record, and
   * the reply counts the saved and the skipped entries.
   */
  method MarkAttendance(db: Database, req: MarkRequest) returns (reply: MarkReply)
    requires db.Valid()
    modifies db`attendance
    ensures db.Valid()
    ensures reply.MarkMissingFields? <==> !req.Complete()
    ensures reply.MarkMissingFields? ==> db.attendance == old(db.attendance)
    ensures reply.MarkProcessed? ==>
      && db.attendance == MarkAll(old(db.attendance), req.entries.value, ContextOf(req))
      && reply.saved == |db.attendance| - |old(db.attendance)|
      && reply.saved + reply.skipped == |req.entries.value|
  {
    if !req.Complete() {
      return MarkMissingFields;
    }
    var ctx := ContextOf(req);
    var entries := req.entries.value;
    ghost var attendance0 := db.attendance;
    var saved, skipped := 0, 0;
    for i := 0 to |entries|
      invariant db.Valid()
      invariant MarkAll(db.attendance, entries[i..], ctx) == MarkAll(attendance0, entries, ctx)
      invariant |db.attendance| == |attendance0| + saved
      invariant saved + skipped == i
    {
      var entry := entries[i];
      assert entries[i..][1..] == entries[i + 1..];
      var key := MarkKey(entry.student, ctx.subject, ctx.period, ctx.date);
      if exists k :: 0 <= k < |db.attendance| && KeyOf(db.attendance[k]) == key {
        skipped := skipped + 1;
        continue;
      }
      var record := Attendance(entry.student, ctx.subject, ctx.period, ctx.teacher, ctx.date, entry.status);
      Seqs.AppendKeepsUnique(db.attendance, record, KeyOf);
      db.attendance := db.attendance + [record];
      saved := saved + 1;
    }
    assert entries[|entries|..] == [];
    reply := MarkProcessed(saved, skipped);
  }

  /**
   * The views copy each entry's status into its record without checking it:
   * the table keeps only 'P' and 'A' exactly when the request sends only
   * those (for the entries that are stored).
   */
  lemma {:induction false} MarkAllStatuses(attendance: seq<Attendance>, entries: seq<Entry>, ctx: MarkContext)
    requires Models.AllStatusesValid(attendance)
    requires forall i :: 0 <= i < |entries| ==> Models.ValidStatus(entries[i].status)
    ensures Models.AllStatusesValid(MarkAll(attendance, entries, ctx))
    decreases |entries|
  {
    if entries != [] {
      var next := Mark(attendance, entries[0], ctx);
      assert Models.AllStatusesValid(next);
      MarkAllStatuses(next, entries[1..], ctx);
    }
  }

  /** An entry with any other status, for a student not yet marked, is stored as sent. */
  lemma UncheckedStatusStored(attendance: seq<Attendance>, e: Entry, ctx: MarkContext)
    requires !Models.ValidStatus(e.status)
    requires !Seqs.HasKey(attendance, KeyOf, EntryKey(ctx)(e))
    ensures !Models.AllStatusesValid(MarkAll(attendance, [e], ctx))
  {
    assert [e][1..] == [];
    assert MarkAll(attendance, [e], ctx) == attendance + [Record(ctx, e)];
    assert (attendance + [Record(ctx, e)])[|attendance|].status == e.status;
  }

  /**
   * Marking is keyed by period, so the same student can be marked twice in
   * one subject on one day (two periods); the (student, subject, date)
   * uniqueness that `backend/core/models.py` declares does not hold for the tables the views build.
   */
  lemma TwoPeriodsSameDay(e: Entry, ctx: MarkContext, otherPeriod: nat)
    requires otherPeriod != ctx.period
    ensures !Models.UniquePerDay(MarkAll(MarkAll([], [e], ctx), [e], ctx.(period := otherPeriod)))
  {
    var ctx2 := ctx.(period := otherPeriod);
    var first := [Record(ctx, e)];
    assert MarkAll([], [e], ctx) == first by {
      assert [e][1..] == [];
    }
    assert !Seqs.HasKey(first, KeyOf, EntryKey(ctx2)(e));
    assert MarkAll(first, [e], ctx2) == first + [Record(ctx2, e)] by {
      assert [e][1..] == [];
    }
    var both := first + [Record(ctx2, e)];
    assert (both[0].student, both[0].subject, both[0].date) == (both[1].student, both[1].subject, both[1].date);
  }

  // ---------------------------------------------------------------------
  // TeacherTodayTimetableView
  // ---------------------------------------------------------------------

  /** `day_map.get(today)`: a weekday code for Monday to Saturday, nothing for Sunday or anything else. */
  function DayCode(today: string): (r: Option<string>)
    ensures r.Some? <==> today in {"MON", "TUE", "WED", "THU", "FRI", "SAT"}
    ensures r.Some? ==> r.value == today
  {
    if today in {"MON", "TUE", "WED", "THU", "FRI", "SAT"} then Some(today) else None
  }

  datatype TodayTimetableReply = NoClassesToday | TodaySlots(slots: seq<Slot>)

  function TaughtOn(teacher: nat, day: string): Slot -> bool {
    (s: Slot) => s.teacher == teacher && s.day == day
  }

  /**
   * Today's slots of a teacher; `today` is the clock's upper-cased weekday
   * abbreviation. Without a weekday code the timetable is not consulted.
   */
  function TodayTimetable(timetable: seq<Slot>, teacher: nat, today: string): (r: TodayTimetableReply)
    ensures r.NoClassesToday? <==> DayCode(today).None?
  {
    match DayCode(today)
    case None => NoClassesToday
    case Some(day) => TodaySlots(Seqs.Filter(timetable, TaughtOn(teacher, day)))
  }

  /**
   * On a Sunday the reply is "No classes today" whatever the timetable
   * holds; on a school day it is exactly the teacher's slots for that day, in table order.
   */
  lemma TodayTimetableFacts(timetable: seq<Slot>, other: seq<Slot>, teacher: nat, today: string)
    ensures TodayTimetable(timetable, teacher, "SUN") == TodayTimetable(other, teacher, "SUN") == NoClassesToday
    ensures TodayTimetable(timetable, teacher, today).TodaySlots? ==>
      && Seqs.IsSubsequence(TodayTimetable(timetable, teacher, today).slots, timetable)
      && (forall s :: s in TodayTimetable(timetable, teacher, today).slots <==>
            s in timetable && s.teacher == teacher && s.day == today)
  {
    assert "SUN" !in {"MON", "TUE", "WED", "THU", "FRI", "SAT"};
    if DayCode(today).Some? {
      Seqs.FilterIsSubsequence(timetable, TaughtOn(teacher, today));
      Seqs.FilterMembers(timetable, TaughtOn(teacher, today));
    }
  }

  // ---------------------------------------------------------------------
  // TeacherTodayStatusView
  // ---------------------------------------------------------------------

  /** One of today's periods as `Teacher.get_today_periods()` lists it (that method is not part of this model). */
  datatype TodayPeriod = TodayPeriod(slot: nat, attendanceDone: bool)

  datatype TodayStatusReply =
    | StatusTeacherNotFound
    | TodayStatus(total: nat, pending: seq<TodayPeriod>, completed: seq<TodayPeriod>, periods: seq<TodayPeriod>)

  function IsPending(p: TodayPeriod): bool { !p.attendanceDone }
  function IsCompleted(p: TodayPeriod): bool { p.attendanceDone }

  /** 404 for an unknown teacher; otherwise today's periods split by whether attendance was taken. */
  function TodayStatusOf(teachers: seq<Teacher>, teacher: nat, periods: seq<TodayPeriod>): (r: TodayStatusReply)
    ensures r.StatusTeacherNotFound? <==> !Seqs.HasKey(teachers, TeacherId, teacher)
  {
    if TeacherIndex(teachers, teacher).None? then StatusTeacherNotFound
    else TodayStatus(|periods|, Seqs.Filter(periods, IsPending), Seqs.Filter(periods, IsCompleted), periods)
  }

  /**
   * Pending and completed partition today's periods: both keep the listed
   * order, every period is in exactly one of them, and the counts add up to the total.
   */
  lemma TodayStatusPartition(teachers: seq<Teacher>, teacher: nat, periods: seq<TodayPeriod>)
    requires Seqs.HasKey(teachers, TeacherId, teacher)
    ensures var r := TodayStatusOf(teachers, teacher, periods);
      && r.TodayStatus?
      && r.total == |periods| == |r.pending| + |r.completed|
      && Seqs.IsSubsequence(r.pending, periods) && Seqs.IsSubsequence(r.completed, periods)
      && (forall p :: p in periods ==> (p in r.pending <==> !p.attendanceDone))
      && (forall p :: p in periods ==> (p in r.completed <==> p.attendanceDone))
      && multiset(r.pending) + multiset(r.completed) == multiset(periods)
  {
    Seqs.FilterSplit(periods, IsPending, IsCompleted);
    Seqs.FilterIsSubsequence(periods, IsPending);
    Seqs.FilterIsSubsequence(periods, IsCompleted);
    Seqs.FilterMembers(periods, IsPending);
    Seqs.FilterMembers(periods, IsCompleted);
  }

  // ---------------------------------------------------------------------
  // HODDashboardStatsView
  // ---------------------------------------------------------------------

  datatype HodStatsReply =
    | HodTeacherNotFound
    | NotHod
    | HodStats(department: nat, totalStudents: nat, totalTeachers: nat, totalSubjects: nat, todayPercent: real)
  {
    function Status(): int {
      match this
      case HodTeacherNotFound => 404
      case NotHod => 403
      case HodStats(_, _, _, _, _) => 200
    }
  }

  /** Records of `today` whose student belongs to `department`. */
  function DepartmentToday(students: seq<Student>, department: nat, today: Date): Attendance -> bool {
    (a: Attendance) =>
      a.date == today && StudentIndex(students, a.student).Some?
      && students[StudentIndex(students, a.student).value].department == department
  }

  /** The same records, present ones only. */
  function DepartmentPresentToday(students: seq<Student>, department: nat, today: Date): Attendance -> bool {
    (a: Attendance) => DepartmentToday(students, department, today)(a) && a.status == "P"
  }

  /** Today's (records, present records) for the department. */
  function TodayCounts(students: seq<Student>, attendance: seq<Attendance>, department: nat, today: Date): (r: (nat, nat))
    ensures r.1 <= r.0
  {
    Seqs.FilterStricter(attendance, DepartmentToday(students, department, today),
                        DepartmentPresentToday(students, department, today));
    (|Seqs.Filter(attendance, DepartmentToday(students, department, today))|,
     |Seqs.Filter(attendance, DepartmentPresentToday(students, department, today))|)
  }

  function StudentInDepartment(d: nat): Student -> bool { (s: Student) => s.department == d }
  function TeacherInDepartment(d: nat): Teacher -> bool { (t: Teacher) => t.department == d }
  function SubjectInDepartment(d: nat): Subject -> bool { (s: Subject) => s.department == d }

  /**
   * The HOD dashboard: 404 for an unknown teacher, 403 for a teacher who is
   * not a head of department; otherwise the department's head counts and
   * today's attendance percentage, which is 0 when nothing was marked today.
   */
  function HodDashboardStats(students: seq<Student>, teachers: seq<Teacher>, subjects: seq<Subject>,
                             attendance: seq<Attendance>, teacher: nat, today: Date): (r: HodStatsReply)
    ensures r.HodTeacherNotFound? <==> !Seqs.HasKey(teachers, TeacherId, teacher)
  {
    match TeacherIndex(teachers, teacher)
    case None => HodTeacherNotFound
    case Some(i) =>
      var hod := teachers[i];
      if !hod.isHod then NotHod
      else
        var d := hod.department;
        var (total, present) := TodayCounts(students, attendance, d, today);
        HodStats(d, |Seqs.Filter(students, StudentInDepartment(d))|, |Seqs.Filter(teachers, TeacherInDepartment(d))|,
                 |Seqs.Filter(subjects, SubjectInDepartment(d))|,
                 TodayPercent(total, present))
  }

  /** The department's share of present records today; 0 when there are none. */
  function TodayPercent(total: nat, present: nat): (r: real)
    requires present <= total
    ensures 0.0 <= r <= 100.0
    ensures total == 0 ==> r == 0.0
    ensures r * (total as real) == (present as real) * 100.0
  {
    if total > 0 then Models.Ratio(present, total) else 0.0
  }

  /**
   * With unique teacher ids: 403 exactly for an existing teacher who is not
   * a head of department, and the stats are those of the HOD's own department.
   */
  lemma HodStatsAccess(students: seq<Student>, teachers: seq<Teacher>, subjects: seq<Subject>,
                       attendance: seq<Attendance>, teacher: nat, today: Date)
    requires Seqs.UniqueBy(teachers, TeacherId)
    ensures var r := HodDashboardStats(students, teachers, subjects, attendance, teacher, today);
      && (r.NotHod? <==> exists i :: 0 <= i < |teachers| && teachers[i].id == teacher && !teachers[i].isHod)
      && (r.HodStats? ==> exists i :: 0 <= i < |teachers| && teachers[i].id == teacher && teachers[i].isHod
                                      && teachers[i].department == r.department)
  {
    var r := HodDashboardStats(students, teachers, subjects, attendance, teacher, today);
    match TeacherIndex(teachers, teacher)
    case None =>
    case Some(k) =>
      forall i | 0 <= i < |teachers| && teachers[i].id == teacher ensures i == k {
        assert TeacherId(teachers[i]) == TeacherId(teachers[k]);
      }
      if r.HodStats? {
        assert teachers[k].isHod && teachers[k].department == r.department;
      }
  }

  /** Today's percentage is computed from the HOD department's own records for today. */
  lemma HodStatsPercent(students: seq<Student>, teachers: seq<Teacher>, subjects: seq<Subject>,
                        attendance: seq<Attendance>, teacher: nat, today: Date)
    ensures var r := HodDashboardStats(students, teachers, subjects, attendance, teacher, today);
      r.HodStats? ==>
        var counts := TodayCounts(students, attendance, r.department, today);
        r.todayPercent == TodayPercent(counts.0, counts.1)
  {
    var r := HodDashboardStats(students, teachers, subjects, attendance, teacher, today);
    if r.HodStats? {
      var k := TeacherIndex(teachers, teacher).value;
      var d := teachers[k].department;
      var counts := TodayCounts(students, attendance, d, today);
      assert r.department == d;
    }
  }

  // ---------------------------------------------------------------------
  // HODPromotionView
  // ---------------------------------------------------------------------

  datatype HodPromoteReply = NoStudentsFound | HodPromoted(count: nat, target: int)
  {
    function Status(): int {
      match this
      case NoStudentsFound => 400
      case HodPromoted(_, _) => 200
    }
  }

  /** `Enrollment.objects.get_or_create(student=..., subject=...)`. */
  function GetOrCreate(enrollments: seq<Enrollment>, student: nat, subject: Subject): seq<Enrollment> {
    if Seqs.HasKey(enrollments, EnrollmentKey, (student, subject.id)) then enrollments
    else enrollments + [Enrollment(student, subject)]
  }

  /** `get_or_create` for each subject in turn. */
  function EnsureEnrolled(enrollments: seq<Enrollment>, student: nat, subjects: seq<Subject>): seq<Enrollment>
    decreases |subjects|
  {
    if subjects == [] then enrollments
    else EnsureEnrolled(GetOrCreate(enrollments, student, subjects[0]), student, subjects[1..])
  }

  /** `EnsureEnrolled` for each promoted student in turn. */
  function EnsureAll(enrollments: seq<Enrollment>, ids: seq<nat>, subjects: seq<Subject>): seq<Enrollment>
    decreases |ids|
  {
    if ids == [] then enrollments else EnsureAll(EnsureEnrolled(enrollments, ids[0], subjects), ids[1..], subjects)
  }

  /** The (student, subject) pairs the promotion asks for. */
  function Pairs(ids: seq<nat>, subjects: seq<Subject>): set<(nat, nat)> {
    set i, j | 0 <= i < |ids| && 0 <= j < |subjects| :: (ids[i], subjects[j].id)
  }

  lemma PairsSplitSubjects(student: nat, subjects: seq<Subject>)
    requires subjects != []
    ensures Pairs([student], subjects) == {(student, subjects[0].id)} + Pairs([student], subjects[1..])
  {
    forall x | x in Pairs([student], subjects) ensures x in {(student, subjects[0].id)} + Pairs([student], subjects[1..]) {
      var i, j :| 0 <= i < 1 && 0 <= j < |subjects| && x == ([student][i], subjects[j].id);
      if j > 0 {
        assert subjects[1..][j - 1] == subjects[j];
      }
    }
    forall x | x in Pairs([student], subjects[1..]) ensures x in Pairs([student], subjects) {
      var i, j :| 0 <= i < 1 && 0 <= j < |subjects[1..]| && x == ([student][i], subjects[1..][j].id);
      assert subjects[1..][j] == subjects[j + 1];
    }
    assert (student, subjects[0].id) == ([student][0], subjects[0].id);
  }

  lemma PairsSplitIds(ids: seq<nat>, subjects: seq<Subject>)
    requires ids != []
    ensures Pairs(ids, subjects) == Pairs([ids[0]], subjects) + Pairs(ids[1..], subjects)
  {
    forall x | x in Pairs(ids, subjects) ensures x in Pairs([ids[0]], subjects) + Pairs(ids[1..], subjects) {
      var i, j :| 0 <= i < |ids| && 0 <= j < |subjects| && x == (ids[i], subjects[j].id);
      if i > 0 {
        assert ids[1..][i - 1] == ids[i];
      } else {
        assert x == ([ids[0]][0], subjects[j].id);
      }
    }
    forall x | x in Pairs(ids[1..], subjects) ensures x in Pairs(ids, subjects) {
      var i, j :| 0 <= i < |ids[1..]| && 0 <= j < |subjects| && x == (ids[1..][i], subjects[j].id);
      assert ids[1..][i] == ids[i + 1];
    }
    forall x | x in Pairs([ids[0]], subjects) ensures x in Pairs(ids, subjects) {
      var i, j :| 0 <= i < 1 && 0 <= j < |subjects| && x == ([ids[0]][i], subjects[j].id);
      assert x == (ids[0], subjects[j].id);
    }
  }

  lemma {:induction false} GetOrCreateFacts(enrollments: seq<Enrollment>, student: nat, subject: Subject)
    ensures GetOrCreate(enrollments, student, subject)[..|enrollments|] == enrollments
    ensures Seqs.Image(GetOrCreate(enrollments, student, subject), EnrollmentKey)
         == Seqs.Image(enrollments, EnrollmentKey) + {(student, subject.id)}
    ensures Seqs.UniqueBy(enrollments, EnrollmentKey) ==> Seqs.UniqueBy(GetOrCreate(enrollments, student, subject), EnrollmentKey)
  {
    var e := Enrollment(student, subject);
    Seqs.HasKeyImage(enrollments, EnrollmentKey, (student, subject.id));
    if !Seqs.HasKey(enrollments, EnrollmentKey, (student, subject.id)) {
      Seqs.ImageAppend(enrollments, e, EnrollmentKey);
      if Seqs.UniqueBy(enrollments, EnrollmentKey) {
        Seqs.AppendKeepsUnique(enrollments, e, EnrollmentKey);
      }
    }
  }

  lemma {:induction false} EnsureEnrolledFacts(enrollments: seq<Enrollment>, student: nat, subjects: seq<Subject>)
    ensures |enrollments| <= |EnsureEnrolled(enrollments, student, subjects)|
    ensures EnsureEnrolled(enrollments, student, subjects)[..|enrollments|] == enrollments
    ensures Seqs.Image(EnsureEnrolled(enrollments, student, subjects), EnrollmentKey)
         == Seqs.Image(enrollments, EnrollmentKey) + Pairs([student], subjects)
    ensures Seqs.UniqueBy(enrollments, EnrollmentKey) ==> Seqs.UniqueBy(EnsureEnrolled(enrollments, student, subjects), EnrollmentKey)
    decreases |subjects|
  {
    if subjects == [] {
      assert Pairs([student], subjects) == {};
    } else {
      var next := GetOrCreate(enrollments, student, subjects[0]);
      GetOrCreateFacts(enrollments, student, subjects[0]);
      EnsureEnrolledFacts(next, student, subjects[1..]);
      PairsSplitSubjects(student, subjects);
      var r := EnsureEnrolled(next, student, subjects[1..]);
      assert r[..|enrollments|] == next[..|next|][..|enrollments|];
    }
  }

  /**
   * The HOD promotion's enrollment rule: nothing is deleted (the old table is
   * a prefix), afterwards every promoted student is enrolled in every subject
   * of the new semester, and no (student, subject) pair is enrolled twice
   * unless it already was; the keys added are exactly the requested pairs.
   */
  lemma {:induction false} EnsureAllFacts(enrollments: seq<Enrollment>, ids: seq<nat>, subjects: seq<Subject>)
    ensures |enrollments| <= |EnsureAll(enrollments, ids, subjects)|
    ensures EnsureAll(enrollments, ids, subjects)[..|enrollments|] == enrollments
    ensures Seqs.Image(EnsureAll(enrollments, ids, subjects), EnrollmentKey)
         == Seqs.Image(enrollments, EnrollmentKey) + Pairs(ids, subjects)
    ensures Seqs.UniqueBy(enrollments, EnrollmentKey) ==> Seqs.UniqueBy(EnsureAll(enrollments, ids, subjects), EnrollmentKey)
    decreases |ids|
  {
    if ids == [] {
      assert Pairs(ids, subjects) == {};
    } else {
      var next := EnsureEnrolled(enrollments, ids[0], subjects);
      EnsureEnrolledFacts(enrollments, ids[0], subjects);
      EnsureAllFacts(next, ids[1..], subjects);
      PairsSplitIds(ids, subjects);
      var r := EnsureAll(next, ids[1..], subjects);
      assert r[..|enrollments|] == r[..|next|][..|enrollments|];
    }
  }

  /** The inner loop of the HOD promotion: `get_or_create` for each subject of the new semester. */
  method EnrollInSubjects(db: Database, student: nat, subjects: seq<Subject>)
    modifies db`enrollments
    ensures db.enrollments == EnsureEnrolled(old(db.enrollments), student, subjects)
  {
    ghost var before := db.enrollments;
    for j := 0 to |subjects|
      invariant EnsureEnrolled(db.enrollments, student, subjects[j..]) == EnsureEnrolled(before, student, subjects)
    {
      assert subjects[j..][1..] == subjects[j + 1..];
      var sub := subjects[j];
      if !(exists k :: 0 <= k < |db.enrollments| && EnrollmentKey(db.enrollments[k]) == (student, sub.id)) {
        db.enrollments := db.enrollments + [Enrollment(student, sub)];
      }
    }
    assert subjects[|subjects|..] == [];
  }

  /**
   * The HOD promotion loop: each student of the class moves up one semester
   * and is enrolled, with `get_or_create`, in each of the new subjects.
   */
  method PromoteAndEnroll(db: Database, d: nat, s: int, newSubjects: seq<Subject>)
    modifies db`students, db`enrollments
    ensures db.students == AdminViews.PromoteRows(old(db.students), d, s)
    ensures db.enrollments == EnsureAll(old(db.enrollments), AdminViews.ClassIds(old(db.students), d, s), newSubjects)
  {
    ghost var students0, enrollments0 := db.students, db.enrollments;
    var i := 0;
    while i < |db.students|
      invariant 0 <= i <= |students0| == |db.students|
      invariant forall k :: 0 <= k < i ==> db.students[k] == AdminViews.PromoteRow(students0[k], d, s)
      invariant forall k :: i <= k < |students0| ==> db.students[k] == students0[k]
      invariant EnsureAll(db.enrollments, AdminViews.ClassIds(students0[i..], d, s), newSubjects)
             == EnsureAll(enrollments0, AdminViews.ClassIds(students0, d, s), newSubjects)
      decreases |students0| - i
    {
      assert students0[i..][1..] == students0[i + 1..];
      var rest := AdminViews.ClassIds(students0[i + 1..], d, s);
      var student := db.students[i];
      if AdminViews.InClass(d, s)(student) {
        assert AdminViews.ClassIds(students0[i..], d, s) == [student.id] + rest;
        db.students := db.students[i := student.(semester := s + 1)];
        assert EnsureAll(db.enrollments, [student.id] + rest, newSubjects)
            == EnsureAll(EnsureEnrolled(db.enrollments, student.id, newSubjects), rest, newSubjects) by {
          assert ([student.id] + rest)[0] == student.id && ([student.id] + rest)[1..] == rest;
        }
        EnrollInSubjects(db, student.id, newSubjects);
      } else {
        assert AdminViews.ClassIds(students0[i..], d, s) == rest;
      }
      i := i + 1;
    }
    assert students0[i..] == [];
    assert db.students == AdminViews.PromoteRows(students0, d, s);
  }

  /**
   * `HODPromotionView.post`: 400 when no student is in (department,
   * current semester), which includes a missing field (the filter then
   * matches nothing), with no change; otherwise every student of the class
   * moves up one semester and is enrolled, with `get_or_create`, in every
   * subject of the new semester, keeping their old enrollments.
   */
  method HodPromote(db: Database, department: Option<nat>, currentSemester: Option<int>) returns (reply: HodPromoteReply)
    requires db.Valid()
    modifies db`students, db`enrollments
    ensures db.Valid()
    ensures reply.NoStudentsFound? <==>
      (department.None? || currentSemester.None?
       || Seqs.Filter(old(db.students), AdminViews.InClass(department.value, currentSemester.value)) == [])
    ensures reply.NoStudentsFound? ==> db.students == old(db.students) && db.enrollments == old(db.enrollments)
    ensures reply.HodPromoted? ==>
      && reply.target == currentSemester.value + 1
      && reply.count == |Seqs.Filter(old(db.students), AdminViews.InClass(department.value, currentSemester.value))|
      && db.students == AdminViews.PromoteRows(old(db.students), department.value, currentSemester.value)
      && db.enrollments == EnsureAll(old(db.enrollments),
                                     AdminViews.ClassIds(old(db.students), department.value, currentSemester.value),
                                     SubjectsOf(db.subjects, department.value, currentSemester.value + 1))
  {
    if department.None? || currentSemester.None? {
      return NoStudentsFound;
    }
    var d, s := department.value, currentSemester.value;
    var count := |Seqs.Filter(db.students, AdminViews.InClass(d, s))|;
    if count == 0 {
      return NoStudentsFound;
    }
    var target := s + 1;
    var newSubjects := SubjectsOf(db.subjects, d, target);
    ghost var students0 := db.students;
    PromoteAndEnroll(db, d, s, newSubjects);
    AdminViews.PromoteRowsKeepKeys(students0, d, s);
    SameKeysKeepUnique(students0, db.students, StudentId);
    SameLinksKeepLinked(students0, db.students, db.users, db.users);
    reply := HodPromoted(count, target);
  }

  // ---------------------------------------------------------------------
  // HODTimetableView
  // ---------------------------------------------------------------------

  /** The posted fields; `None` for a key the request body lacks. */
  datatype SlotRequest = SlotRequest(department: Option<nat>, semester: Option<int>, day: Option<string>,
                                     period: Option<nat>, subject: Option<nat>, teacher: Option<nat>)
  {
    predicate Complete() {
      department.Some? && semester.Some? && day.Some? && period.Some? && subject.Some? && teacher.Some?
    }
  }

  datatype TimetableReply = TimetableBadRequest | TimetableUpdated
  {
    function Status(): int {
      match this
      case TimetableBadRequest => 400
      case TimetableUpdated => 200
    }
  }

  /** Position of the slot with key `key`, if any. */
  function SlotIndex(timetable: seq<Slot>, key: SlotKey): (r: Option<nat>)
    ensures r.Some? ==> r.value < |timetable| && SlotKeyOf(timetable[r.value]) == key
    ensures r.None? <==> !Seqs.HasKey(timetable, SlotKeyOf, key)
  {
    if timetable == [] then None
    else if SlotKeyOf(timetable[0]) == key then Some(0)
    else
      var r := SlotIndex(timetable[1..], key);
      assert Seqs.HasKey(timetable[1..], SlotKeyOf, key) <==> Seqs.HasKey(timetable, SlotKeyOf, key) by {
        if Seqs.HasKey(timetable, SlotKeyOf, key) {
          var i :| 0 <= i < |timetable| && SlotKeyOf(timetable[i]) == key;
          assert timetable[1..][i - 1] == timetable[i];
        }
      }
      if r.None? then None else Some(r.value + 1)
  }

  /** The slot stored under `key`, if any. */
  function SlotAt(timetable: seq<Slot>, key: SlotKey): Option<Slot> {
    match SlotIndex(timetable, key)
    case None => None
    case Some(i) => Some(timetable[i])
  }

  /**
   * `TimeTable.objects.update_or_create(<key>, defaults={subject, teacher})`:
   * the slot with the key gets the subject and teacher, or a new slot with a
   * fresh id is appended.
   */
  function Upsert(timetable: seq<Slot>, key: SlotKey, subject: nat, teacher: nat): seq<Slot> {
    match SlotIndex(timetable, key)
    case Some(i) => timetable[i := timetable[i].(subject := subject, teacher := teacher)]
    case None =>
      timetable + [Slot(NextId(timetable, SlotId), key.department, key.semester, key.day, key.period, subject, teacher)]
  }

  /** One slot per key before means one slot per key after. */
  lemma UpsertKeepsUnique(timetable: seq<Slot>, key: SlotKey, subject: nat, teacher: nat)
    requires Seqs.UniqueBy(timetable, SlotKeyOf)
    ensures Seqs.UniqueBy(Upsert(timetable, key, subject, teacher), SlotKeyOf)
  {
    var r := Upsert(timetable, key, subject, teacher);
    match SlotIndex(timetable, key)
    case Some(i) =>
      assert forall k :: 0 <= k < |r| ==> SlotKeyOf(r[k]) == SlotKeyOf(timetable[k]);
      SameKeysKeepUnique(timetable, r, SlotKeyOf);
    case None =>
      var slot := Slot(NextId(timetable, SlotId), key.department, key.semester, key.day, key.period, subject, teacher);
      assert SlotKeyOf(slot) == key;
      Seqs.AppendKeepsUnique(timetable, slot, SlotKeyOf);
  }

  /**
   * After the upsert the key's slot holds the posted subject and teacher;
   * every other key's slot is as before; the table grows by at most one row.
   */
  lemma UpsertLookup(timetable: seq<Slot>, key: SlotKey, subject: nat, teacher: nat, other: SlotKey)
    requires Seqs.UniqueBy(timetable, SlotKeyOf)
    ensures var r := Upsert(timetable, key, subject, teacher);
      && SlotAt(r, key).Some?
      && SlotAt(r, key).value.subject == subject && SlotAt(r, key).value.teacher == teacher
      && (other != key ==> SlotAt(r, other) == SlotAt(timetable, other))
      && |timetable| <= |r| <= |timetable| + 1
  {
    var r := Upsert(timetable, key, subject, teacher);
    UpsertKeepsUnique(timetable, key, subject, teacher);
    match SlotIndex(timetable, key)
    case Some(i) =>
      assert SlotKeyOf(r[i]) == key;
      if other != key {
        OtherSlotUnchanged(timetable, r, other, i);
      }
    case None =>
      assert SlotKeyOf(r[|timetable|]) == key;
      if other != key {
        OtherSlotUnchanged(timetable, r, other, |timetable|);
      }
  }

  /** A slot lookup only sees rows with its key, so rewriting or adding a row with another key does not affect it. */
  lemma OtherSlotUnchanged(t: seq<Slot>, r: seq<Slot>, other: SlotKey, changed: nat)
    requires |t| <= |r| <= |t| + 1 && changed < |r|
    requires |r| == |t| + 1 ==> changed == |t|
    requires forall k :: 0 <= k < |t| && k != changed ==> r[k] == t[k]
    requires SlotKeyOf(r[changed]) != other
    requires changed < |t| ==> SlotKeyOf(t[changed]) == SlotKeyOf(r[changed])
    requires Seqs.UniqueBy(t, SlotKeyOf) && Seqs.UniqueBy(r, SlotKeyOf)
    ensures SlotAt(r, other) == SlotAt(t, other)
  {
    match SlotIndex(t, other)
    case Some(i) =>
      assert r[i] == t[i];
    case None =>
  }

  /** Posting the same slot twice leaves the table as posting it once. */
  lemma UpsertIdempotent(timetable: seq<Slot>, key: SlotKey, subject: nat, teacher: nat)
    requires Seqs.UniqueBy(timetable, SlotKeyOf)
    ensures Upsert(Upsert(timetable, key, subject, teacher), key, subject, teacher) == Upsert(timetable, key, subject, teacher)
  {
    var r := Upsert(timetable, key, subject, teacher);
    UpsertKeepsUnique(timetable, key, subject, teacher);
    match SlotIndex(timetable, key)
    case Some(i) =>
      assert SlotKeyOf(r[i]) == key;
      var j := SlotIndex(r, key).value;
      assert r[j := r[j].(subject := subject, teacher := teacher)] == r;
    case None =>
      assert SlotKeyOf(r[|timetable|]) == key;
      var j := SlotIndex(r, key).value;
      assert r[j := r[j].(subject := subject, teacher := teacher)] == r;
  }

  /**
   * `HODTimetableView.post`: 400 with no change when a field is missing;
   * otherwise the slot of (department, semester, day, period) is created or
   * updated with the posted subject and teacher.
   */
  method UpsertTimetable(db: Database, req: SlotRequest) returns (reply: TimetableReply)
    requires db.Valid()
    modifies db`timetable
    ensures db.Valid()
    ensures reply.TimetableBadRequest? <==> !req.Complete()
    ensures reply.TimetableBadRequest? ==> db.timetable == old(db.timetable)
    ensures reply.TimetableUpdated? ==>
      db.timetable == Upsert(old(db.timetable), SlotKey(req.department.value, req.semester.value, req.day.value, req.period.value),
                             req.subject.value, req.teacher.value)
  {
    if !req.Complete() {
      return TimetableBadRequest;
    }
    var key := SlotKey(req.department.value, req.semester.value, req.day.value, req.period.value);
    UpsertKeepsUnique(db.timetable, key, req.subject.value, req.teacher.value);
    var found := SlotIndex(db.timetable, key);
    if found.Some? {
      var i := found.value;
      db.timetable := db.timetable[i := db.timetable[i].(subject := req.subject.value, teacher := req.teacher.value)];
    } else {
      var id := NextId(db.timetable, SlotId);
      db.timetable := db.timetable + [Slot(id, key.department, key.semester, key.day, key.period,
                                           req.subject.value, req.teacher.value)];
    }
    reply := TimetableUpdated;
  }
}
