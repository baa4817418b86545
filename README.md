# PCAS Connect — a verified model of the attendance backend and its mobile client

PCAS Connect is a college attendance system: a Django REST backend
(administration, teacher/HOD and student endpoints over the tables
Department, Subject, Student, Teacher, Enrollment, Attendance, Period and
TimeTable) and a React Native client that logs students, teachers and
administrators in, keeps their session in AsyncStorage and shows their
dashboards.

This Dafny project models the parts of that system that carry logic:

- **Academic record updates.** The database is a `Records.Database` object
  whose tables are sequences of rows. Its invariant `Valid()` covers
  primary keys, the (student, subject, period, date) attendance key, the
  timetable slot key and user links. Each view that writes is a method
  with `modifies` on the tables it touches, specified against a pure fold:
  - attendance marking (`TeacherViews.MarkAll`);
  - the admin promotion (`AdminViews.PromoteRows`, `AdminViews.ReenrollAll`);
  - the HOD promotion (`TeacherViews.EnsureAll`);
  - re-enrollment on a semester edit (`AdminViews.EditedEnrollments`);
  - the timetable upsert (`TeacherViews.Upsert`);
  - user, student and enrollment creation by the serializers and by the
    student-saved signal.

  Lemmas prove what each fold promises.
- **Report rules.** These are pure functions with lemmas:
  - the stable descending ranking and its `< 75` tail;
  - the pending/completed split of today's periods;
  - weekday grouping of the timetable (a method with a loop);
  - credit totals and attendance percentages with their zero-denominator
    defaults;
  - the HOD dashboard numbers.
- **Default passwords.** The three string rules (serializer and admin
  reset, teacher serializer, signal) and exactly when they agree.
- **Client helpers:**
  - the admin API's list URLs, built step by step by methods;
  - how the server reads those query strings back;
  - the unencoded search query;
  - the export URL;
  - the stats fallback and the admin login error mapping;
  - the HOD student filter and its reset no-op;
  - the attendance ring colours.
- **Client session.** A `Session.Device` object holds:
  - the AsyncStorage map;
  - the navigation stack;
  - the alerts shown;
  - the requests sent.

  The login screens and the student dashboard are classes whose handlers
  are methods, each proved equal to a pure `Step` function. Network
  outcomes are parameters (`Http.Outcome`), and so are the clock's year and
  month. `SessionReaders` shows which keys other screens read that no
  handler ever writes.

Modules: `Wrappers`, `Seqs`, `Text`, `Js`, `Http` and `Records` are shared
vocabulary. Every other module corresponds to one source file.

## Model

| member | source | states |
|---|---|---|
| AdminViews.AdminLogin | backend/adminpanel/views.py:12-30 | refused (401) exactly when no user has that username and password; an authenticated non-staff user is forbidden (403); only a staff user gets a reply with its own id |
| AdminViews.SearchStudents | backend/adminpanel/views.py:53-56 | never more than 20 results |
| AdminViews.SearchResults | backend/adminpanel/views.py:46-68 | an empty query finds nothing; every result matches name or register number case-insensitively; results keep table order; up to the limit every matching student is returned, and above it exactly the first 20 matches in table order |
| AdminViews.SummaryRows | backend/adminpanel/views.py:123-133 | one summary per student of the class |
| AdminViews.RankOrdered | backend/adminpanel/views.py:136 | the ranking is a permutation of the summaries, in non-increasing percentage |
| AdminViews.RankStable | backend/adminpanel/views.py:136 | students with equal percentages keep query order (stable sort) |
| AdminViews.LowAttendanceIsTail | backend/adminpanel/views.py:136-139 | `low_attendance` is exactly the suffix of the ranking below 75; everything before it is at least 75 |
| AdminViews.ClassesConductedBounds | backend/adminpanel/views.py:114-119 | distinct (date, period) sessions never exceed the class's records of the month, and are 0 exactly when there are none |
| AdminViews.SemesterAttendance | backend/adminpanel/views.py:108-149 | the reply is the ranked summaries of the class, the `< 75` list of that ranking and the session count |
| AdminViews.PromoteRows | backend/adminpanel/views.py:248-251 | the table keeps its length |
| AdminViews.PromotionMovesClass | backend/adminpanel/views.py:235-251 | every student of (dept, s) moves to s+1; every other student is untouched; nobody is left in (dept, s); the count is the number matched |
| AdminViews.ClassIdsCount | backend/adminpanel/views.py:235-248 | the promoted ids are exactly the ids of the matched students, one per student |
| AdminViews.ReenrollAllSubjects | backend/adminpanel/views.py:253-262 | a promoted student ends with exactly the new semester's subjects; other students keep their enrollments |
| AdminViews.PromoteStudents | backend/adminpanel/views.py:225-268 | missing fields give 400 and no students give 404, both leaving every table unchanged; otherwise students and enrollments are the promotion folds, and the reply's count and target are the number matched and s+1 |
| AdminViews.PromoteClass | backend/adminpanel/views.py:243-262 | the loop leaves the students table as the promotion fold, the enrollments as the re-enrollment fold over the class ids, and counts exactly the class |
| AdminViews.EditEnrollmentRule | backend/adminpanel/views.py:343-368 | a changed semester replaces the student's enrollments with the subjects of (department, new semester) and leaves others' alone; an unchanged semester leaves enrollments untouched |
| AdminViews.SyncUser | backend/adminpanel/views.py:373-376 | the users table keeps its length |
| AdminViews.UpdateStudent | backend/adminpanel/views.py:336-378 | an unknown student gives 404 and changes nothing; otherwise only that row is rewritten, enrollments follow the edit rule, and the linked user's username and email become the student's email |
| AdminViews.WithPassword | backend/adminpanel/views.py:404-405 | the users table keeps its length |
| AdminViews.NewPasswordWorks | backend/adminpanel/views.py:404-405 | after the reset the user's stored password is the new one and every other user is untouched |
| AdminViews.ResetStudentPassword | backend/adminpanel/views.py:392-410 | 404 for an unknown student and 400 without a linked user, both leaving users unchanged; otherwise the default student password is returned and set on the linked user |
| TeacherViews.TeacherOfUser | backend/teacher/views.py:12-40 | finds a teacher linked to the user, or reports that none is |
| TeacherViews.TeacherLogin | backend/teacher/views.py:12-40 | refused exactly when authentication fails; no teacher profile exactly when the authenticated user has no teacher; success carries that teacher |
| TeacherViews.MarkAllKeepsRecords | backend/teacher/views.py:104-123 | existing records are never modified or removed; at most one record per entry is added |
| TeacherViews.MarkAllKeepsUnique | backend/teacher/views.py:103-113 | one record per (student, subject, period, date) before means one after |
| TeacherViews.MarkAllKeys | backend/teacher/views.py:99-123 | the keys afterwards are the old keys plus the keys of all entries |
| TeacherViews.StoredCount | backend/teacher/views.py:96-128 | the number of records added is the number of distinct new keys among the entries |
| TeacherViews.EveryEntryRecorded | backend/teacher/views.py:99-123 | afterwards every entry's key has a record |
| TeacherViews.RepeatedStudentSavedOnce | backend/teacher/views.py:104-113 | a student listed twice is saved once and then skipped |
| TeacherViews.MarkAttendance | backend/teacher/views.py:82-129 | missing fields give 400 and no record; otherwise the table is the marking fold, saved is the number added and saved + skipped equals the number of entries |
| TeacherViews.MarkAllStatuses | backend/teacher/views.py:101-122 | the table keeps only 'P'/'A' statuses when the request sends only those |
| TeacherViews.UncheckedStatusStored | backend/core/models.py:97-105 | any other status is stored as sent, so the model's declared choices are not enforced by marking |
| TeacherViews.TwoPeriodsSameDay | backend/core/models.py:107-108 | the declared (student, subject, date) uniqueness fails once a student is marked in two periods of one day |
| TeacherViews.DayCode | backend/teacher/views.py:133-145 | a day code exists exactly for MON to SAT and equals the abbreviation |
| TeacherViews.TodayTimetable | backend/teacher/views.py:145-153 | "No classes today" exactly when there is no day code |
| TeacherViews.TodayTimetableFacts | backend/teacher/views.py:145-153 | on Sunday the reply does not depend on the timetable; otherwise it lists exactly the teacher's slots for that day, in table order |
| TeacherViews.TodayStatusOf | backend/teacher/views.py:155-172 | 404 exactly for an unknown teacher |
| TeacherViews.TodayStatusPartition | backend/teacher/views.py:162-171 | pending and completed are order-preserving subsequences that split the periods by `attendance_done`, and the total is their combined length |
| TeacherViews.TodayCounts | backend/teacher/views.py:204-206 | present records never exceed records |
| TeacherViews.HodDashboardStats | backend/teacher/views.py:188-218 | the view answers 404 exactly when no teacher has the requested id |
| TeacherViews.HodStatsAccess | backend/teacher/views.py:192-196 | with unique teacher ids: 403 exactly when the teacher exists and is not a HOD; a successful answer reports the department of that HOD |
| TeacherViews.HodStatsPercent | backend/teacher/views.py:202-207 | a successful answer's percentage is taken from today's records of students in the HOD's department (all records, and those marked present) |
| TeacherViews.TodayPercent | backend/teacher/views.py:207 | 0 when there are no records, otherwise present/total × 100, always within [0, 100] |
| TeacherViews.GetOrCreateFacts | backend/teacher/views.py:264 | `get_or_create` keeps every row, adds the pair when it is missing and keeps (student, subject) unique |
| TeacherViews.EnsureEnrolledFacts | backend/teacher/views.py:263-264 | the inner loop keeps old enrollments, adds exactly the missing pairs, and enrolls each subject at most once |
| TeacherViews.EnsureAllFacts | backend/teacher/views.py:256-264 | the whole promotion keeps old enrollments, its keys are the old keys plus every (student, new subject) pair, and no pair appears twice |
| TeacherViews.EnrollInSubjects | backend/teacher/views.py:263-264 | the loop's enrollments equal the inner fold |
| TeacherViews.HodPromote | backend/teacher/views.py:235-266 | no students gives 400 and changes nothing; otherwise every matched student moves to s+1, old enrollments are kept and get-or-create adds the new semester's subjects |
| TeacherViews.PromoteAndEnroll | backend/teacher/views.py:255-264 | the loop leaves the students table as the promotion fold and the enrollments as the get-or-create fold over the class ids and the new subjects |
| TeacherViews.SlotIndex | backend/teacher/views.py:332-336 | finds the slot with the posted key, or reports that none exists |
| TeacherViews.UpsertKeepsUnique | backend/teacher/views.py:332-341 | at most one slot per (department, semester, day, period) stays true |
| TeacherViews.UpsertLookup | backend/teacher/views.py:332-341 | the posted key then holds the posted subject and teacher; every other key's slot is unchanged |
| TeacherViews.OtherSlotUnchanged | backend/teacher/views.py:332-341 | rewriting or adding one slot leaves the lookup of every other key unchanged |
| TeacherViews.UpsertIdempotent | backend/teacher/views.py:332-341 | reposting the same slot changes nothing further |
| TeacherViews.UpsertTimetable | backend/teacher/views.py:326-344 | a missing field gives 400 and no change; otherwise the table is the upsert |
| CoreViews.MarkAttendanceCore | backend/core/views.py:179-219 | missing fields give 400 and no record; otherwise the same marking fold as the teacher view, with no counts |
| StudentViews.StudentByEmail | backend/student/views.py:19-22 | finds a student with that email, or reports that none has it |
| StudentViews.StudentLogin | backend/student/views.py:9-31 | 401 exactly when authentication fails; 400 exactly when the authenticated email has no student; success carries that student's id |
| StudentViews.LoginBodyMessage | backend/student/views.py:24-31 | exactly the successful replies carry "Login successful", and they carry the numeric student id |
| StudentViews.EntryFor | backend/student/views.py:43-53 | the line copies the subject's fields, and its percentage is the subject's attendance percentage, within [0, 100] |
| StudentViews.SumPercentagesBounds | backend/student/views.py:56-59 | the sum of n percentages lies within [0, 100n] |
| StudentViews.Average | backend/student/views.py:56-59 | 0 without entries; otherwise the mean of the percentages, within [0, 100] |
| StudentViews.StudentDashboard | backend/student/views.py:33-68 | 404 exactly for an unknown id; otherwise the student's name and semester, one line per enrollment in enrollment order carrying the subject's id, name, code, credit and attendance percentage, the total credits, and the mean |
| StudentViews.ForStudent | backend/student/views.py:70-88 | the today and monthly endpoints give 404 exactly for an unknown student |
| StudentViews.GroupByDay | backend/student/views.py:103-113 | the result has exactly the six weekday keys, and each day's list is the entries of that day, in order |
| StudentViews.StudentTimetable | backend/student/views.py:90-115 | 404 exactly for an unknown id; otherwise the class's slots, ordered by period number, grouped under the six weekdays |
| StudentViews.WeekFacts | backend/student/views.py:98-113 | each day's list holds only that day's class slots, sorted by period number, and every class slot of that weekday appears in it |
| StudentViews.OtherDaysDropped | backend/student/views.py:111-113 | a slot whose day is not a weekday key appears in no list |
| AdminSerializers.StudentRow | backend/adminpanel/serializers.py:31 | the stored row carries the validated fields and the link to the new user |
| AdminSerializers.CreateStudent | backend/adminpanel/serializers.py:14-49 | a taken username refuses and writes nothing; otherwise one user (username = email = student email, default password), the linked student, one enrollment per subject of (department, semester), and that number reported |
| AdminSerializers.StudentCreationEffects | backend/adminpanel/serializers.py:22-43 | the new user authenticates with the email and the default password, and the new student is enrolled in exactly the subjects of (department, semester) |
| AdminSerializers.NoEnrollmentsOf | backend/adminpanel/serializers.py:39-43 | a fresh student has no enrollments before the bulk create |
| AdminSerializers.TeacherRow | backend/adminpanel/serializers.py:71 | the stored teacher carries the validated fields and the link to the new user |
| AdminSerializers.CreateTeacher | backend/adminpanel/serializers.py:57-76 | a taken username refuses and writes nothing; otherwise one user with the teacher default password and the linked teacher |
| Signals.OnStudentSaved | backend/core/signals.py:7-24 | acts only on creation; a taken username writes nothing; otherwise it adds a user named by the student's email with the signal password and links it to the student |
| Signals.SerializerUserBlocksSignal | backend/core/signals.py:17-21 | when the serializer has already created the user, the signal's username is taken |
| Passwords.ClearNameShape | backend/adminpanel/serializers.py:23 | the prefix has min(5, non-space length) characters, each the upper-cased non-space character of the name at that position |
| Passwords.StudentPasswordSuffix | backend/adminpanel/serializers.py:22-25 | the password is the prefix plus four characters: the digits of a four-digit birth year, or "2000" |
| Passwords.TeacherPasswordSuffix | backend/adminpanel/serializers.py:64-65 | at most nine characters, ending in "1234" |
| Passwords.PrefixesAgree | backend/core/signals.py:10-11 | without non-space whitespace, the signal's prefix equals the serializer's |
| Passwords.SignalVersusSerializer | backend/core/signals.py:10-15 | with a birth date and plain spaces, the signal and serializer passwords agree; without a birth date they always differ ("0000" against "2000") |
| Passwords.LeadingTabDiffers | backend/core/signals.py:10 | a leading tab is stripped by the signal but kept by the serializer |
| Models.SumCreditsConcat | backend/core/models.py:56-57 | credit sums add over concatenation |
| Models.SumCreditsNonNegative | backend/core/models.py:56-57 | non-negative credits give a non-negative total |
| Models.TotalCreditsAfterReenroll | backend/core/models.py:56-57 | after re-enrollment a student's total is the sum of the new subjects' credits; other students' totals are unchanged |
| Models.Counts | backend/core/models.py:61-64 | present records never exceed records |
| Models.AttendancePercentage | backend/core/models.py:60-68 | 0 without records; otherwise present/total × 100; always within [0, 100] |
| Models.Ratio | backend/core/models.py:68 | present/total × 100 within [0, 100] |
| Models.FullAttendance | backend/core/models.py:60-68 | 100% exactly when there are records and all say present |
| Records.Database.constructor | backend/core/models.py:7-111 | an empty database satisfies the key and link invariant |
| Records.Authenticate | backend/student/views.py:14 | finds a user with that username and password, or reports that none matches |
| Records.CreateUser | backend/adminpanel/serializers.py:28 | a taken username is refused with no change; otherwise a user with a fresh id, username = email = the given email |
| Records.NewUserAuthenticates | backend/adminpanel/serializers.py:28 | a user added under an unused username is what authentication finds |
| Records.EnrollAllSubjects | backend/adminpanel/serializers.py:39-43 | the bulk-created enrollments list exactly the given subjects for the student and none for anyone else |
| Records.DropEnrollmentsSubjects | backend/adminpanel/views.py:255 | deleting a student's enrollments empties their list and leaves others' alone |
| Records.ReenrollSubjects | backend/adminpanel/views.py:364-368 | after delete and bulk create the student has exactly the new subjects; others keep theirs |
| AdminApi.SplitOnJoin | mobile/PCASConnect/src/services/adminApi.js:42 | splitting `a + sep + b` with `sep` not in `a` gives `a` then the pieces of `b` |
| AdminApi.QueryRoundTrip | mobile/PCASConnect/src/services/adminApi.js:100-104 | for query-safe names and values the server reads back exactly the truthy parameters, rendered, in order |
| AdminApi.NumberIsQuerySafe | mobile/PCASConnect/src/services/adminApi.js:102-103 | numeric ids and semesters never break the query |
| AdminApi.AppendParam | mobile/PCASConnect/src/services/adminApi.js:102 | one `if (v) url += ...` step appends exactly that parameter's piece, and nothing for a falsy value |
| AdminApi.StudentListUrl | mobile/PCASConnect/src/services/adminApi.js:100-104 | the URL is the list path ending in `?`, then `department_id=X&`, `semester=Y&`, `search=Z&`, each only when truthy |
| AdminApi.TeacherListUrl | mobile/PCASConnect/src/services/adminApi.js:144-147 | the same scheme with department_id then search |
| AdminApi.StudentListQuery | mobile/PCASConnect/src/services/adminApi.js:100-104 | the server reads department_id, semester and search in that order, each exactly when truthy |
| AdminApi.TeacherListQuery | mobile/PCASConnect/src/services/adminApi.js:144-147 | the server reads department_id then search, each exactly when truthy |
| AdminApi.SearchTextInjectsParameter | mobile/PCASConnect/src/services/adminApi.js:104 | search text containing `a&name=value` reaches the server as two parameters |
| AdminApi.SearchUrlQuery | mobile/PCASConnect/src/services/adminApi.js:46-48 | query-safe text arrives as the single parameter `q` |
| AdminApi.SearchTextNotEncoded | mobile/PCASConnect/src/services/adminApi.js:47 | the text is pasted unencoded: `a&name=value` arrives as `q=a` plus a stray parameter |
| AdminApi.ExportSegments | mobile/PCASConnect/src/services/adminApi.js:41-43 | after the export path, the URL splits on `/` into the four values and a final empty piece |
| AdminApi.NumberHasNoSlash | mobile/PCASConnect/src/services/adminApi.js:41-43 | numeric values fill exactly one path segment |
| AdminApi.AdminStats | mobile/PCASConnect/src/services/adminApi.js:17-24 | never throws: the server's body on success, otherwise the four counts all 0 |
| AdminApi.AdminLogin | mobile/PCASConnect/src/services/adminApi.js:7-14 | returns exactly on a 2xx reply; otherwise throws the server's truthy `error`, else "Login Failed" |
| AdminApi.AdminLoginAgainstView | backend/adminpanel/views.py:19-30 | against the admin login view: the client returns exactly for a staff login, and throws the view's own 401/403 messages |
| HodStudentList.FilteredStudents | mobile/PCASConnect/src/screens/HODStudentListScreen.js:60-63 | a student is kept exactly when the lowercased name contains the lowercased text or the register number contains the text as typed; order is kept; empty text keeps everyone |
| HodStudentList.RegisterNumberIsCaseSensitive | mobile/PCASConnect/src/screens/HODStudentListScreen.js:62 | the register number match is case-sensitive while the name match is not |
| HodStudentList.ResetSendsNothing | mobile/PCASConnect/src/screens/HODStudentListScreen.js:30-58 | the reset action only shows alerts and sends no request; the info alert appears exactly when Reset is chosen |
| AttendanceProgress.GetColor | mobile/PCASConnect/src/components/AttendanceProgress.js:9-13 | green exactly at 75 and above, yellow exactly in [60, 75), red exactly below 60 |
| AttendanceProgress.DefaultIsRed | mobile/PCASConnect/src/components/AttendanceProgress.js:5 | the default percentage 0 is red |
| AttendanceProgress.ColorMonotonic | mobile/PCASConnect/src/components/AttendanceProgress.js:9-13 | a higher percentage never shows a worse colour |
| AttendanceProgress.LowAttendanceIsNotGreen | mobile/PCASConnect/src/components/AttendanceProgress.js:10 | a report row is on the low-attendance list exactly when its ring is not green |
| Session.Replaced | mobile/PCASConnect/src/screens/StudentLoginScreen.js:42 | `navigation.replace` swaps the top screen and keeps the rest of the stack |
| Session.Device.constructor | mobile/PCASConnect/src/screens/StudentDashboardScreen.js:119 | a fresh install has an empty store and shows role selection |
| Session.Device.SetItem | mobile/PCASConnect/src/screens/TeacherLoginScreen.js:40-44 | one key is written; nothing else changes |
| Session.Device.Clear | mobile/PCASConnect/src/screens/StudentDashboardScreen.js:118 | the store becomes empty; nothing else changes |
| Session.Device.Replace | mobile/PCASConnect/src/screens/StudentLoginScreen.js:42 | the stack becomes the replaced stack |
| Session.Device.Reset | mobile/PCASConnect/src/screens/StudentDashboardScreen.js:119 | the stack becomes the single given screen |
| Session.Device.Show | mobile/PCASConnect/src/screens/StudentLoginScreen.js:17 | one alert is appended |
| Session.Device.Send | mobile/PCASConnect/src/api/auth.js:6-15 | one request is appended |
| StudentLogin.StudentLoginOutcomes | mobile/PCASConnect/src/screens/StudentLoginScreen.js:15-56 | empty fields only alert; otherwise one login request; "student" is written and the dashboard opened with the reply exactly on a 2xx "Login successful" reply; every other path leaves the store alone and shows one "Login Failed" alert |
| StudentLogin.StudentLoginAgainstView | backend/student/views.py:16-31 | against the student login view: the dashboard opens exactly for a logged-in student, and a refusal shows the view's error body |
| StudentLogin.StudentLoginScreen.constructor | mobile/PCASConnect/src/screens/StudentLoginScreen.js:10-13 | empty fields, not loading |
| StudentLogin.StudentLoginScreen.HandleLogin | mobile/PCASConnect/src/screens/StudentLoginScreen.js:15-56 | the device's store, alerts, requests and stack become those of the login step; loading is false after every path that starts a request |
| TeacherLogin.TeacherWritesKeys | mobile/PCASConnect/src/screens/TeacherLoginScreen.js:40-44 | a complete login writes exactly the five keys, with teacherId and teacher_id the same text; an interrupted one writes a subset; no other key changes |
| TeacherLogin.TeacherLoginOutcomes | mobile/PCASConnect/src/screens/TeacherLoginScreen.js:29-65 | empty fields send nothing; a failed request writes nothing and does not navigate; navigation happens exactly after all five writes, to the HOD dashboard for "HOD" and the teacher dashboard otherwise |
| TeacherLogin.TeacherLoginScreen.constructor | mobile/PCASConnect/src/screens/TeacherLoginScreen.js:29-35 | empty fields, not loading |
| TeacherLogin.TeacherLoginScreen.HandleLogin | mobile/PCASConnect/src/screens/TeacherLoginScreen.js:29-65 | the sequential writes, alert and navigation are those of the login step; loading is false after every path that starts a request |
| StudentDashboard.RouteIdTakesPrecedence | mobile/PCASConnect/src/screens/StudentDashboardScreen.js:42-55 | a truthy route id wins; otherwise the stored record's id is used; with neither there is no session; a resolved id is truthy |
| StudentDashboard.LoginThenDashboard | mobile/PCASConnect/src/screens/StudentLoginScreen.js:39-42 | after a successful student login the dashboard finds the student's id both from the route and, later, from the store alone |
| StudentDashboard.FetchRequests | mobile/PCASConnect/src/screens/StudentDashboardScreen.js:64-81 | the profile is requested first; the two attendance requests follow only when it succeeded |
| StudentDashboard.StudentDashboardScreen.constructor | mobile/PCASConnect/src/screens/StudentDashboardScreen.js:37-59 | loading, no id and no data yet |
| StudentDashboard.StudentDashboardScreen.FetchAllData | mobile/PCASConnect/src/screens/StudentDashboardScreen.js:61-110 | the requests are the fetch requests; the profile is set only on success; today and month data are set only when all three succeed; loading and refreshing end false; the store is untouched |
| StudentDashboard.StudentDashboardScreen.LoadUserData | mobile/PCASConnect/src/screens/StudentDashboardScreen.js:37-59 | with a resolved id it remembers it and fetches, leaving profile, today and month data and both spinners as the fetch does; with none it alerts and replaces the screen with the login without any request; a storage error does nothing; on those two paths every data field, the id and the spinners keep their values |
| StudentDashboard.StudentDashboardScreen.OnRefresh | mobile/PCASConnect/src/screens/StudentDashboardScreen.js:112-115 | with a remembered id it fetches again, and profile, today and month data and both spinners end as the fetch leaves them; without one nothing is fetched, refreshing stays on and every data field and the loading flag keep their values |
| StudentDashboard.StudentDashboardScreen.HandleLogout | mobile/PCASConnect/src/screens/StudentDashboardScreen.js:117-120 | the store is cleared and the stack is exactly role selection |
| SessionReaders.ApplyKeepsOut | mobile/PCASConnect/src/screens/HODDashboardScreen.js:17-18 | no student, teacher or admin login, and no logout, writes "name", "department" or "user_data" |
| SessionReaders.ReadersFindNothing | mobile/PCASConnect/src/screens/TeacherDashboardScreen.js:24 | after any sequence of student, teacher and admin logins and logouts those keys are still absent, so their readers always get nothing |
| SessionReaders.HodScreensFindIds | mobile/PCASConnect/src/screens/HODDashboardScreen.js:16 | a teacher login that navigates leaves "teacher_id" and "department_id" holding the reply's values as text |
| Text.ContainsIff | mobile/PCASConnect/src/screens/HODStudentListScreen.js:61-62 | the substring scan finds an occurrence exactly when one exists |
| Text.NatToStringRoundTrip | backend/adminpanel/serializers.py:24 | a rendered year reads back as the same number and is all digits |
| Js.ToStr | mobile/PCASConnect/src/screens/TeacherLoginScreen.js:41-43 | `toString()` throws exactly on undefined and null, and otherwise gives the template rendering |
| Js.TruthyRendersNonEmpty | mobile/PCASConnect/src/services/adminApi.js:102-104 | a truthy value never renders as the empty string |

## Left out

- Django ORM, HTTP, axios and AsyncStorage are abstracted. Tables are
  in-memory sequences in primary-key order, and every query returns rows
  in table order. Network replies are parameters (`Http.Outcome`).
  AsyncStorage is a map, and `JSON.stringify`/`JSON.parse` are treated as
  exact inverses: the store holds the object itself.
- Floating point and `round(..., 2)` are left out. Percentages are exact
  `real`s, and only comparisons, bounds and zero cases are stated.
- The clock is a parameter:
  - `datetime.now()` becomes the weekday text;
  - `date.today()` becomes a date;
  - the client's year and month are arguments.
- Methods the views call but `backend/core/models.py` does not define are
  inputs to the model, not modelled:
  - `Teacher.get_today_periods`;
  - `Student.get_monthly_attendance`;
  - `Student.get_today_attendance`;
  - `Teacher.subjects`.
- Several fields the views use are missing from `backend/core/models.py`:
  period, teacher, user, dob, is_hod, Period and TimeTable. The record
  shapes come from the views.
- The model keeps the views' attendance key (student, subject, period,
  date) as the table invariant. The model's unique_together
  (student, subject, date) does not hold for what the views write; see
  `TeacherViews.TwoPeriodsSameDay`.
- Database failures are not modelled:
  - foreign-key violations;
  - `MultipleObjectsReturned` (first match is used);
  - `KeyError` on a malformed attendance entry;
  - date parsing;
  - the generic `except Exception` 500/400 replies.

  A refused `create_user` (taken username) is the one failure modelled: it
  writes nothing.
- AdminViews.UpdateStudent: does not model the unique constraints on a student's email
  and register number, or on the linked user's username. An edit that gives
  one student another's email makes `student.save()` or
  `student.user.save()` raise IntegrityError, and the view answers 500.
  When the semester changed, the enrollments were already replaced by then,
  so the edit stays half-applied. The model reports `StudentUpdated`.
  `Records.Database.Valid` keeps ids unique but not usernames or emails.
- TeacherViews.MarkAttendance: does not model the declared (student, subject, date)
  uniqueness. Marking a student in a second period of the same day makes
  `Attendance.objects.create` raise IntegrityError: the view answers 500 and
  keeps the rows written before. The model stores both records and reports
  success (`TeacherViews.TwoPeriodsSameDay`). The same holds for
  `CoreViews.MarkAttendanceCore`.
- Whether the student-saved signal is connected at all is not part of
  this model: the app configuration is not part of it. `Signals.OnStudentSaved`
  models the handler itself. `Signals.SerializerUserBlocksSignal` shows that
  after the serializer's `create_user` the handler's own one would be refused.
  If the handler is connected, it has no guard for a student that already
  has a user. `create_user` then raises IntegrityError inside
  `Student.objects.create`, after the student row is inserted. The
  serializer's auto-enrollment never runs, and `AddStudentView`, which has
  no try/except, answers 500. The success contract of
  `AdminSerializers.CreateStudent` therefore holds only while the signal is
  not connected.
- The Excel export views (openpyxl) and `SemesterSubjectsView` are left
  out. So are the listing, assignment and announcement views with no rule
  beyond a query, and the dead first `mark_attendance` in
  `backend/core/views.py`.
- `backend/core/views.py` duplicates are modelled once. `student_dashboard`,
  `teacher_today_timetable`, `teacher_today_status`,
  `admin_semester_attendance`, `student_timetable` and `admin_login` repeat
  the class-based views and share their members. Only the bound
  `mark_attendance` has its own member, `CoreViews.MarkAttendanceCore`.
- Text:
  - case folding is ASCII only;
  - `str.strip` uses Python's ASCII and common Unicode space characters;
  - a year is rendered without zero padding, as `str()` does.
- AdminApi.ParseQuery models how a server splits a query string on `&` and
  the first `=`, without percent-decoding. That is enough to show the
  unencoded search text.
- Client UI is left out: rendering, animations, the ring's circumference
  arithmetic, and console logging.
- `Promise.all` in the dashboard fetch is taken as sequential.
- The dashboard's subjects state is never set by the source, so it is not
  modelled.
- StudentDashboard.ResolveStudentId treats a stored non-JSON text under
  "student" as a parse error: nothing happens (StorageError). A stored JSON
  object without a truthy id counts as no session.
- TeacherLogin.TeacherWrites treats a non-string `role` as a failed write
  that stops the remaining steps. The source would store its coerced
  text, then compare it.
- Session.Device.Show models the global `alert(...)` in `loadUserData` as
  an alert titled with its text and an empty message.
- Response bodies are flat JSON objects. A body that is not an object,
  such as an empty string, is not modelled.
- Two client hosts are kept as written. The login calls use
  `http://10.121.154.1:8000` (`api/auth.js`); the admin and student APIs
  use `http://10.219.6.134:8000`.
- The student login reply's department name is not part of the modelled
  body: the client never reads it.
