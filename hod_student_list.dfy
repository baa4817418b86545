/**
 * The HOD's student list screen
 * (`mobile/PCASConnect/src/screens/HODStudentListScreen.js`): the search
 * box's filter over the fetched students, and the reset-password action,
 * which only talks to the user.
 */
module HodStudentList {
  import Seqs
  import Text

  /** One student as the HOD list endpoint sends it. */
  datatype ListedStudent = ListedStudent(id: nat, name: string, regNo: string, semester: int)

  /**
   * The search predicate: the lower-cased name contains the lower-cased
   * search text, or the register number contains the text as typed.
   */
  function Keep(searchText: string): ListedStudent -> bool {
    (s: ListedStudent) =>
      Text.Contains(Text.Lower(s.name), Text.Lower(searchText)) || Text.Contains(s.regNo, searchText)
  }

  /**
   * `filteredStudents`: exactly the students the search predicate keeps, in
   * their original order; an empty search text keeps everyone.
   */
  function FilteredStudents(students: seq<ListedStudent>, searchText: string): (r: seq<ListedStudent>)
    ensures forall i :: 0 <= i < |r| ==> r[i] in students && Keep(searchText)(r[i])
    ensures forall i :: 0 <= i < |students| && Keep(searchText)(students[i]) ==> students[i] in r
    ensures Seqs.IsSubsequence(r, students)
    ensures searchText == "" ==> r == students
  {
    Seqs.FilterMembers(students, Keep(searchText));
    Seqs.FilterIsSubsequence(students, Keep(searchText));
    if searchText == "" then
      assert forall i :: 0 <= i < |students| ==> Keep(searchText)(students[i]) by {
        forall i | 0 <= i < |students| ensures Keep(searchText)(students[i]) {
          Text.ContainsEmpty(Text.Lower(students[i].name));
        }
      }
      Seqs.FilterAll(students, Keep(searchText));
      Seqs.Filter(students, Keep(searchText))
    else
      Seqs.Filter(students, Keep(searchText))
  }

  /**
   * The name is matched without regard to ASCII case but the register
   * number is not: "cs01" does not find a student registered as "CS01"
   * (unless the name matches), while "CS01" does.
   */
  lemma RegisterNumberIsCaseSensitive()
    ensures !Keep("cs01")(ListedStudent(1, "Z", "CS01", 1))
    ensures Keep("CS01")(ListedStudent(1, "Z", "CS01", 1))
    ensures Keep("z")(ListedStudent(1, "Z", "CS01", 1))
  {
    assert Text.Lower("Z") == "z";
    assert Text.Lower("cs01") == "cs01";
    assert Text.Contains("CS01", "CS01") by { assert "CS01"[..4] == "CS01"; }
    assert !Text.Contains("CS01", "cs01") by {
      assert "CS01"[..4] != "cs01" by { assert "CS01"[0] != "cs01"[0]; }
      assert "CS01"[1..] == "S01";
    }
    assert Text.Contains("z", "z") by { assert "z"[..1] == "z"; }
  }

  // ---------------------------------------------------------------------
  // handleResetPassword
  // ---------------------------------------------------------------------

  /** What the screen can do in response to a tap: show an alert, or send a request. */
  datatype Effect = ShowAlert(title: string, message: string) | SendRequest(url: string)

  datatype Choice = Cancel | Reset

  /**
   * `handleResetPassword`: a confirmation dialog, and after "Reset" an
   * information alert claiming the password was reset.
   */
  function ResetPasswordEffects(studentName: string, choice: Choice): seq<Effect> {
    [ShowAlert("Reset Password", "Are you sure you want to reset password for " + studentName + "?")]
    + (if choice == Reset then [ShowAlert("Info", "Password reset to default (Name+Year)")] else [])
  }

  /**
   * Whatever the user chooses, the action sends no request (so no password
   * changes), yet after "Reset" it reports the reset as done.
   */
  lemma ResetSendsNothing(studentName: string, choice: Choice)
    ensures forall i :: 0 <= i < |ResetPasswordEffects(studentName, choice)| ==>
      ResetPasswordEffects(studentName, choice)[i].ShowAlert?
    ensures choice == Reset <==> ShowAlert("Info", "Password reset to default (Name+Year)") in ResetPasswordEffects(studentName, choice)
  {
  }
}
