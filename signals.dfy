/**
 * `create_student_user`, the `post_save` handler for students
 * (`backend/core/signals.py`): on the first save of a student it creates a
 * login user named by the student's email, with the signal's own default
 * password, and links the student to it.
 */
module Signals {
  import opened Wrappers
  import Seqs
  import opened Records
  import opened Passwords
  import AdminSerializers

  datatype SignalOutcome =
    | NotCreated
    | SignalUsernameTaken
    | UserLinked(user: nat, password: string)

  /**
   * The handler for the student at `index`. A later save (`created` false)
   * does nothing, which is also what the handler's own `instance.save()`
   * triggers, so the handler runs once per student.
   */
  method OnStudentSaved(db: Database, index: nat, created: bool) returns (outcome: SignalOutcome)
    requires db.Valid() && index < |db.students|
    modifies db`users, db`students
    ensures db.Valid()
    ensures outcome.NotCreated? <==> !created
    ensures created ==>
      (outcome.SignalUsernameTaken? <==> Seqs.HasKey(old(db.users), Username, old(db.students)[index].email))
    ensures !outcome.UserLinked? ==> db.users == old(db.users) && db.students == old(db.students)
    ensures outcome.UserLinked? ==>
      var s := old(db.students)[index];
      && outcome.password == SignalPassword(s.name, s.dob)
      && !Seqs.HasKey(old(db.users), UserId, outcome.user)
      && db.users == old(db.users) + [User(outcome.user, s.email, s.email, outcome.password, false, false)]
      && db.students == old(db.students)[index := s.(user := Some(outcome.user))]
  {
    if !created {
      return NotCreated;
    }
    var instance := db.students[index];
    var password := SignalPassword(instance.name, instance.dob);
    var user := CreateUser(db, instance.email, password);
    if user.None? {
      return SignalUsernameTaken;
    }
    var linked := instance.(user := Some(user.value));
    assert Seqs.HasKey(db.users, UserId, user.value) by {
      assert db.users[|db.users| - 1].id == user.value;
    }
    var students := db.students[index := linked];
    Records.SameKeysKeepUnique(db.students, students, StudentId);
    assert UsersLinked(students, db.users) by {
      forall i | 0 <= i < |students| && students[i].user.Some?
        ensures Seqs.HasKey(db.users, UserId, students[i].user.value)
      {
        if i != index {
          assert students[i] == db.students[i];
        }
      }
    }
    db.students := students;
    outcome := UserLinked(user.value, password);
  }

  /**
   * The serializer creates a student's user before it saves the student, so
   * when this handler runs for that first save the username is already taken
   * and the handler's own `create_user` is refused.
   */
  lemma SerializerUserBlocksSignal(users: seq<User>, data: AdminSerializers.StudentData, id: nat, user: nat, password: string)
    ensures Seqs.HasKey(users + [User(user, data.email, data.email, password, false, false)], Username,
                        AdminSerializers.StudentRow(id, data, user).email)
  {
    assert (users + [User(user, data.email, data.email, password, false, false)])[|users|].username == data.email;
  }
}
