/** What the account routes promise together: an accepted profile edit
    shows on the next read and keeps the table constraints, and a deleted
    account is gone. */
module ProfileLaws {
  import opened Schema
  import opened Http
  import opened Cascade
  import opened Profile

  /** The edit keeps every id in place, so the users' keys are unchanged. */
  lemma UpdatedUserIds(users: seq<User>, uid: Id, input: ProfileInput, now: Time)
    ensures Keys(ProfileUpdated(users, uid, input, now), UserId) == Keys(users, UserId)
    ensures KeyUnique(users, UserId) ==> KeyUnique(ProfileUpdated(users, uid, input, now), UserId)
  {
    var after := ProfileUpdated(users, uid, input, now);
    SameIdsSameKeys(users, after);
  }

  /** Two tables with the same ids, row for row, have the same keys. */
  lemma SameIdsSameKeys(users: seq<User>, after: seq<User>)
    requires |after| == |users| && forall i | 0 <= i < |users| :: after[i].id == users[i].id
    ensures Keys(after, UserId) == Keys(users, UserId)
  {
    forall k | k in Keys(after, UserId) ensures k in Keys(users, UserId) {
      var i :| 0 <= i < |after| && after[i].id == k;
      assert users[i] in users;
    }
    forall k | k in Keys(users, UserId) ensures k in Keys(after, UserId) {
      var i :| 0 <= i < |users| && users[i].id == k;
      assert after[i] in after;
    }
  }

  /** An edit the UNIQUE email column accepts keeps every constraint: no id
      changes, so no foreign key can break, and the new email is held by no
      other account. */
  lemma UpdateProfileKeepsWellFormed(db: Db, uid: Id, input: ProfileInput, now: Time)
    requires WellFormed(db)
    requires !EmailClash(db.users, uid, input)
    ensures WellFormed(db.(users := ProfileUpdated(db.users, uid, input, now)))
  {
    var after := ProfileUpdated(db.users, uid, input, now);
    UpdatedUserIds(db.users, uid, input, now);
    forall i, j | 0 <= i < j < |after| ensures UserEmail(after[i]) != UserEmail(after[j]) {
      assert UserId(db.users[i]) != UserId(db.users[j]);
      assert UserEmail(db.users[i]) != UserEmail(db.users[j]);
      if db.users[i].id == uid {
        assert db.users[j] in db.users;
      } else if db.users[j].id == uid {
        assert db.users[i] in db.users;
      }
    }
  }

  /** After an accepted edit, the next profile read shows the new name and
      email, with the email no longer verified, and the rest unchanged. */
  lemma ProfileAfterUpdate(users: seq<User>, user: Identity, input: ProfileInput, now: Time)
    requires user.id in Keys(users, UserId)
    ensures var r := GetProfile(ProfileUpdated(users, user.id, input, now), user);
            && r.Ok?
            && (input.name.Some? && input.name.value != [] ==> r.value.name == input.name.value)
            && (input.email.Some? && input.email.value != [] ==> r.value.email == input.email.value && !r.value.emailVerified)
            && exists u :: u in users && u.id == user.id && r.value == ProfileOf(Edit(u, input, now))
  {
    var after := ProfileUpdated(users, user.id, input, now);
    UpdatedUserIds(users, user.id, input, now);
    var r := GetProfile(after, user);
    var v :| v in after && v.id == user.id && r.value == ProfileOf(v);
    var i :| 0 <= i < |after| && after[i] == v;
    assert users[i] in users;
  }

  /** After the account is deleted, reading the profile answers 404. */
  lemma ProfileGoneAfterDelete(db: Db, user: Identity)
    ensures GetProfile(PurgeAsWritten(db, user.id).users, user) == Fail(404, "User not found")
  {
  }
}
