/** The account routes (src/routes/user.ts): read and edit the caller's
    profile, the three password and verification placeholders, and deleting
    the account with everything that belongs to it. */
module Profile {
  import opened Schema
  import opened Http
  import opened Cascade
  import Store

  /** The columns GET /user/profile selects. */
  datatype ProfileView = ProfileView(
    id: Id,
    email: string,
    name: string,
    emailVerified: bool,
    image: Option<string>,
    createdAt: Time)

  /** The columns PUT /user/profile returns. */
  datatype AccountView = AccountView(
    id: Id,
    email: string,
    name: string,
    emailVerified: bool,
    image: Option<string>)

  function ProfileOf(u: User): ProfileView {
    ProfileView(u.id, u.email, u.name, u.emailVerified, u.image, u.createdAt)
  }

  function AccountOf(u: User): AccountView {
    AccountView(u.id, u.email, u.name, u.emailVerified, u.image)
  }

  /** `where id = uid`, in table order. */
  function UserRows(users: seq<User>, uid: Id): (r: seq<User>)
    ensures forall u :: u in r <==> u in users && u.id == uid
  {
    Filter(users, (u: User) => u.id == uid)
  }

  /** GET /user/profile: the caller's own row, or 404 when it is gone. */
  function GetProfile(users: seq<User>, user: Identity): (r: Reply<ProfileView>)
    ensures r.Ok? <==> user.id in Keys(users, UserId)
    ensures r.Ok? ==> r.status == 200 && exists u :: u in users && u.id == user.id && r.value == ProfileOf(u)
    ensures r.Err? ==> r == Fail(404, "User not found")
  {
    var found := UserRows(users, user.id);
    if found == [] then Fail(404, "User not found")
    else
      assert found[0] in found;
      Ok(200, ProfileOf(found[0]))
  }

  // ---------------------------------------------------------------------
  // PUT /user/profile

  /** The JSON body: both fields are optional. */
  datatype ProfileInput = ProfileInput(name: Option<string>, email: Option<string>)

  /** The first message the body's schema reports, checking `name` before
      `email`; None when the body is accepted. `isEmail` is the schema's
      address check. */
  function ProfileIssue(input: ProfileInput, isEmail: string -> bool): (r: Option<string>)
    ensures r.None? <==> (input.name.Some? ==> input.name.value != [])
                         && (input.email.Some? ==> isEmail(input.email.value))
    ensures input.name.Some? && input.name.value == [] ==> r == Some("Name is required")
    ensures (input.name.Some? ==> input.name.value != []) && r.Some? ==> r == Some("Invalid email")
  {
    if input.name.Some? && input.name.value == [] then Some("Name is required")
    else if input.email.Some? && !isEmail(input.email.value) then Some("Invalid email")
    else None
  }

  /** The `set(...)` of the update applied to one row: `updatedAt` always,
      `name` when a nonempty name is given, and `email` with `emailVerified`
      reset to false when a nonempty email is given. */
  function Edit(u: User, input: ProfileInput, now: Time): (r: User)
    ensures r.id == u.id && r.image == u.image && r.isAdmin == u.isAdmin && r.createdAt == u.createdAt
    ensures r.updatedAt == now
    ensures r.name == if input.name.Some? && input.name.value != [] then input.name.value else u.name
    ensures input.email.Some? && input.email.value != [] ==> r.email == input.email.value && !r.emailVerified
    ensures !(input.email.Some? && input.email.value != []) ==> r.email == u.email && r.emailVerified == u.emailVerified
  {
    var touched := u.(updatedAt := now);
    var named := if input.name.Some? && input.name.value != [] then touched.(name := input.name.value) else touched;
    if input.email.Some? && input.email.value != [] then named.(email := input.email.value, emailVerified := false)
    else named
  }

  /** The users table after the update: the caller's rows edited, every
      other row as it was, in place. */
  function ProfileUpdated(users: seq<User>, uid: Id, input: ProfileInput, now: Time): (r: seq<User>)
    ensures |r| == |users|
    ensures forall i | 0 <= i < |r| :: r[i] == if users[i].id == uid then Edit(users[i], input, now) else users[i]
  {
    if users == [] then []
    else [if users[0].id == uid then Edit(users[0], input, now) else users[0]]
         + ProfileUpdated(users[1..], uid, input, now)
  }

  /** The update returns a row exactly when the caller has one. */
  lemma UpdatedRowsReturned(users: seq<User>, uid: Id, input: ProfileInput, now: Time)
    ensures UserRows(ProfileUpdated(users, uid, input, now), uid) != [] <==> uid in Keys(users, UserId)
  {
    var after := ProfileUpdated(users, uid, input, now);
    if uid in Keys(users, UserId) {
      var i :| 0 <= i < |users| && users[i].id == uid;
      assert after[i] in UserRows(after, uid);
    } else {
      forall x | x in after ensures !(x.id == uid) {
        var i :| 0 <= i < |after| && after[i] == x;
        assert users[i] in users;
      }
      FilterNone(after, (u: User) => u.id == uid);
    }
  }

  /** The update would give the caller's row an email another row holds,
      which the UNIQUE constraint on `users.email` refuses. */
  predicate EmailClash(users: seq<User>, uid: Id, input: ProfileInput) {
    && input.email.Some? && input.email.value != []
    && uid in Keys(users, UserId)
    && exists v | v in users :: v.id != uid && v.email == input.email.value
  }

  /** PUT /user/profile. A refused body writes nothing (400); an email
      another account holds makes the statement throw (500); an update that
      matches no row answers 500; otherwise the edited row. */
  method UpdateProfile(st: Store.Store, user: Identity, input: ProfileInput, isEmail: string -> bool, now: Time)
    returns (r: Reply<AccountView>)
    modifies st`users
    ensures ProfileIssue(input, isEmail).Some? ==>
              r == Fail(400, ProfileIssue(input, isEmail).value) && st.users == old(st.users)
    ensures ProfileIssue(input, isEmail).None? && EmailClash(old(st.users), user.id, input) ==>
              r == Fail(500, "Internal Server Error") && st.users == old(st.users)
    ensures ProfileIssue(input, isEmail).None? && !EmailClash(old(st.users), user.id, input) ==>
              && st.users == ProfileUpdated(old(st.users), user.id, input, now)
              && (user.id !in Keys(old(st.users), UserId) ==> r == Fail(500, "Failed to update profile"))
              && (user.id in Keys(old(st.users), UserId) ==>
                    r.Ok? && r.status == 200
                    && exists u :: u in old(st.users) && u.id == user.id && r.value == AccountOf(Edit(u, input, now)))
  {
    var issue := ProfileIssue(input, isEmail);
    if issue.Some? {
      r := Fail(400, issue.value);
      return;
    }
    if EmailClash(st.users, user.id, input) {
      r := Fail(500, "Internal Server Error");
      return;
    }
    ghost var before := st.users;
    st.users := ProfileUpdated(st.users, user.id, input, now);
    var returned := UserRows(st.users, user.id);
    UpdatedRowsReturned(before, user.id, input, now);
    if returned == [] {
      r := Fail(500, "Failed to update profile");
    } else {
      assert returned[0] in returned;
      var i :| 0 <= i < |st.users| && st.users[i] == returned[0];
      assert before[i] in before;
      r := Ok(200, AccountOf(returned[0]));
    }
  }

  // ---------------------------------------------------------------------
  // The placeholders

  datatype PasswordNotice = PasswordNotice(message: string, newPassword: string)
  datatype EmailNotice = EmailNotice(message: string, email: string)

  /** POST /user/change-password: both fields checked in order, no write,
      and the new password sent back in the body. */
  function ChangePassword(currentPassword: string, newPassword: string): (r: Reply<PasswordNotice>)
    ensures r.Ok? <==> |currentPassword| >= 1 && |newPassword| >= 8
    ensures currentPassword == [] ==> r == Fail(400, "Current password is required")
    ensures currentPassword != [] && |newPassword| < 8 ==> r == Fail(400, "Password must be at least 8 characters")
    ensures r.Ok? ==> r.status == 200 && r.value.newPassword == newPassword
                      && r.value.message == "Use /auth/change-password endpoint with proper session"
  {
    if currentPassword == [] then Fail(400, "Current password is required")
    else if |newPassword| < 8 then Fail(400, "Password must be at least 8 characters")
    else Ok(200, PasswordNotice("Use /auth/change-password endpoint with proper session", newPassword))
  }

  /** POST /user/request-password-reset: no lookup, so the answer for an
      address is the same whether or not an account holds it. */
  function RequestPasswordReset(email: string, isEmail: string -> bool): (r: Reply<EmailNotice>)
    ensures r.Ok? <==> isEmail(email)
    ensures r.Err? ==> r == Fail(400, "Invalid email")
    ensures r.Ok? ==> r.status == 200 && r.value == EmailNotice("Use /auth/forget-password endpoint for password reset", email)
  {
    if !isEmail(email) then Fail(400, "Invalid email")
    else Ok(200, EmailNotice("Use /auth/forget-password endpoint for password reset", email))
  }

  /** POST /user/resend-verification: the caller's address from the session. */
  function ResendVerification(user: Identity): (r: Reply<EmailNotice>)
    ensures r.Ok? && r.status == 200 && r.value.email == user.email
    ensures r.value.message == "Use /auth/send-verification-email endpoint for email verification"
  {
    Ok(200, EmailNotice("Use /auth/send-verification-email endpoint for email verification", user.email))
  }

  // ---------------------------------------------------------------------
  // DELETE /user/account

  /** The account and every row that belongs to it go in one transaction;
      a transaction that throws (`txOk` false) is rolled back. No existence
      check: an unknown caller also gets the success message. The bucket is
      not touched, so the bodies of the removed attachments stay. */
  method DeleteAccount(st: Store.Store, user: Identity, txOk: bool) returns (r: Reply<Message>)
    modifies st
    ensures txOk ==> r == Ok(200, Message("Account deleted successfully"))
                     && st.Tables() == PurgeAsWritten(old(st.Tables()), user.id)
    ensures !txOk ==> r == Fail(500, "Failed to delete account") && st.Tables() == old(st.Tables())
  {
    if !txOk {
      r := Fail(500, "Failed to delete account");
      return;
    }
    PurgeUser(st, user.id);
    r := Ok(200, Message("Account deleted successfully"));
  }
}
