/** The admin routes (src/routes/admin.ts) other than the HTML pages: the
    login decision and its session cookie, logout, the dashboard's cookie
    check, and listing, creating and deleting users. */
module Admin {
  import opened Schema
  import opened Http
  import opened Paging
  import opened Cascade
  import opened AdminSession
  import SessionLaws
  import Store

  // ---------------------------------------------------------------------
  // POST /admin/auth and POST /admin/logout

  /** The columns the login selects. */
  datatype AdminUser = AdminUser(id: Id, email: string, name: string, isAdmin: bool)

  /** The `{ user }` body and the Set-Cookie header. */
  datatype Login = Login(user: AdminUser, setCookie: string)

  /** The object the session token encodes. */
  function Payload(u: AdminUser): Json {
    JObj([("userId", JStr(u.id)), ("email", JStr(u.email)), ("name", JStr(u.name))])
  }

  /** `where email = email limit 1`: the first row with that email. */
  function UserByEmail(users: seq<User>, email: string): (r: Option<User>)
    ensures r.None? <==> email !in Keys(users, UserEmail)
    ensures r.Some? ==> r.value in users && r.value.email == email
  {
    var found := Filter(users, (u: User) => u.email == email);
    if found == [] then
      assert forall u | u in users :: u.email != email;
      None
    else
      assert found[0] in found;
      Some(found[0])
  }

  /** POST /admin/auth. `password` is whatever the JSON body holds under that
      name (None when absent); it is tested for truthiness and never compared
      with anything. An `encode` that throws is answered 500 by the
      framework. */
  function AdminAuth(users: seq<User>, email: string, password: Option<Json>, codec: Codec): (r: Reply<Login>)
    ensures (password.None? || !Truthy(password.value)) ==> r == Fail(400, "Password is required")
    ensures password.Some? && Truthy(password.value) ==>
              var row := UserByEmail(users, email);
              && ((row.None? || !row.value.isAdmin) ==> r == Fail(401, "Invalid credentials or insufficient permissions"))
              && (row.Some? && row.value.isAdmin ==>
                    var selected := AdminUser(row.value.id, row.value.email, row.value.name, true);
                    if codec.encode(Payload(selected)).None? then r == Fail(500, "Internal Server Error")
                    else r == Ok(200, Login(selected, SessionCookie(codec.encode(Payload(selected)).value))))
    ensures r.Ok? ==> exists u :: && u in users && u.email == email && u.isAdmin
                                  && r.value.user == AdminUser(u.id, u.email, u.name, true)
  {
    if password.None? || !Truthy(password.value) then Fail(400, "Password is required")
    else
      var row := UserByEmail(users, email);
      if row.None? || !row.value.isAdmin then Fail(401, "Invalid credentials or insufficient permissions")
      else
        var u := row.value;
        var selected := AdminUser(u.id, u.email, u.name, u.isAdmin);
        var token := codec.encode(Payload(selected));
        if token.None? then Fail(500, "Internal Server Error")
        else Ok(200, Login(selected, SessionCookie(token.value)))
  }

  /** POST /admin/logout: expire the cookie. The cookie it sets carries no
      session value. */
  function Logout(): (r: Reply<(Message, string)>)
    ensures r.Ok? && r.status == 200 && r.value.0 == Message("Logged out successfully")
    ensures SessionCookieValue(r.value.1) == None
  {
    SessionLaws.LogoutCookieEmpty();
    Ok(200, (Message("Logged out successfully"), LogoutCookie))
  }

  // ---------------------------------------------------------------------
  // GET /admin

  datatype Dashboard = RedirectToLogin | Page(session: Json)

  /** The session a Cookie header carries: the regular expression's capture,
      decoded. None when there is no match or the decode throws. */
  function CookieSession(cookieHeader: Option<string>, codec: Codec): (r: Option<Json>)
    ensures r.Some? <==> SessionCookieValue(cookieHeader.GetOr("")).Some?
                         && codec.decode(SessionCookieValue(cookieHeader.GetOr("")).value).Some?
  {
    var m := SessionCookieValue(cookieHeader.GetOr(""));
    if m.None? then None else codec.decode(m.value)
  }

  /** GET /admin: the page is served to any request whose cookie decodes,
      whatever it decodes to. */
  function DashboardFor(cookieHeader: Option<string>, codec: Codec): (r: Dashboard)
    ensures r.RedirectToLogin? <==> CookieSession(cookieHeader, codec).None?
    ensures r.Page? ==> Some(r.session) == CookieSession(cookieHeader, codec)
  {
    var session := CookieSession(cookieHeader, codec);
    if session.None? then RedirectToLogin else Page(session.value)
  }

  // ---------------------------------------------------------------------
  // GET /admin/users

  /** The columns the listing selects. */
  datatype UserListing = UserListing(
    id: Id,
    email: string,
    name: string,
    emailVerified: bool,
    isAdmin: bool,
    image: Option<string>,
    createdAt: Time)

  function Listing(u: User): UserListing {
    UserListing(u.id, u.email, u.name, u.emailVerified, u.isAdmin, u.image, u.createdAt)
  }

  function Listings(users: seq<User>): (r: seq<UserListing>)
    ensures |r| == |users|
    ensures forall i | 0 <= i < |r| :: r[i] == Listing(users[i])
  {
    if users == [] then [] else [Listing(users[0])] + Listings(users[1..])
  }

  function ListedAt(l: UserListing): int {
    l.createdAt
  }

  /** GET /admin/users: every user, newest first. */
  function ListUsers(users: seq<User>): (r: seq<UserListing>)
    ensures SortedDesc(r, ListedAt)
    ensures multiset(r) == multiset(Listings(users))
  {
    SortDesc(Listings(users), ListedAt)
  }

  // ---------------------------------------------------------------------
  // POST /admin/users

  /** The JSON body; `isAdmin` may be left out. */
  datatype NewUserInput = NewUserInput(email: string, name: string, isAdmin: Option<bool>)

  /** The first message the body's schema reports, checking `email` before
      `name`; None when the body is accepted. */
  function NewUserIssue(input: NewUserInput, isEmail: string -> bool): (r: Option<string>)
    ensures r.None? <==> isEmail(input.email) && input.name != []
    ensures !isEmail(input.email) ==> r == Some("Invalid email")
    ensures isEmail(input.email) && input.name == [] ==> r == Some("String must contain at least 1 character(s)")
  {
    if !isEmail(input.email) then Some("Invalid email")
    else if input.name == [] then Some("String must contain at least 1 character(s)")
    else None
  }

  /** The columns the insert returns. */
  datatype CreatedUser = CreatedUser(
    id: Id,
    email: string,
    name: string,
    isAdmin: bool,
    emailVerified: bool,
    createdAt: Time)

  /** The row an accepted create inserts: pre-verified, and an admin only
      when the body says so. */
  function CreatedRow(freshId: Id, input: NewUserInput, now: Time): (u: User)
    ensures u.id == freshId && u.email == input.email && u.name == input.name
    ensures u.emailVerified && (u.isAdmin <==> input.isAdmin == Some(true))
    ensures u.createdAt == now && u.updatedAt == now && u.image == None
  {
    NewUser(freshId, input.email, input.name, Some(true), Some(input.isAdmin.GetOr(false)), now)
  }

  /** POST /admin/users. A refused body (400) or a taken email (400) writes
      nothing; the insert fails (500) when the database throws (`dbOk`
      false) or the fresh id is taken. */
  method CreateUser(st: Store.Store, input: NewUserInput, isEmail: string -> bool, freshId: Id, now: Time, dbOk: bool)
    returns (r: Reply<CreatedUser>)
    modifies st`users
    ensures NewUserIssue(input, isEmail).Some? ==>
              r == Fail(400, NewUserIssue(input, isEmail).value) && st.users == old(st.users)
    ensures NewUserIssue(input, isEmail).None? && input.email in Keys(old(st.users), UserEmail) ==>
              r == Fail(400, "User with this email already exists") && st.users == old(st.users)
    ensures NewUserIssue(input, isEmail).None? && input.email !in Keys(old(st.users), UserEmail) ==>
              var row := CreatedRow(freshId, input, now);
              if dbOk && freshId !in Keys(old(st.users), UserId) then
                && r == Ok(201, CreatedUser(row.id, row.email, row.name, row.isAdmin, row.emailVerified, row.createdAt))
                && st.users == old(st.users) + [row]
              else
                r == Fail(500, "Failed to create user") && st.users == old(st.users)
  {
    var issue := NewUserIssue(input, isEmail);
    if issue.Some? {
      r := Fail(400, issue.value);
      return;
    }
    if UserByEmail(st.users, input.email).Some? {
      r := Fail(400, "User with this email already exists");
      return;
    }
    if !dbOk {
      r := Fail(500, "Failed to create user");
      return;
    }
    var row := CreatedRow(freshId, input, now);
    var ok := st.InsertUser(row);
    if ok {
      r := Ok(201, CreatedUser(row.id, row.email, row.name, row.isAdmin, row.emailVerified, row.createdAt));
    } else {
      r := Fail(500, "Failed to create user");
    }
  }

  // ---------------------------------------------------------------------
  // DELETE /admin/users/:id

  /** DELETE /admin/users/:id. An unknown id is answered 404 before the
      transaction; a transaction that throws (`txOk` false) is rolled back. */
  method DeleteUser(st: Store.Store, id: Id, txOk: bool) returns (r: Reply<Message>)
    modifies st
    ensures id !in Keys(old(st.users), UserId) ==>
              r == Fail(404, "User not found") && st.Tables() == old(st.Tables())
    ensures id in Keys(old(st.users), UserId) && !txOk ==>
              r == Fail(500, "Failed to delete user") && st.Tables() == old(st.Tables())
    ensures id in Keys(old(st.users), UserId) && txOk ==>
              r == Ok(200, Message("User deleted successfully")) && st.Tables() == PurgeAsWritten(old(st.Tables()), id)
  {
    var found := Filter(st.users, (u: User) => u.id == id);
    if found == [] {
      assert forall u | u in st.users :: u.id != id;
      r := Fail(404, "User not found");
      return;
    }
    assert found[0] in found;
    if !txOk {
      r := Fail(500, "Failed to delete user");
      return;
    }
    PurgeUser(st, id);
    r := Ok(200, Message("User deleted successfully"));
  }
}
