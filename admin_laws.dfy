/** What the admin routes and the two middlewares promise together: the
    login cookie opens the dashboard and the admin API, but so does any
    cookie that decodes, since neither the password nor the cookie's content
    is checked; the context-user channel admits only admins; the bearer
    check only wants a nonempty rest of the header. */
module AdminLaws {
  import opened Schema
  import opened Http
  import opened Cascade
  import opened AdminSession
  import opened Admin
  import opened Gates
  import opened Paging
  import SessionLaws

  // ---------------------------------------------------------------------
  // Login

  /** Any two truthy passwords get the same answer: the password is only
      tested for presence. */
  lemma PasswordNeverCompared(users: seq<User>, email: string, p1: Json, p2: Json, codec: Codec)
    requires Truthy(p1) && Truthy(p2)
    ensures AdminAuth(users, email, Some(p1), codec) == AdminAuth(users, email, Some(p2), codec)
  {
  }

  /** A Cookie header holding a token the codec produced for `j` decodes to
      `j`, whatever cookies follow it. */
  lemma TokenDecodes(j: Json, codec: Codec, rest: string)
    requires Lawful(codec) && codec.encode(j).Some?
    requires rest == [] || rest[0] == ';'
    ensures CookieSession(Some(CookieName + codec.encode(j).value + rest), codec) == Some(j)
  {
    SessionLaws.CookieHeaderValue(codec.encode(j).value, rest);
  }

  /** After a successful login, sending back the cookie's value opens the
      dashboard with the session the login encoded. */
  lemma LoginThenDashboard(users: seq<User>, email: string, password: Option<Json>, codec: Codec, rest: string)
    requires Lawful(codec)
    requires AdminAuth(users, email, password, codec).Ok?
    requires rest == [] || rest[0] == ';'
    ensures var login := AdminAuth(users, email, password, codec).value;
            var t := codec.encode(Payload(login.user)).value;
            && login.setCookie == SessionCookie(t)
            && DashboardFor(Some(CookieName + t + rest), codec) == Page(Payload(login.user))
  {
    var login := AdminAuth(users, email, password, codec).value;
    TokenDecodes(Payload(login.user), codec, rest);
  }

  // ---------------------------------------------------------------------
  // The admin gate

  /** Through the context channel, the handler runs only for a user whose
      row says admin. */
  lemma ContextChannelOnlyAdmins(cookieHeader: Option<string>, context: Option<Identity>, users: seq<User>,
                                 codec: Codec)
    requires AdminGate(cookieHeader, context, users, codec).Proceed?
    requires AdminGate(cookieHeader, context, users, codec).user.FromContext?
    ensures context.Some? && context.value == AdminGate(cookieHeader, context, users, codec).user.identity
    ensures exists u :: u in users && u.id == context.value.id && u.isAdmin
  {
  }

  /** Without a usable cookie, a request without a context user gets 401,
      whatever the users table holds: the 401 check comes before the
      lookup that could give 403. */
  lemma Unauthenticated(cookieHeader: Option<string>, users: seq<User>, codec: Codec)
    requires CookieSession(cookieHeader, codec).None?
    ensures AdminGate(cookieHeader, None, users, codec) == Deny(401, "Authentication required")
  {
  }

  /** Any value the codec produced passes the gate, for any payload, any
      context and any users table: the cookie is neither signed nor checked
      against the database. */
  lemma AnyEncodedCookieAdmits(j: Json, codec: Codec, rest: string, context: Option<Identity>, users: seq<User>)
    requires Lawful(codec) && codec.encode(j).Some?
    requires rest == [] || rest[0] == ';'
    ensures AdminGate(Some(CookieName + codec.encode(j).value + rest), context, users, codec) == Proceed(FromCookie(j))
  {
    TokenDecodes(j, codec, rest);
  }

  /** An admin who logs in and is then deleted keeps getting through the
      gate with the cookie, although the context channel would now refuse
      them. */
  lemma DeletedAdminKeepsAccess(db: Db, email: string, password: Option<Json>, codec: Codec)
    requires Lawful(codec)
    requires AdminAuth(db.users, email, password, codec).Ok?
    ensures var u := AdminAuth(db.users, email, password, codec).value.user;
            var t := codec.encode(Payload(u)).value;
            var gone := PurgeAsWritten(db, u.id);
            var ctx := Identity(u.id, u.email, u.name);
            && u.id !in Keys(gone.users, UserId)
            && AdminGate(Some(CookieName + t), Some(ctx), gone.users, codec) == Proceed(FromCookie(Payload(u)))
            && AdminGate(None, Some(ctx), gone.users, codec) == Deny(403, "Admin access required")
  {
    var u := AdminAuth(db.users, email, password, codec).value.user;
    var gone := PurgeAsWritten(db, u.id);
    AnyEncodedCookieAdmits(Payload(u), codec, [], Some(Identity(u.id, u.email, u.name)), gone.users);
    assert CookieName + codec.encode(Payload(u)).value + [] == CookieName + codec.encode(Payload(u)).value;
    SessionLaws.CookieHeaderValue(codec.encode(Payload(u)).value, []);
    assert SessionCookieValue("") == None by {
      assert forall q: nat :: !MatchAt("", q);
    }
  }

  // ---------------------------------------------------------------------
  // The bearer check

  lemma OccursShift(s: string, pattern: string, k: nat)
    requires s != []
    ensures OccursAt(s[1..], pattern, k) <==> OccursAt(s, pattern, k + 1)
  {
    if k + |pattern| <= |s[1..]| {
      assert s[1..][k..k + |pattern|] == s[k + 1..k + 1 + |pattern|];
    }
  }

  /** The first occurrence is the one removed. */
  lemma {:induction false} ReplaceFirstMeaning(s: string, pattern: string, i: nat)
    requires pattern != [] && OccursAt(s, pattern, i)
    requires forall k: nat | k < i :: !OccursAt(s, pattern, k)
    ensures ReplaceFirst(s, pattern) == s[..i] + s[i + |pattern|..]
    decreases i
  {
    if i > 0 {
      var t := s[1..];
      assert !OccursAt(s, pattern, 0);
      assert ReplaceFirst(s, pattern) == [s[0]] + ReplaceFirst(t, pattern);
      forall k: nat | k < i - 1 ensures !OccursAt(t, pattern, k) {
        OccursShift(s, pattern, k);
      }
      OccursShift(s, pattern, i - 1);
      ReplaceFirstMeaning(t, pattern, i - 1);
      assert s[..i] == [s[0]] + t[..i - 1];
      assert s[i + |pattern|..] == t[i - 1 + |pattern|..];
    }
  }

  /** With no occurrence the string is left as it is. */
  lemma {:induction false} ReplaceFirstAbsent(s: string, pattern: string)
    requires pattern != []
    requires forall k: nat :: !OccursAt(s, pattern, k)
    ensures ReplaceFirst(s, pattern) == s
    decreases |s|
  {
    if |s| >= |pattern| {
      assert !OccursAt(s, pattern, 0);
      forall k: nat ensures !OccursAt(s[1..], pattern, k) {
        OccursShift(s, pattern, k);
      }
      ReplaceFirstAbsent(s[1..], pattern);
      assert s == [s[0]] + s[1..];
    }
  }

  /** `Bearer <t>` yields `t`. */
  lemma BearerStripped(t: string)
    ensures ReplaceFirst(Bearer + t, Bearer) == t
  {
    assert (Bearer + t)[0..|Bearer|] == Bearer;
    assert OccursAt(Bearer + t, Bearer, 0);
  }

  /** The token is empty exactly for the empty header and for `Bearer `
      alone; a header without the prefix anywhere is the token itself. */
  lemma EmptyToken(h: string)
    ensures ReplaceFirst(h, Bearer) == [] <==> h == [] || h == Bearer
    ensures (forall k: nat :: !OccursAt(h, Bearer, k)) ==> ReplaceFirst(h, Bearer) == h
  {
    var r := ReplaceFirst(h, Bearer);
    if h == Bearer {
      assert h[0..|Bearer|] == Bearer;
      assert OccursAt(h, Bearer, 0);
    } else if |h| == |Bearer| {
      assert h[0..|Bearer|] == h;
      assert !OccursAt(h, Bearer, 0);
      assert r == [h[0]] + ReplaceFirst(h[1..], Bearer);
    } else if h != [] {
      assert |r| > 0;
    }
    if forall k: nat :: !OccursAt(h, Bearer, k) {
      ReplaceFirstAbsent(h, Bearer);
    }
  }

  /** A request whose header is `Bearer <t>` with a nonempty `t` reaches
      the session lookup, and a resolved session becomes the context user,
      whatever `t` is. */
  lemma BearerReachesSession(t: string, id: Id, email: string, name: string)
    requires t != []
    ensures AuthGate(Some(Bearer + t), Resolved(id, email, name)) == Proceed(FromContext(Identity(id, email, name)))
    ensures AuthGate(Some(Bearer + t), Failed) == Deny(401, "Authentication failed")
  {
    BearerStripped(t);
  }

  // ---------------------------------------------------------------------
  // Users

  /** The listing holds every user exactly once. */
  lemma ListUsersComplete(users: seq<User>)
    ensures |ListUsers(users)| == |users|
    ensures forall u | u in users :: Listing(u) in ListUsers(users)
  {
    var listed := ListUsers(users);
    assert |multiset(listed)| == |multiset(Listings(users))|;
    forall u | u in users ensures Listing(u) in listed {
      var i :| 0 <= i < |users| && users[i] == u;
      assert Listings(users)[i] in multiset(Listings(users));
    }
  }

  /** Replacing the users table alone keeps the constraints when both
      unique columns stay unique and no user id disappears. */
  lemma NewUsersWellFormed(db: Db, users: seq<User>)
    requires WellFormed(db)
    requires KeyUnique(users, UserId) && KeyUnique(users, UserEmail)
    requires forall k | k in Keys(db.users, UserId) :: k in Keys(users, UserId)
    ensures WellFormed(db.(users := users))
  {
  }

  /** An accepted create keeps every constraint: the email check and the
      primary key keep both unique columns, and a new user has no
      references to break. */
  lemma CreateUserKeepsWellFormed(db: Db, input: NewUserInput, freshId: Id, now: Time)
    requires WellFormed(db)
    requires input.email !in Keys(db.users, UserEmail) && freshId !in Keys(db.users, UserId)
    ensures WellFormed(db.(users := db.users + [CreatedRow(freshId, input, now)]))
  {
    var row := CreatedRow(freshId, input, now);
    AppendKeyUnique(db.users, row, UserId);
    AppendKeyUnique(db.users, row, UserEmail);
    assert Keys(db.users, UserId) <= Keys(db.users + [row], UserId);
    NewUsersWellFormed(db, db.users + [row]);
  }
}
