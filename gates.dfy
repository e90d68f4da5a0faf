/** The two middlewares that decide whether a handler runs:
    `adminMiddleware` (src/middleware/admin.ts), which accepts an admin
    session cookie or else an admin context user, and `authMiddleware`
    (src/middleware/auth.ts), which wants a bearer header and a session. */
module Gates {
  import opened Schema
  import opened Http
  import opened AdminSession

  /** Who the handler sees as the request user: the decoded cookie, taken as
      it is, or the user already in the context. */
  datatype RequestUser = FromCookie(session: Json) | FromContext(identity: Identity)

  datatype Gate = Proceed(user: RequestUser) | Deny(status: int, error: string)

  /** `where id = uid limit 1`. */
  function UserById(users: seq<User>, uid: Id): (r: Option<User>)
    ensures r.None? <==> uid !in Keys(users, UserId)
    ensures r.Some? ==> r.value in users && r.value.id == uid
  {
    var found := Filter(users, (u: User) => u.id == uid);
    if found == [] then
      assert forall u | u in users :: u.id != uid;
      None
    else
      assert found[0] in found;
      Some(found[0])
  }

  /** `adminMiddleware`. A cookie whose value decodes lets the request
      through at once, with no lookup; a value that does not decode falls
      through to the context user, who must have an admin row. */
  function AdminGate(cookieHeader: Option<string>, context: Option<Identity>, users: seq<User>, codec: Codec)
    : (r: Gate)
    ensures var m := SessionCookieValue(cookieHeader.GetOr(""));
            m.Some? && codec.decode(m.value).Some? ==> r == Proceed(FromCookie(codec.decode(m.value).value))
    ensures var m := SessionCookieValue(cookieHeader.GetOr(""));
            !(m.Some? && codec.decode(m.value).Some?) ==>
              && (context.None? ==> r == Deny(401, "Authentication required"))
              && (context.Some? ==>
                    var row := UserById(users, context.value.id);
                    if row.Some? && row.value.isAdmin then r == Proceed(FromContext(context.value))
                    else r == Deny(403, "Admin access required"))
  {
    var m := SessionCookieValue(cookieHeader.GetOr(""));
    if m.Some? && codec.decode(m.value).Some? then Proceed(FromCookie(codec.decode(m.value).value))
    else if context.None? then Deny(401, "Authentication required")
    else
      var row := UserById(users, context.value.id);
      if row.None? || !row.value.isAdmin then Deny(403, "Admin access required")
      else Proceed(FromContext(context.value))
  }

  // ---------------------------------------------------------------------
  // authMiddleware

  /** `pattern` occurs in `s` at index `k`. */
  predicate OccursAt(s: string, pattern: string, k: nat) {
    k + |pattern| <= |s| && s[k..k + |pattern|] == pattern
  }

  /** `s.replace(pattern, "")` with a string pattern: the first occurrence,
      if any, is removed. */
  function ReplaceFirst(s: string, pattern: string): (r: string)
    requires pattern != []
    ensures |r| == |s| || |r| == |s| - |pattern|
    decreases |s|
  {
    if |s| < |pattern| then s
    else if OccursAt(s, pattern, 0) then s[|pattern|..]
    else [s[0]] + ReplaceFirst(s[1..], pattern)
  }

  const Bearer: string := "Bearer "

  /** What `getSession` gives back for the request's headers: no session or
      a session without a user, an exception, or a session's user. */
  datatype SessionResult =
    | NoSession
    | Failed
    | Resolved(id: Id, email: string, name: string)

  /** `authMiddleware`. The token is checked only for being nonempty; the
      session lookup sees the raw headers, not the token. */
  function AuthGate(authorization: Option<string>, session: SessionResult): (r: Gate)
    ensures authorization.None? || ReplaceFirst(authorization.value, Bearer) == [] ==>
              r == Deny(401, "Authorization token required")
    ensures authorization.Some? && ReplaceFirst(authorization.value, Bearer) != [] ==>
              && (session.NoSession? ==> r == Deny(401, "Invalid or expired token"))
              && (session.Failed? ==> r == Deny(401, "Authentication failed"))
              && (session.Resolved? ==> r == Proceed(FromContext(Identity(session.id, session.email, session.name))))
  {
    if authorization.None? || ReplaceFirst(authorization.value, Bearer) == [] then
      Deny(401, "Authorization token required")
    else
      match session
      case NoSession => Deny(401, "Invalid or expired token")
      case Failed => Deny(401, "Authentication failed")
      case Resolved(id, email, name) => Proceed(FromContext(Identity(id, email, name)))
  }
}
