/** What the cookie channel promises: the value the login sets is the value
    the dashboard and the admin gate read back, whatever else the browser
    sends after it, and the logout cookie carries none. */
module SessionLaws {
  import opened Schema
  import opened AdminSession

  lemma {:induction false} UpToSemicolonStops(t: string, rest: string)
    requires ';' !in t
    requires rest == [] || rest[0] == ';'
    ensures UpToSemicolon(t + rest) == t
  {
    if t != [] {
      assert (t + rest)[0] == t[0] && (t + rest)[1..] == t[1..] + rest;
      assert ';' !in t[1..] by {
        forall c | c in t[1..] ensures c in t {
        }
      }
      UpToSemicolonStops(t[1..], rest);
      assert t == [t[0]] + t[1..];
    } else {
      assert t + rest == rest;
    }
  }

  /** A Cookie header that starts with the session cookie yields its value,
      when the next cookie is separated by `;` as browsers do. */
  lemma CookieHeaderValue(t: string, rest: string)
    requires t != [] && ';' !in t
    requires rest == [] || rest[0] == ';'
    ensures SessionCookieValue(CookieName + t + rest) == Some(t)
  {
    var h := CookieName + t + rest;
    assert h[..|CookieName|] == CookieName;
    assert h[|CookieName|] == t[0];
    assert MatchAt(h, 0);
    assert h[|CookieName|..] == t + rest;
    UpToSemicolonStops(t, rest);
  }

  /** The value the login's Set-Cookie carries is read back unchanged. */
  lemma SetCookieRoundTrip(t: string)
    requires t != [] && ';' !in t
    ensures SessionCookieValue(SessionCookie(t)) == Some(t)
  {
    CookieHeaderValue(t, "; HttpOnly; Path=/; Max-Age=86400");
    assert SessionCookie(t) == CookieName + t + "; HttpOnly; Path=/; Max-Age=86400";
  }

  /** A match starts with the `d` of the name's second character. */
  lemma MatchAtShape(h: string, q: nat)
    ensures MatchAt(h, q) ==> h[q + 1] == 'd'
  {
    if MatchAt(h, q) {
      assert h[q..q + |CookieName|][1] == 'd';
    }
  }

  lemma NameHasOneD()
    ensures CookieName[1] == 'd' && 'd' !in CookieName[2..]
  {
  }

  /** After an empty value, the expression can match only where another
      `d` appears. */
  lemma {:induction false} NoMatchAfterEmptyValue(tail: string, q: nat)
    requires tail != [] && tail[0] == ';' && 'd' !in tail
    ensures !MatchAt(CookieName + tail, q)
  {
    var h := CookieName + tail;
    MatchAtShape(h, q);
    NameHasOneD();
    if q == 0 {
      assert h[|CookieName|] == tail[0];
    } else if q + 1 < |CookieName| {
      assert h[q + 1] == CookieName[2..][q - 1];
    } else if q + 1 < |h| {
      assert h[q + 1] == tail[q + 1 - |CookieName|];
    }
  }

  /** A cookie whose value is empty, with no other `d` after it, carries
      no session. */
  lemma EmptyValueNoSession(tail: string)
    requires tail != [] && tail[0] == ';' && 'd' !in tail
    ensures SessionCookieValue(CookieName + tail) == None
  {
    forall q: nat ensures !MatchAt(CookieName + tail, q) {
      NoMatchAfterEmptyValue(tail, q);
    }
  }

  /** The logout cookie has no value the expression accepts. */
  lemma LogoutCookieEmpty()
    ensures SessionCookieValue(LogoutCookie) == None
  {
    var tail := "; HttpOnly; Path=/; Max-Age=0";
    assert LogoutCookie == CookieName + tail;
    assert 'd' !in tail;
    EmptyValueNoSession(tail);
  }
}
