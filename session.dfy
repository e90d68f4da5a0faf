/** The admin session cookie (src/routes/admin.ts, src/middleware/admin.ts):
    the token is a JSON object run through `JSON.stringify` and `btoa`, and
    the value is read back out of a Cookie header with the regular
    expression `admin_session=([^;]+)` and `JSON.parse(atob(...))`. */
module AdminSession {
  import opened Schema

  /** The JSON values `JSON.parse` can yield. */
  datatype Json =
    | JNull
    | JBool(b: bool)
    | JNum(n: int)
    | JStr(s: string)
    | JArr(items: seq<Json>)
    | JObj(fields: seq<(string, Json)>)

  /** `!value` in JavaScript: null, false, 0 and the empty string are falsy. */
  predicate Truthy(j: Json) {
    match j
    case JNull => false
    case JBool(b) => b
    case JNum(n) => n != 0
    case JStr(s) => s != []
    case _ => true
  }

  /** `btoa(JSON.stringify(.))` and `JSON.parse(atob(.))`; either may throw,
      which is a None here (`btoa` refuses characters beyond Latin-1). */
  datatype Codec = Codec(encode: Json -> Option<string>, decode: string -> Option<Json>)

  /** What base64 of JSON guarantees: a nonempty token without `;` that
      decodes back to what was encoded. */
  ghost predicate Lawful(c: Codec) {
    forall j :: c.encode(j).Some? ==>
      c.encode(j).value != [] && ';' !in c.encode(j).value && c.decode(c.encode(j).value) == Some(j)
  }

  const CookieName: string := "admin_session="

  /** The header POST /admin/auth sets, valid for a day. */
  function SessionCookie(token: string): string {
    CookieName + token + "; HttpOnly; Path=/; Max-Age=86400"
  }

  /** The header POST /admin/logout sets: an empty value that expires now. */
  const LogoutCookie: string := "admin_session=; HttpOnly; Path=/; Max-Age=0"

  // ---------------------------------------------------------------------
  // The regular expression `admin_session=([^;]+)`

  /** The longest prefix of `s` without `;`: what `[^;]+` takes. */
  function UpToSemicolon(s: string): (r: string)
    ensures |r| <= |s| && r == s[..|r|]
    ensures ';' !in r
    ensures |r| < |s| ==> s[|r|] == ';'
  {
    if s == [] || s[0] == ';' then []
    else
      var rest := UpToSemicolon(s[1..]);
      assert s[1..][..|rest|] == s[1..|rest| + 1];
      [s[0]] + rest
  }

  /** The expression matches starting at `p`: the name, then at least one
      character that is not `;`. */
  predicate MatchAt(h: string, p: nat) {
    p + |CookieName| < |h| && h[p..p + |CookieName|] == CookieName && h[p + |CookieName|] != ';'
  }

  /** The first match at or after `p`, and its captured group. */
  function MatchFrom(h: string, p: nat): (r: Option<string>)
    ensures r.None? <==> forall q | p <= q :: !MatchAt(h, q)
    ensures r.Some? ==> exists q | p <= q :: MatchAt(h, q) && (forall q' | p <= q' < q :: !MatchAt(h, q'))
                                             && r.value == UpToSemicolon(h[q + |CookieName|..])
    decreases |h| - p
  {
    if p + |CookieName| >= |h| then None
    else if MatchAt(h, p) then Some(UpToSemicolon(h[p + |CookieName|..]))
    else
      var r := MatchFrom(h, p + 1);
      assert forall q | p <= q :: !MatchAt(h, q) <==> (q == p || (p + 1 <= q)) && !MatchAt(h, q);
      r
  }

  /** `cookies.match(/admin_session=([^;]+)/)?.[1]`: the leftmost match; its
      value is nonempty and holds no `;`. */
  function SessionCookieValue(h: string): (r: Option<string>)
    ensures r.None? <==> forall q :: !MatchAt(h, q)
    ensures r.Some? ==> r.value != [] && ';' !in r.value
    ensures r.Some? ==> exists q: nat :: MatchAt(h, q) && (forall q': nat | q' < q :: !MatchAt(h, q'))
                                         && r.value == UpToSemicolon(h[q + |CookieName|..])
  {
    var r := MatchFrom(h, 0);
    if r.Some? then
      var q :| 0 <= q && MatchAt(h, q) && (forall q' | 0 <= q' < q :: !MatchAt(h, q'))
               && r.value == UpToSemicolon(h[q + |CookieName|..]);
      assert h[q + |CookieName|..][0] != ';';
      r
    else r
  }
}
