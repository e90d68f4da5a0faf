/** Row types of the relational tables (src/db/schema.ts), the in-memory
    database that stands in for the D1 store, the `where` filter the handlers
    use, and the constraints the table declarations state: primary keys,
    UNIQUE columns and foreign keys.

    A table is a sequence of rows in rowid order: a new row is appended, a
    deleted row disappears, an updated row keeps its place. */
module Schema {

  datatype Option<+T> = None | Some(value: T) {
    function GetOr(default: T): T {
      match this
      case Some(v) => v
      case None => default
    }
  }

  type Id = string

  /** `integer(..., { mode: 'timestamp' })` columns, as whole numbers. */
  type Time = int

  datatype User = User(
    id: Id,
    email: string,
    name: string,
    emailVerified: bool,
    image: Option<string>,
    isAdmin: bool,
    createdAt: Time,
    updatedAt: Time)

  datatype Session = Session(
    id: Id,
    token: string,
    userId: Id,
    expiresAt: Time,
    createdAt: Time,
    updatedAt: Time)

  datatype OAuthClient = OAuthClient(
    id: Id,
    clientId: string,
    clientSecret: string,
    name: string,
    redirectUris: string,
    createdAt: Time)

  datatype OAuthToken = OAuthToken(
    id: Id,
    accessToken: string,
    refreshToken: Option<string>,
    clientId: Id,
    userId: Id,
    scope: Option<string>,
    expiresAt: Time,
    createdAt: Time)

  datatype JournalEntry = JournalEntry(
    id: Id,
    userId: Id,
    content: string,
    createdAt: Time,
    updatedAt: Time)

  /** Every column but `createdAt` is NOT NULL, so each is a plain value here. */
  datatype Attachment = Attachment(
    id: Id,
    journalEntryId: Id,
    filename: string,
    originalFilename: string,
    mimeType: string,
    size: int,
    r2Key: string,
    createdAt: Time)

  datatype Db = Db(
    users: seq<User>,
    sessions: seq<Session>,
    oauthClients: seq<OAuthClient>,
    oauthTokens: seq<OAuthToken>,
    entries: seq<JournalEntry>,
    attachments: seq<Attachment>)

  // ---------------------------------------------------------------------
  // `where`: keep the rows a predicate accepts, in table order

  function Filter<T(!new)>(rows: seq<T>, keep: T -> bool): (r: seq<T>)
    ensures |r| <= |rows|
    ensures forall x :: x in r <==> x in rows && keep(x)
  {
    if rows == [] then []
    else
      assert rows == [rows[0]] + rows[1..];
      if keep(rows[0]) then [rows[0]] + Filter(rows[1..], keep)
      else Filter(rows[1..], keep)
  }

  lemma {:induction false} FilterAll<T(!new)>(rows: seq<T>, keep: T -> bool)
    requires forall x :: x in rows ==> keep(x)
    ensures Filter(rows, keep) == rows
  {
    if rows != [] {
      FilterAll(rows[1..], keep);
    }
  }

  lemma {:induction false} FilterNone<T(!new)>(rows: seq<T>, keep: T -> bool)
    requires forall x | x in rows :: !keep(x)
    ensures Filter(rows, keep) == []
  {
    if rows != [] {
      assert rows[0] in rows;
      FilterNone(rows[1..], keep);
    }
  }

  /** Two predicates that agree on every row filter alike. */
  lemma {:induction false} FilterSame<T(!new)>(rows: seq<T>, keep: T -> bool, other: T -> bool)
    requires forall x | x in rows :: keep(x) == other(x)
    ensures Filter(rows, keep) == Filter(rows, other)
  {
    if rows != [] {
      assert rows[0] in rows;
      FilterSame(rows[1..], keep, other);
    }
  }

  lemma {:induction false} FilterAppend<T(!new)>(rows: seq<T>, x: T, keep: T -> bool)
    ensures Filter(rows + [x], keep) == Filter(rows, keep) + (if keep(x) then [x] else [])
  {
    if rows == [] {
      assert [x][1..] == [];
    } else {
      assert (rows + [x])[1..] == rows[1..] + [x];
      FilterAppend(rows[1..], x, keep);
    }
  }

  lemma {:induction false} FilterConcat<T(!new)>(a: seq<T>, b: seq<T>, keep: T -> bool)
    ensures Filter(a + b, keep) == Filter(a, keep) + Filter(b, keep)
  {
    if a == [] {
      assert a + b == b;
    } else {
      assert (a + b)[0] == a[0] && (a + b)[1..] == a[1..] + b;
      FilterConcat(a[1..], b, keep);
    }
  }

  /** Dropping `x`, which the predicate refuses, leaves the filtered rows alone. */
  lemma FilterSkip<T(!new)>(a: seq<T>, x: T, b: seq<T>, keep: T -> bool)
    requires !keep(x)
    ensures Filter(a + [x] + b, keep) == Filter(a + b, keep)
  {
    FilterConcat(a + [x], b, keep);
    FilterAppend(a, x, keep);
    FilterConcat(a, b, keep);
  }

  /** The rows a predicate keeps and the rows its negation keeps make up the
      table between them. */
  lemma {:induction false} FilterSplit<T(!new)>(rows: seq<T>, keep: T -> bool, other: T -> bool)
    requires forall x :: other(x) <==> !keep(x)
    ensures multiset(Filter(rows, keep)) + multiset(Filter(rows, other)) == multiset(rows)
  {
    if rows != [] {
      FilterSplit(rows[1..], keep, other);
      assert rows == [rows[0]] + rows[1..];
    }
  }

  // ---------------------------------------------------------------------
  // Primary keys and UNIQUE columns

  /** No two rows of the table agree on `key`. */
  predicate KeyUnique<T>(rows: seq<T>, key: T -> string) {
    forall i, j | 0 <= i < j < |rows| :: key(rows[i]) != key(rows[j])
  }

  function Keys<T(==,!new)>(rows: seq<T>, key: T -> string): (r: set<string>)
    ensures forall x :: x in rows ==> key(x) in r
    ensures forall k :: k in r ==> exists x :: x in rows && key(x) == k
  {
    set x | x in rows :: key(x)
  }

  lemma {:induction false} FilterKeyUnique<T(!new)>(rows: seq<T>, keep: T -> bool, key: T -> string)
    requires KeyUnique(rows, key)
    ensures KeyUnique(Filter(rows, keep), key)
  {
    if rows != [] {
      var tail := Filter(rows[1..], keep);
      FilterKeyUnique(rows[1..], keep, key);
      if keep(rows[0]) {
        forall y | y in tail ensures key(y) != key(rows[0]) {
          var j :| 0 <= j < |rows[1..]| && rows[1..][j] == y;
          assert rows[j + 1] == y;
        }
        var r := [rows[0]] + tail;
        forall i, j | 0 <= i < j < |r| ensures key(r[i]) != key(r[j]) {
          if i == 0 {
            assert r[j] in tail;
          } else {
            assert r[i] == tail[i - 1] && r[j] == tail[j - 1];
          }
        }
      }
    }
  }

  lemma AppendKeyUnique<T(!new)>(rows: seq<T>, x: T, key: T -> string)
    requires KeyUnique(rows, key)
    requires key(x) !in Keys(rows, key)
    ensures KeyUnique(rows + [x], key)
  {
    var r := rows + [x];
    forall i, j | 0 <= i < j < |r| ensures key(r[i]) != key(r[j]) {
      if j == |rows| {
        assert r[i] in rows;
      } else {
        assert r[i] == rows[i] && r[j] == rows[j];
      }
    }
  }

  // Column projections used as keys
  function UserId(u: User): string { u.id }
  function UserEmail(u: User): string { u.email }
  function SessionId(s: Session): string { s.id }
  function SessionToken(s: Session): string { s.token }
  function ClientRowId(c: OAuthClient): string { c.id }
  function ClientPublicId(c: OAuthClient): string { c.clientId }
  function TokenId(t: OAuthToken): string { t.id }
  function AccessToken(t: OAuthToken): string { t.accessToken }
  function EntryId(e: JournalEntry): string { e.id }
  function AttachmentId(a: Attachment): string { a.id }

  /** Primary keys of all six tables and the UNIQUE columns
      `users.email`, `sessions.token`, `oauth_clients.client_id` and
      `oauth_tokens.access_token`. */
  predicate Unique(db: Db) {
    && KeyUnique(db.users, UserId)
    && KeyUnique(db.users, UserEmail)
    && KeyUnique(db.sessions, SessionId)
    && KeyUnique(db.sessions, SessionToken)
    && KeyUnique(db.oauthClients, ClientRowId)
    && KeyUnique(db.oauthClients, ClientPublicId)
    && KeyUnique(db.oauthTokens, TokenId)
    && KeyUnique(db.oauthTokens, AccessToken)
    && KeyUnique(db.entries, EntryId)
    && KeyUnique(db.attachments, AttachmentId)
  }

  // ---------------------------------------------------------------------
  // Foreign keys

  /** Every `references(...)` column names an existing parent row. */
  predicate Referential(db: Db) {
    && (forall s | s in db.sessions :: s.userId in Keys(db.users, UserId))
    && (forall t | t in db.oauthTokens :: t.userId in Keys(db.users, UserId))
    && (forall t | t in db.oauthTokens :: t.clientId in Keys(db.oauthClients, ClientRowId))
    && (forall e | e in db.entries :: e.userId in Keys(db.users, UserId))
    && (forall a | a in db.attachments :: a.journalEntryId in Keys(db.entries, EntryId))
  }

  predicate WellFormed(db: Db) {
    Unique(db) && Referential(db)
  }

  // ---------------------------------------------------------------------
  // Column defaults

  /** The row `insert(users).values(...)` stores: `emailVerified` and
      `isAdmin` default to false when the insert leaves them out, the two
      timestamps default to the current time. */
  function NewUser(id: Id, email: string, name: string, emailVerified: Option<bool>,
                   isAdmin: Option<bool>, now: Time): (u: User)
    ensures u.id == id && u.email == email && u.name == name && u.image == None
    ensures u.isAdmin <==> isAdmin == Some(true)
    ensures u.emailVerified <==> emailVerified == Some(true)
    ensures u.createdAt == now && u.updatedAt == now
  {
    User(id, email, name, emailVerified.GetOr(false), None, isAdmin.GetOr(false), now, now)
  }
}
