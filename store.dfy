/** The two stores behind the handlers: the D1 database, one sequence of
    rows per table, and the R2 bucket that holds attachment bodies. */
module Store {
  import opened Schema

  /** The database. Its inserts enforce the primary keys and the UNIQUE
      columns; foreign keys are not enforced (SQLite's default). */
  class Store {
    var users: seq<User>
    var sessions: seq<Session>
    var oauthClients: seq<OAuthClient>
    var oauthTokens: seq<OAuthToken>
    var entries: seq<JournalEntry>
    var attachments: seq<Attachment>

    constructor (db: Db)
      ensures Tables() == db
    {
      users, sessions, oauthClients := db.users, db.sessions, db.oauthClients;
      oauthTokens, entries, attachments := db.oauthTokens, db.entries, db.attachments;
    }

    function Tables(): Db
      reads this
    {
      Db(users, sessions, oauthClients, oauthTokens, entries, attachments)
    }

    /** `insert(users)`: refused when the id or the email is taken. */
    method InsertUser(u: User) returns (ok: bool)
      modifies this`users
      ensures ok <==> u.id !in Keys(old(users), UserId) && u.email !in Keys(old(users), UserEmail)
      ensures users == if ok then old(users) + [u] else old(users)
    {
      ok := u.id !in Keys(users, UserId) && u.email !in Keys(users, UserEmail);
      if ok {
        users := users + [u];
      }
    }

    /** `insert(journalEntries)`: refused when the id is taken. */
    method InsertEntry(e: JournalEntry) returns (ok: bool)
      modifies this`entries
      ensures ok <==> e.id !in Keys(old(entries), EntryId)
      ensures entries == if ok then old(entries) + [e] else old(entries)
    {
      ok := e.id !in Keys(entries, EntryId);
      if ok {
        entries := entries + [e];
      }
    }

    /** `insert(attachments)`: refused when the id is taken. */
    method InsertAttachment(a: Attachment) returns (ok: bool)
      modifies this`attachments
      ensures ok <==> a.id !in Keys(old(attachments), AttachmentId)
      ensures attachments == if ok then old(attachments) + [a] else old(attachments)
    {
      ok := a.id !in Keys(attachments, AttachmentId);
      if ok {
        attachments := attachments + [a];
      }
    }
  }

  /** The R2 bucket: which keys hold an object, and the content type each was
      stored with. The bytes themselves are not modelled. */
  class Bucket {
    var objects: map<string, string>

    constructor (objects: map<string, string>)
      ensures this.objects == objects
    {
      this.objects := objects;
    }

    method Put(key: string, contentType: string)
      modifies this
      ensures objects == old(objects)[key := contentType]
    {
      objects := objects[key := contentType];
    }

    /** Deleting a key that holds nothing succeeds and changes nothing. */
    method Delete(key: string)
      modifies this
      ensures objects == old(objects) - {key}
    {
      objects := objects - {key};
    }
  }
}
