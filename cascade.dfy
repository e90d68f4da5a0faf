/** The five-statement transaction that removes a user and everything that
    belongs to them, run by DELETE /user/account (src/routes/user.ts) and by
    DELETE /admin/users/:id (src/routes/admin.ts) in the same order:
    attachments, journal entries, OAuth tokens, sessions, the user row. */
module Cascade {
  import opened Schema
  import Store

  datatype Step = AttachmentRows | EntryRows | TokenRows | SessionRows | UserRow

  /** Children before parents. */
  const Order: seq<Step> := [AttachmentRows, EntryRows, TokenRows, SessionRows, UserRow]

  /** The ids the subquery `select id from journal_entries where user_id = uid`
      yields. */
  function OwnedEntryIds(entries: seq<JournalEntry>, uid: Id): (ids: set<Id>)
    ensures forall id :: id in ids <==> exists e :: e in entries && e.userId == uid && e.id == id
  {
    set e | e in entries && e.userId == uid :: e.id
  }

  /** One delete statement, with the attachment step matching every entry
      id the subquery yields. */
  function Apply(step: Step, uid: Id, db: Db): Db {
    match step
    case AttachmentRows =>
      var ids := OwnedEntryIds(db.entries, uid);
      db.(attachments := Filter(db.attachments, (a: Attachment) => a.journalEntryId !in ids))
    case EntryRows => db.(entries := Filter(db.entries, (e: JournalEntry) => e.userId != uid))
    case TokenRows => db.(oauthTokens := Filter(db.oauthTokens, (t: OAuthToken) => t.userId != uid))
    case SessionRows => db.(sessions := Filter(db.sessions, (s: Session) => s.userId != uid))
    case UserRow => db.(users := Filter(db.users, (u: User) => u.id != uid))
  }

  function Run(steps: seq<Step>, uid: Id, db: Db): Db
    decreases |steps|
  {
    if steps == [] then db else Run(steps[1..], uid, Apply(steps[0], uid, db))
  }

  /** The transaction as intended, step by step: the attachment statement
      matches every entry id the subquery yields (`IN`). Its result is what deleting, all
      at once from the original tables, every row that belongs to `uid` gives:
      the user row, the rows whose `userId` is `uid`, and the attachments of
      `uid`'s entries. OAuth clients are never touched. */
  function Purge(db: Db, uid: Id): (r: Db)
    ensures var ids := OwnedEntryIds(db.entries, uid);
            && r.attachments == Filter(db.attachments, (a: Attachment) => a.journalEntryId !in ids)
            && r.entries == Filter(db.entries, (e: JournalEntry) => e.userId != uid)
            && r.oauthTokens == Filter(db.oauthTokens, (t: OAuthToken) => t.userId != uid)
            && r.sessions == Filter(db.sessions, (s: Session) => s.userId != uid)
            && r.users == Filter(db.users, (u: User) => u.id != uid)
            && r.oauthClients == db.oauthClients
  {
    Run(Order, uid, db)
  }

  // ---------------------------------------------------------------------
  // The attachment statement as the source writes it

  /** `eq(attachments.journalEntryId, (select id ...))`: SQLite reads a
      subquery used as a value as its first row, in table order, or NULL
      when it has none. */
  function FirstOwnedEntry(entries: seq<JournalEntry>, uid: Id): (r: Option<Id>)
    ensures r.None? <==> forall e | e in entries :: e.userId != uid
    ensures r.Some? ==> exists k :: 0 <= k < |entries| && entries[k].userId == uid && entries[k].id == r.value
                                    && forall j | 0 <= j < k :: entries[j].userId != uid
  {
    if entries == [] then None
    else if entries[0].userId == uid then Some(entries[0].id)
    else
      var r := FirstOwnedEntry(entries[1..], uid);
      assert forall e | e in entries[1..] :: e in entries;
      assert entries == [entries[0]] + entries[1..];
      if r.Some? then
        var k :| 0 <= k < |entries[1..]| && entries[1..][k].userId == uid && entries[1..][k].id == r.value
                 && forall j | 0 <= j < k :: entries[1..][j].userId != uid;
        assert entries[k + 1] == entries[1..][k];
        assert forall j | 0 <= j < k + 1 :: entries[j].userId != uid by {
          forall j | 0 <= j < k + 1 ensures entries[j].userId != uid {
            if j > 0 {
              assert entries[j] == entries[1..][j - 1];
            }
          }
        }
        r
      else r
  }

  /** The attachment statement as written: only the attachments of the
      user's first entry match; a NULL subquery matches nothing. */
  function ApplyAsWritten(step: Step, uid: Id, db: Db): Db {
    if step == AttachmentRows then
      var first := FirstOwnedEntry(db.entries, uid);
      db.(attachments := Filter(db.attachments, (a: Attachment) => first != Some(a.journalEntryId)))
    else Apply(step, uid, db)
  }

  /** The transaction with the attachment statement as written: the other
      four statements are those of `Purge`. */
  function PurgeAsWritten(db: Db, uid: Id): (r: Db)
    ensures var first := FirstOwnedEntry(db.entries, uid);
            && r.attachments == Filter(db.attachments, (a: Attachment) => first != Some(a.journalEntryId))
            && r.entries == Filter(db.entries, (e: JournalEntry) => e.userId != uid)
            && r.oauthTokens == Filter(db.oauthTokens, (t: OAuthToken) => t.userId != uid)
            && r.sessions == Filter(db.sessions, (s: Session) => s.userId != uid)
            && r.users == Filter(db.users, (u: User) => u.id != uid)
            && r.oauthClients == db.oauthClients
  {
    Run([EntryRows, TokenRows, SessionRows, UserRow], uid, ApplyAsWritten(AttachmentRows, uid, db))
  }

  // ---------------------------------------------------------------------
  // The transaction on the store

  /** The five statements, in order, on the live tables, with the attachment
      statement as the source writes it. A transaction that fails part-way
      is rolled back, so callers either run this or change nothing. */
  method PurgeUser(st: Store.Store, uid: Id)
    modifies st
    ensures st.Tables() == PurgeAsWritten(old(st.Tables()), uid)
  {
    ghost var db := st.Tables();
    var first := FirstOwnedEntry(st.entries, uid);
    st.attachments := Filter(st.attachments, (a: Attachment) => first != Some(a.journalEntryId));
    st.entries := Filter(st.entries, (e: JournalEntry) => e.userId != uid);
    st.oauthTokens := Filter(st.oauthTokens, (t: OAuthToken) => t.userId != uid);
    st.sessions := Filter(st.sessions, (s: Session) => s.userId != uid);
    st.users := Filter(st.users, (u: User) => u.id != uid);
    assert st.Tables() == PurgeAsWritten(db, uid);
  }
}
