/** The user-delete transaction. As intended (`Purge`), it removes exactly
    the rows that belong to the user and every intermediate state keeps the
    table constraints because children go before parents. As written
    (`PurgeAsWritten`, which the handlers run), it keeps them exactly when
    only the user's first entry has attachments; it is a no-op for an
    unknown user and does nothing more when repeated. */
module CascadeLaws {
  import opened Schema
  import opened Cascade

  // ---------------------------------------------------------------------
  // Example tables

  // One user with two entries, each with one attachment.
  const Owner := User("u1", "a@example.com", "A", false, None, false, 0, 0)
  const FirstEntry := JournalEntry("e1", "u1", "one", 1, 1)
  const SecondEntry := JournalEntry("e2", "u1", "two", 2, 2)
  const FirstFile := Attachment("f1", "e1", "f1.png", "one.png", "image/png", 1, "k1", 1)
  const SecondFile := Attachment("f2", "e2", "f2.png", "two.png", "image/png", 1, "k2", 2)
  const TwoEntries := Db([Owner], [], [], [], [FirstEntry, SecondEntry], [FirstFile, SecondFile])

  // The same user with only the first entry and no attachments.
  const OneEntry := Db([Owner], [], [], [], [FirstEntry], [])

  // ---------------------------------------------------------------------
  // Each statement and the constraints

  /** No attachment is left under one of `uid`'s entries. */
  predicate NoOwnedAttachments(db: Db, uid: Id) {
    forall a | a in db.attachments :: a.journalEntryId !in OwnedEntryIds(db.entries, uid)
  }

  lemma AttachmentStepKeeps(db: Db, uid: Id)
    requires WellFormed(db)
    ensures WellFormed(Apply(AttachmentRows, uid, db))
    ensures NoOwnedAttachments(Apply(AttachmentRows, uid, db), uid)
  {
    var ids := OwnedEntryIds(db.entries, uid);
    FilterKeyUnique(db.attachments, (a: Attachment) => a.journalEntryId !in ids, AttachmentId);
  }

  /** Deleting the user's entries keeps the constraints once no attachment
      names one of them. */
  lemma EntryStepKeeps(db: Db, uid: Id)
    requires WellFormed(db)
    requires NoOwnedAttachments(db, uid)
    ensures WellFormed(Apply(EntryRows, uid, db))
    ensures forall e | e in Apply(EntryRows, uid, db).entries :: e.userId != uid
  {
    var rest := Filter(db.entries, (e: JournalEntry) => e.userId != uid);
    FilterKeyUnique(db.entries, (e: JournalEntry) => e.userId != uid, EntryId);
    forall a | a in db.attachments ensures a.journalEntryId in Keys(rest, EntryId) {
      var e :| e in db.entries && e.id == a.journalEntryId;
      assert e in rest;
    }
  }

  lemma TokenStepKeeps(db: Db, uid: Id)
    requires WellFormed(db)
    ensures WellFormed(Apply(TokenRows, uid, db))
  {
    FilterKeyUnique(db.oauthTokens, (t: OAuthToken) => t.userId != uid, TokenId);
    FilterKeyUnique(db.oauthTokens, (t: OAuthToken) => t.userId != uid, AccessToken);
  }

  lemma SessionStepKeeps(db: Db, uid: Id)
    requires WellFormed(db)
    ensures WellFormed(Apply(SessionRows, uid, db))
  {
    FilterKeyUnique(db.sessions, (s: Session) => s.userId != uid, SessionId);
    FilterKeyUnique(db.sessions, (s: Session) => s.userId != uid, SessionToken);
  }

  /** Deleting the user row keeps the constraints once nothing names it. */
  lemma UserStepKeeps(db: Db, uid: Id)
    requires WellFormed(db)
    requires forall s | s in db.sessions :: s.userId != uid
    requires forall t | t in db.oauthTokens :: t.userId != uid
    requires forall e | e in db.entries :: e.userId != uid
    ensures WellFormed(Apply(UserRow, uid, db))
  {
    var rest := Filter(db.users, (u: User) => u.id != uid);
    FilterKeyUnique(db.users, (u: User) => u.id != uid, UserId);
    FilterKeyUnique(db.users, (u: User) => u.id != uid, UserEmail);
    forall k | k in Keys(db.users, UserId) && k != uid ensures k in Keys(rest, UserId) {
      var u :| u in db.users && u.id == k;
      assert u in rest;
    }
  }

  lemma {:induction false} RunSnoc(steps: seq<Step>, x: Step, uid: Id, db: Db)
    ensures Run(steps + [x], uid, db) == Apply(x, uid, Run(steps, uid, db))
    decreases |steps|
  {
    if steps == [] {
      assert [x][1..] == [];
    } else {
      assert (steps + [x])[1..] == steps[1..] + [x];
      RunSnoc(steps[1..], x, uid, Apply(steps[0], uid, db));
    }
  }

  /** The state after the statement `Order[k]`. */
  lemma OrderStep(k: nat, uid: Id, db: Db)
    requires k < |Order|
    ensures Run(Order[..k + 1], uid, db) == Apply(Order[k], uid, Run(Order[..k], uid, db))
  {
    assert Order[..k + 1] == Order[..k] + [Order[k]];
    RunSnoc(Order[..k], Order[k], uid, db);
  }

  /** The states the transaction passes through, statement by statement. */
  lemma OrderStates(db: Db, uid: Id)
    ensures var d1 := Apply(AttachmentRows, uid, db);
            var d2 := Apply(EntryRows, uid, d1);
            var d3 := Apply(TokenRows, uid, d2);
            var d4 := Apply(SessionRows, uid, d3);
            && Run(Order[..0], uid, db) == db
            && Run(Order[..1], uid, db) == d1
            && Run(Order[..2], uid, db) == d2
            && Run(Order[..3], uid, db) == d3
            && Run(Order[..4], uid, db) == d4
            && Run(Order[..5], uid, db) == Apply(UserRow, uid, d4)
  {
    assert Order[..0] == [];
    OrderStep(0, uid, db);
    OrderStep(1, uid, db);
    OrderStep(2, uid, db);
    OrderStep(3, uid, db);
    OrderStep(4, uid, db);
  }

  // After each statement: the constraints hold and, from the statement on,
  // nothing of `uid`'s is left in the tables already processed.

  lemma AfterEntries(db: Db, uid: Id)
    requires WellFormed(db)
    ensures var d := Apply(EntryRows, uid, Apply(AttachmentRows, uid, db));
            WellFormed(d) && forall e | e in d.entries :: e.userId != uid
  {
    AttachmentStepKeeps(db, uid);
    EntryStepKeeps(Apply(AttachmentRows, uid, db), uid);
  }

  lemma AfterTokens(d2: Db, uid: Id)
    requires WellFormed(d2) && forall e | e in d2.entries :: e.userId != uid
    ensures var d := Apply(TokenRows, uid, d2);
            && WellFormed(d)
            && (forall e | e in d.entries :: e.userId != uid)
            && (forall t | t in d.oauthTokens :: t.userId != uid)
  {
    TokenStepKeeps(d2, uid);
  }

  lemma AfterSessions(d3: Db, uid: Id)
    requires WellFormed(d3)
    requires forall e | e in d3.entries :: e.userId != uid
    requires forall t | t in d3.oauthTokens :: t.userId != uid
    ensures var d := Apply(SessionRows, uid, d3);
            && WellFormed(d)
            && (forall e | e in d.entries :: e.userId != uid)
            && (forall t | t in d.oauthTokens :: t.userId != uid)
            && (forall s | s in d.sessions :: s.userId != uid)
  {
    SessionStepKeeps(d3, uid);
  }

  /** Every state the transaction passes through keeps the constraints. */
  lemma AllStatesWellFormed(db: Db, uid: Id)
    requires WellFormed(db)
    ensures var d1 := Apply(AttachmentRows, uid, db);
            var d2 := Apply(EntryRows, uid, d1);
            var d3 := Apply(TokenRows, uid, d2);
            var d4 := Apply(SessionRows, uid, d3);
            WellFormed(d1) && WellFormed(d2) && WellFormed(d3) && WellFormed(d4)
            && WellFormed(Apply(UserRow, uid, d4))
  {
    var d1 := Apply(AttachmentRows, uid, db);
    var d2 := Apply(EntryRows, uid, d1);
    var d3 := Apply(TokenRows, uid, d2);
    var d4 := Apply(SessionRows, uid, d3);
    AttachmentStepKeeps(db, uid);
    AfterEntries(db, uid);
    AfterTokens(d2, uid);
    AfterSessions(d3, uid);
    UserStepKeeps(d4, uid);
  }

  /** Run in the order the handlers use, every prefix of the intended transaction
      leaves tables that satisfy every primary key, UNIQUE column and
      foreign key: each statement removes only rows nothing left refers to. */
  lemma PurgeInOrderKeepsWellFormed(db: Db, uid: Id)
    requires WellFormed(db)
    ensures forall k | 0 <= k <= |Order| :: WellFormed(Run(Order[..k], uid, db))
  {
    OrderStates(db, uid);
    AllStatesWellFormed(db, uid);
    forall k | 0 <= k <= |Order| ensures WellFormed(Run(Order[..k], uid, db)) {
      assert k == 0 || k == 1 || k == 2 || k == 3 || k == 4 || k == 5;
    }
  }

  /** The whole intended transaction keeps the constraints. */
  lemma PurgeKeepsWellFormed(db: Db, uid: Id)
    requires WellFormed(db)
    ensures WellFormed(Purge(db, uid))
  {
    OrderStates(db, uid);
    AllStatesWellFormed(db, uid);
    assert Order[..5] == Order;
  }

  /** Deleting a user row while one of their entries is left breaks the
      entry's foreign key. */
  lemma UserRowFirstBreaks(db: Db, uid: Id, e: JournalEntry)
    requires e in db.entries && e.userId == uid
    ensures !WellFormed(Apply(UserRow, uid, db))
  {
    var after := Apply(UserRow, uid, db);
    assert e in after.entries;
    assert uid !in Keys(after.users, UserId);
  }

  /** Deleting parents first passes through a state that breaks the foreign
      keys: with a user who has one entry, removing the user row first
      leaves the entry naming a user that does not exist. */
  lemma ParentsFirstBreaksIntegrity()
    ensures var parentsFirst := [UserRow, SessionRows, TokenRows, EntryRows, AttachmentRows];
            WellFormed(OneEntry) && !WellFormed(Run(parentsFirst[..1], "u1", OneEntry))
  {
    assert Owner in OneEntry.users;
    var parentsFirst := [UserRow, SessionRows, TokenRows, EntryRows, AttachmentRows];
    assert parentsFirst[..1] == [UserRow];
    assert [UserRow][1..] == [];
    assert Run(parentsFirst[..1], "u1", OneEntry) == Apply(UserRow, "u1", OneEntry);
    UserRowFirstBreaks(OneEntry, "u1", FirstEntry);
  }

  // ---------------------------------------------------------------------
  // What the transaction removes

  /** Under the intended transaction no row that belongs to `uid` survives,
      and every other row does. */
  lemma PurgeRemovesExactlyOwned(db: Db, uid: Id)
    ensures var r := Purge(db, uid);
            && (forall u :: u in r.users <==> u in db.users && u.id != uid)
            && (forall s :: s in r.sessions <==> s in db.sessions && s.userId != uid)
            && (forall t :: t in r.oauthTokens <==> t in db.oauthTokens && t.userId != uid)
            && (forall e :: e in r.entries <==> e in db.entries && e.userId != uid)
            && (forall a :: a in r.attachments <==>
                  a in db.attachments && !exists e :: e in db.entries && e.userId == uid && e.id == a.journalEntryId)
  {
  }

  // ---------------------------------------------------------------------
  // The statement as written

  lemma TwoEntriesWellFormed()
    ensures WellFormed(TwoEntries)
  {
    assert Owner in TwoEntries.users;
    assert FirstEntry in TwoEntries.entries && SecondEntry in TwoEntries.entries;
  }

  /** The statement as written deletes only the first entry's attachment;
      the second is left naming an entry the next statement deletes. */
  lemma AsWrittenLeavesOrphan()
    ensures FirstFile !in PurgeAsWritten(TwoEntries, "u1").attachments
    ensures SecondFile in PurgeAsWritten(TwoEntries, "u1").attachments
    ensures !WellFormed(PurgeAsWritten(TwoEntries, "u1"))
  {
    assert FirstOwnedEntry(TwoEntries.entries, "u1") == Some("e1");
    var r := PurgeAsWritten(TwoEntries, "u1");
    assert SecondFile in r.attachments && "e2" !in Keys(r.entries, EntryId);
  }

  /** The intended statement removes both attachments and keeps the
      constraints on the same tables. */
  lemma PurgeClearsTwoEntries()
    ensures Purge(TwoEntries, "u1").attachments == []
    ensures WellFormed(Purge(TwoEntries, "u1"))
  {
    TwoEntriesWellFormed();
    PurgeKeepsWellFormed(TwoEntries, "u1");
    assert FirstEntry in TwoEntries.entries && SecondEntry in TwoEntries.entries;
    var ids := OwnedEntryIds(TwoEntries.entries, "u1");
    assert "e1" in ids && "e2" in ids;
    FilterNone(TwoEntries.attachments, (a: Attachment) => a.journalEntryId !in OwnedEntryIds(TwoEntries.entries, "u1"));
  }

  /** Every attachment under one of `uid`'s entries is under the first of
      them, the one the scalar subquery yields. */
  predicate FilesUnderFirstEntryOnly(db: Db, uid: Id) {
    forall a | a in db.attachments ::
      a.journalEntryId in OwnedEntryIds(db.entries, uid) ==> FirstOwnedEntry(db.entries, uid) == Some(a.journalEntryId)
  }

  /** When only the first entry has attachments, the attachment statement
      as written deletes what the intended one does. */
  lemma FirstStatementAgrees(db: Db, uid: Id)
    requires FilesUnderFirstEntryOnly(db, uid)
    ensures ApplyAsWritten(AttachmentRows, uid, db) == Apply(AttachmentRows, uid, db)
  {
    var ids := OwnedEntryIds(db.entries, uid);
    var first := FirstOwnedEntry(db.entries, uid);
    forall a | a in db.attachments ensures (a.journalEntryId !in ids) == (first != Some(a.journalEntryId)) {
      if first == Some(a.journalEntryId) {
        var k :| 0 <= k < |db.entries| && db.entries[k].userId == uid && db.entries[k].id == first.value
                 && forall j | 0 <= j < k :: db.entries[j].userId != uid;
        assert db.entries[k] in db.entries;
      }
    }
    FilterSame(db.attachments, (a: Attachment) => a.journalEntryId !in ids,
               (a: Attachment) => first != Some(a.journalEntryId));
  }

  /** An attachment under one of `uid`'s entries names no entry once the
      entries statement has run: the primary key leaves no other row with
      that id. */
  lemma OrphanedFile(db: Db, uid: Id, a: Attachment)
    requires KeyUnique(db.entries, EntryId)
    requires a.journalEntryId in OwnedEntryIds(db.entries, uid)
    ensures a.journalEntryId !in Keys(Filter(db.entries, (e: JournalEntry) => e.userId != uid), EntryId)
  {
    var e :| e in db.entries && e.userId == uid && e.id == a.journalEntryId;
    forall x | x in db.entries && x.id == e.id ensures x.userId == uid {
      var i :| 0 <= i < |db.entries| && db.entries[i] == x;
      var j :| 0 <= j < |db.entries| && db.entries[j] == e;
      assert !(i < j) && !(j < i);
    }
  }

  /** The transaction as written is the intended one exactly when no
      attachment sits under a later entry of the user. */
  lemma {:induction false} AsWrittenMeansIntended(db: Db, uid: Id)
    ensures PurgeAsWritten(db, uid) == Purge(db, uid) <==> FilesUnderFirstEntryOnly(db, uid)
  {
    if FilesUnderFirstEntryOnly(db, uid) {
      FirstStatementAgrees(db, uid);
      assert Order[1..] == [EntryRows, TokenRows, SessionRows, UserRow];
    } else {
      var a :| a in db.attachments && a.journalEntryId in OwnedEntryIds(db.entries, uid)
               && FirstOwnedEntry(db.entries, uid) != Some(a.journalEntryId);
      assert a in PurgeAsWritten(db, uid).attachments && a !in Purge(db, uid).attachments;
    }
  }

  /** The entries statement, run after the attachment statement as written,
      leaves tables that satisfy every constraint exactly when only the
      user's first entry has attachments. Where the foreign keys are
      enforced, this is exactly when that statement is accepted. */
  lemma {:induction false} AsWrittenEntriesStatement(db: Db, uid: Id)
    requires WellFormed(db)
    ensures WellFormed(Apply(EntryRows, uid, ApplyAsWritten(AttachmentRows, uid, db)))
            <==> FilesUnderFirstEntryOnly(db, uid)
  {
    if FilesUnderFirstEntryOnly(db, uid) {
      FirstStatementAgrees(db, uid);
      AfterEntries(db, uid);
    } else {
      var a :| a in db.attachments && a.journalEntryId in OwnedEntryIds(db.entries, uid)
               && FirstOwnedEntry(db.entries, uid) != Some(a.journalEntryId);
      OrphanedFile(db, uid, a);
      assert a in Apply(EntryRows, uid, ApplyAsWritten(AttachmentRows, uid, db)).attachments;
    }
  }

  /** The whole transaction as written keeps every constraint exactly when
      only the user's first entry has attachments. */
  lemma {:induction false} AsWrittenKeepsWellFormed(db: Db, uid: Id)
    requires WellFormed(db)
    ensures WellFormed(PurgeAsWritten(db, uid)) <==> FilesUnderFirstEntryOnly(db, uid)
  {
    if FilesUnderFirstEntryOnly(db, uid) {
      AsWrittenMeansIntended(db, uid);
      PurgeKeepsWellFormed(db, uid);
    } else {
      var a :| a in db.attachments && a.journalEntryId in OwnedEntryIds(db.entries, uid)
               && FirstOwnedEntry(db.entries, uid) != Some(a.journalEntryId);
      OrphanedFile(db, uid, a);
      assert a in PurgeAsWritten(db, uid).attachments;
    }
  }

  /** With at most one entry id, only the first entry can have attachments,
      so the statement as written does what was meant and keeps every
      constraint. */
  lemma AsWrittenAgreesOnOneEntry(db: Db, uid: Id)
    requires forall e1, e2 | e1 in db.entries && e2 in db.entries && e1.userId == uid && e2.userId == uid :: e1.id == e2.id
    ensures FilesUnderFirstEntryOnly(db, uid)
    ensures PurgeAsWritten(db, uid) == Purge(db, uid)
    ensures WellFormed(db) ==> WellFormed(PurgeAsWritten(db, uid))
  {
    var first := FirstOwnedEntry(db.entries, uid);
    forall a | a in db.attachments && a.journalEntryId in OwnedEntryIds(db.entries, uid)
      ensures first == Some(a.journalEntryId)
    {
      var e :| e in db.entries && e.userId == uid && e.id == a.journalEntryId;
      var k :| 0 <= k < |db.entries| && db.entries[k].userId == uid && db.entries[k].id == first.value
               && forall j | 0 <= j < k :: db.entries[j].userId != uid;
      assert db.entries[k] in db.entries;
    }
    AsWrittenMeansIntended(db, uid);
    if WellFormed(db) {
      AsWrittenKeepsWellFormed(db, uid);
    }
  }

  // ---------------------------------------------------------------------
  // What the handlers run

  /** For a user that does not exist, in tables that satisfy their
      constraints, the transaction changes nothing: the subquery is empty,
      so the attachment statement matches nothing. */
  lemma PurgeUnknownUser(db: Db, uid: Id)
    requires WellFormed(db) && uid !in Keys(db.users, UserId)
    ensures PurgeAsWritten(db, uid) == db
  {
    assert forall e | e in db.entries :: e.userId != uid;
    var first := FirstOwnedEntry(db.entries, uid);
    assert first == None;
    FilterAll(db.attachments, (a: Attachment) => first != Some(a.journalEntryId));
    FilterAll(db.entries, (e: JournalEntry) => e.userId != uid);
    FilterAll(db.oauthTokens, (t: OAuthToken) => t.userId != uid);
    FilterAll(db.sessions, (s: Session) => s.userId != uid);
    FilterAll(db.users, (u: User) => u.id != uid);
  }

  /** Running the transaction a second time changes nothing more: the
      user's entries are gone, so the subquery is empty the second time,
      and the attachments the first run left stay. */
  lemma PurgeIdempotent(db: Db, uid: Id)
    ensures PurgeAsWritten(PurgeAsWritten(db, uid), uid) == PurgeAsWritten(db, uid)
  {
    var r := PurgeAsWritten(db, uid);
    var first := FirstOwnedEntry(r.entries, uid);
    assert first == None;
    FilterAll(r.attachments, (a: Attachment) => first != Some(a.journalEntryId));
    FilterAll(r.entries, (e: JournalEntry) => e.userId != uid);
    FilterAll(r.oauthTokens, (t: OAuthToken) => t.userId != uid);
    FilterAll(r.sessions, (s: Session) => s.userId != uid);
    FilterAll(r.users, (u: User) => u.id != uid);
  }
}
