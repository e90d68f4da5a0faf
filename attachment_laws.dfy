/** What the attachment handlers promise: the extension and storage key an
    upload derives, that another user's attachment is indistinguishable from
    a missing one, and which writes keep the table constraints and keep every
    attachment row backed by a stored body. */
module AttachmentLaws {
  import opened Schema
  import opened Http
  import opened Attachments

  // ---------------------------------------------------------------------
  // Extension and storage key

  lemma {:induction false} AfterDot(base: string, ext: string)
    requires '.' !in ext
    ensures AfterLastDot(base + "." + ext) == ext
    decreases |ext|
  {
    var s := base + "." + ext;
    if ext == [] {
      assert s[|s| - 1] == '.';
    } else {
      var init := ext[..|ext| - 1];
      assert '.' !in init by {
        forall c | c in init ensures c in ext {
        }
      }
      AfterDot(base, init);
      assert s[..|s| - 1] == base + "." + init;
      assert ext == init + [ext[|ext| - 1]];
    }
  }

  lemma {:induction false} NoDot(name: string)
    requires '.' !in name
    ensures AfterLastDot(name) == name
  {
    if name != [] {
      var init := name[..|name| - 1];
      assert '.' !in init by {
        forall c | c in init ensures c in name {
        }
      }
      NoDot(init);
      assert name == init + [name[|name| - 1]];
    }
  }

  /** The extension is the text after the last dot; a name that ends with a
      dot gets `bin`; a name with no dot is its own extension, and only the
      empty name gets `bin` from that rule. */
  lemma ExtensionCases(base: string, ext: string, name: string)
    ensures '.' !in ext && ext != [] ==> Extension(base + "." + ext) == ext
    ensures Extension(base + ".") == "bin"
    ensures '.' !in name ==> Extension(name) == if name == [] then "bin" else name
  {
    if '.' !in ext {
      AfterDot(base, ext);
    }
    AfterDot(base, []);
    assert base + "." + [] == base + ".";
    if '.' !in name {
      NoDot(name);
    }
  }

  lemma {:induction false} DotSplit(f1: string, e1: string, f2: string, e2: string)
    requires '.' !in f1 && '.' !in f2
    requires f1 + "." + e1 == f2 + "." + e2
    ensures f1 == f2 && e1 == e2
  {
    var s1, s2 := f1 + "." + e1, f2 + "." + e2;
    assert (f1 == []) == (s1[0] == '.') by {
      if f1 != [] {
        assert s1[0] == f1[0] && f1[0] in f1;
      }
    }
    assert (f2 == []) == (s2[0] == '.') by {
      if f2 != [] {
        assert s2[0] == f2[0] && f2[0] in f2;
      }
    }
    if f1 == [] {
      assert e1 == s1[1..] && e2 == s2[1..];
    } else {
      assert s1[0] == f1[0] && s2[0] == f2[0];
      assert s1[1..] == f1[1..] + "." + e1 && s2[1..] == f2[1..] + "." + e2;
      assert '.' !in f1[1..] && '.' !in f2[1..] by {
        forall c | c in f1[1..] ensures c in f1 {
        }
        forall c | c in f2[1..] ensures c in f2 {
        }
      }
      DotSplit(f1[1..], e1, f2[1..], e2);
      assert f1 == [f1[0]] + f1[1..] && f2 == [f2[0]] + f2[1..];
    }
  }

  /** Within one entry of one user, a file id without a dot (as the
      generated ids are) gives its own storage key: two uploads with
      different ids never share a body. */
  lemma KeyDeterminesFile(uid: Id, journalId: Id, f1: Id, e1: string, f2: Id, e2: string)
    requires '.' !in f1 && '.' !in f2
    requires StorageKey(uid, journalId, f1, e1) == StorageKey(uid, journalId, f2, e2)
    ensures f1 == f2 && e1 == e2
  {
    var prefix := "attachments/" + uid + "/" + journalId + "/";
    assert StorageKey(uid, journalId, f1, e1) == prefix + (f1 + "." + e1);
    assert StorageKey(uid, journalId, f2, e2) == prefix + (f2 + "." + e2);
    assert f1 + "." + e1 == (prefix + (f1 + "." + e1))[|prefix|..];
    assert f2 + "." + e2 == (prefix + (f2 + "." + e2))[|prefix|..];
    DotSplit(f1, e1, f2, e2);
  }

  // ---------------------------------------------------------------------
  // Isolation between users

  /** An attachment whose entry the caller does not own is invisible: fetch
      answers as if the row did not exist, and delete finds nothing. */
  lemma ForeignAttachmentInvisible(db: Db, a: seq<Attachment>, x: Attachment, b: seq<Attachment>,
                                   objects: map<string, string>, id: Id, user: Identity, getOk: bool)
    requires !OwnsEntry(db.entries, x.journalEntryId, user.id)
    ensures Visible(db.(attachments := a + [x] + b), id, user.id) == Visible(db.(attachments := a + b), id, user.id)
    ensures Fetch(db.(attachments := a + [x] + b), objects, id, user, getOk)
            == Fetch(db.(attachments := a + b), objects, id, user, getOk)
  {
    var uid := user.id;
    FilterSkip(a, x, b, (t: Attachment) => t.id == id && OwnsEntry(db.entries, t.journalEntryId, uid));
  }

  /** Uploading to an entry of someone else's answers exactly like uploading
      to an entry that does not exist, whatever the form holds. */
  lemma ForeignEntryIsAbsent(entries: seq<JournalEntry>, journalId: Id, uid: Id, file: FormField)
    requires forall e | e in entries :: !(e.id == journalId && e.userId == uid)
    ensures Rejection(entries, journalId, uid, file) == Some(Fail(404, "Journal entry not found"))
  {
  }

  // ---------------------------------------------------------------------
  // Integrity of the table and the bucket

  /** Every attachment row has its body in the bucket. */
  predicate BlobsBacked(db: Db, objects: map<string, string>) {
    forall a | a in db.attachments :: a.r2Key in objects
  }

  function R2Key(a: Attachment): string {
    a.r2Key
  }

  /** Replacing the attachments table alone keeps the constraints exactly
      when the new rows keep their key and name existing entries. */
  lemma NewAttachmentsWellFormed(db: Db, attachments: seq<Attachment>)
    requires WellFormed(db)
    ensures WellFormed(db.(attachments := attachments)) <==>
              && KeyUnique(attachments, AttachmentId)
              && (forall a | a in attachments :: a.journalEntryId in Keys(db.entries, EntryId))
  {
  }

  /** An accepted upload keeps the constraints, since the checks found the
      entry the row names, and keeps every row backed, since the body is
      stored before the row. */
  lemma UploadKeepsIntegrity(db: Db, objects: map<string, string>, row: Attachment, uid: Id)
    requires WellFormed(db) && BlobsBacked(db, objects)
    requires OwnsEntry(db.entries, row.journalEntryId, uid)
    requires row.id !in Keys(db.attachments, AttachmentId)
    ensures var after := db.(attachments := db.attachments + [row]);
            WellFormed(after) && BlobsBacked(after, objects[row.r2Key := row.mimeType])
  {
    var e :| e in db.entries && e.id == row.journalEntryId && e.userId == uid;
    assert row.journalEntryId in Keys(db.entries, EntryId);
    AppendKeyUnique(db.attachments, row, AttachmentId);
    NewAttachmentsWellFormed(db, db.attachments + [row]);
  }

  /** A completed attachment delete keeps the constraints, and keeps every
      remaining row backed when no two rows share a storage key. If the row
      delete throws after the body is gone, the row is left without a body. */
  lemma DeleteKeepsIntegrity(db: Db, objects: map<string, string>, id: Id, uid: Id)
    requires WellFormed(db) && BlobsBacked(db, objects)
    requires KeyUnique(db.attachments, R2Key)
    requires Visible(db, id, uid) != []
    ensures var gone := Visible(db, id, uid)[0];
            var after := db.(attachments := Without(db.attachments, id));
            && WellFormed(after)
            && BlobsBacked(after, objects - {gone.r2Key})
            && !BlobsBacked(db, objects - {gone.r2Key})
  {
    var gone := Visible(db, id, uid)[0];
    assert gone in Visible(db, id, uid);
    var rest := Without(db.attachments, id);
    FilterKeyUnique(db.attachments, (a: Attachment) => a.id != id, AttachmentId);
    NewAttachmentsWellFormed(db, rest);
    forall a | a in rest ensures a.r2Key != gone.r2Key {
      var i :| 0 <= i < |db.attachments| && db.attachments[i] == a;
      var j :| 0 <= j < |db.attachments| && db.attachments[j] == gone;
      assert i != j;
      assert R2Key(db.attachments[i]) != R2Key(db.attachments[j]);
    }
  }
}
