/** The attachment routes (src/routes/attachments.ts): upload a file to one
    of the caller's journal entries, fetch it back, delete it. A file body
    lives in the bucket under a storage key; its metadata is a row of the
    attachments table. */
module Attachments {
  import opened Schema
  import opened Http
  import Store

  const AllowedMimeTypes: seq<string> := [
    "image/jpeg",
    "image/png",
    "image/gif",
    "image/webp",
    "application/pdf",
    "text/plain",
    "text/markdown",
    "application/vnd.openxmlformats-officedocument.wordprocessingml.document"
  ]

  /** 10 MiB. */
  const MaxFileSize: int := 10 * 1024 * 1024

  /** The `file` field of the multipart form: absent, a plain string, or a
      file with its name, declared type and size (its bytes are not modelled). */
  datatype FormField =
    | Missing
    | Text(value: string)
    | File(name: string, mimeType: string, size: int)

  // ---------------------------------------------------------------------
  // Names and keys

  /** The longest suffix of `s` that holds no `.`: what the last piece of
      `s.split('.')` is. */
  function AfterLastDot(s: string): (r: string)
    ensures '.' !in r
    ensures |r| <= |s| && r == s[|s| - |r|..]
    ensures |r| < |s| ==> s[|s| - |r| - 1] == '.'
  {
    if s == [] then []
    else if s[|s| - 1] == '.' then []
    else
      var r := AfterLastDot(s[..|s| - 1]);
      assert s[..|s| - 1][|s| - 1 - |r|..] + [s[|s| - 1]] == s[|s| - |r| - 1..];
      r + [s[|s| - 1]]
  }

  /** `name.split('.').pop() || 'bin'`: the text after the last dot, or the
      whole name when it has no dot, with `bin` for an empty result. */
  function Extension(name: string): (ext: string)
    ensures ext != []
    ensures ext == "bin" || ('.' !in ext && |ext| <= |name| && ext == name[|name| - |ext|..])
  {
    var last := AfterLastDot(name);
    if last == [] then "bin" else last
  }

  function Filename(fileId: Id, ext: string): string {
    fileId + "." + ext
  }

  /** `attachments/{userId}/{journalId}/{fileId}.{ext}` */
  function StorageKey(uid: Id, journalId: Id, fileId: Id, ext: string): (key: string)
    ensures key == "attachments/" + uid + "/" + journalId + "/" + Filename(fileId, ext)
  {
    "attachments/" + uid + "/" + journalId + "/" + Filename(fileId, ext)
  }

  /** The row an accepted upload stores. */
  function NewAttachment(fileId: Id, journalId: Id, user: Identity, name: string, mimeType: string,
                         size: int, now: Time): (a: Attachment)
    ensures a.id == fileId && a.journalEntryId == journalId
    ensures a.filename == Filename(fileId, Extension(name))
    ensures a.r2Key == StorageKey(user.id, journalId, fileId, Extension(name))
    ensures a.originalFilename == name && a.mimeType == mimeType && a.size == size
    ensures a.createdAt == now
  {
    var ext := Extension(name);
    Attachment(fileId, journalId, Filename(fileId, ext), name, mimeType, size,
               StorageKey(user.id, journalId, fileId, ext), now)
  }

  // ---------------------------------------------------------------------
  // Upload

  /** Whether `uid` owns a journal entry with id `journalId`. */
  predicate OwnsEntry(entries: seq<JournalEntry>, journalId: Id, uid: Id) {
    exists e | e in entries :: e.id == journalId && e.userId == uid
  }

  /** The answers POST /journal/:journalId/attachments gives before it writes
      anything, in the order it checks: the entry, the form field, the type,
      the size. None when every check passes. */
  function Rejection(entries: seq<JournalEntry>, journalId: Id, uid: Id, file: FormField)
    : (r: Option<Reply<Attachment>>)
    ensures !OwnsEntry(entries, journalId, uid) ==> r == Some(Fail(404, "Journal entry not found"))
    ensures OwnsEntry(entries, journalId, uid) && !file.File? ==> r == Some(Fail(400, "No file provided"))
    ensures OwnsEntry(entries, journalId, uid) && file.File? && file.mimeType !in AllowedMimeTypes ==>
              r == Some(Err(400, "File type not allowed", AllowedTypes(AllowedMimeTypes)))
    ensures (OwnsEntry(entries, journalId, uid) && file.File? && file.mimeType in AllowedMimeTypes
             && file.size > MaxFileSize) ==> r == Some(Err(400, "File size too large", MaxSize(MaxFileSize)))
    ensures r.None? <==> OwnsEntry(entries, journalId, uid) && file.File?
                         && file.mimeType in AllowedMimeTypes && file.size <= MaxFileSize
  {
    if !OwnsEntry(entries, journalId, uid) then Some(Fail(404, "Journal entry not found"))
    else if !file.File? then Some(Fail(400, "No file provided"))
    else if file.mimeType !in AllowedMimeTypes then
      Some(Err(400, "File type not allowed", AllowedTypes(AllowedMimeTypes)))
    else if file.size > MaxFileSize then Some(Err(400, "File size too large", MaxSize(MaxFileSize)))
    else None
  }

  /** POST /journal/:journalId/attachments. Nothing is written until every
      check has passed; then the body goes to the bucket first and the row
      is inserted second, so a failed insert leaves the body behind. A
      failed bucket write (`r2Ok` false) writes nothing; the insert fails
      when the id is taken or the database throws (`dbOk` false). */
  method Upload(st: Store.Store, bucket: Store.Bucket, journalId: Id, user: Identity, file: FormField,
                fileId: Id, now: Time, r2Ok: bool, dbOk: bool) returns (r: Reply<Attachment>)
    modifies st`attachments, bucket
    ensures var rej := Rejection(old(st.entries), journalId, user.id, file);
            rej.Some? ==> r == rej.value && unchanged(st, bucket)
    ensures var rej := Rejection(old(st.entries), journalId, user.id, file);
            rej.None? && !r2Ok ==> r == Fail(500, "Failed to upload file") && unchanged(st, bucket)
    ensures var rej := Rejection(old(st.entries), journalId, user.id, file);
            rej.None? && r2Ok ==>
              var row := NewAttachment(fileId, journalId, user, file.name, file.mimeType, file.size, now);
              && bucket.objects == old(bucket.objects)[row.r2Key := file.mimeType]
              && (dbOk && fileId !in Keys(old(st.attachments), AttachmentId) ==>
                    r == Ok(201, row) && st.attachments == old(st.attachments) + [row])
              && (!dbOk || fileId in Keys(old(st.attachments), AttachmentId) ==>
                    r == Fail(500, "Failed to upload file") && st.attachments == old(st.attachments))
  {
    var rej := Rejection(st.entries, journalId, user.id, file);
    if rej.Some? {
      r := rej.value;
      return;
    }
    if !r2Ok {
      r := Fail(500, "Failed to upload file");
      return;
    }
    var row := NewAttachment(fileId, journalId, user, file.name, file.mimeType, file.size, now);
    bucket.Put(row.r2Key, file.mimeType);
    var ok := false;
    if dbOk {
      ok := st.InsertAttachment(row);
    }
    if ok {
      r := Ok(201, row);
    } else {
      r := Fail(500, "Failed to upload file");
    }
  }

  // ---------------------------------------------------------------------
  // Fetch and delete

  /** The attachment rows with id `id` whose journal entry `uid` owns: the
      inner join with the entries table and its `where`. */
  function Visible(db: Db, id: Id, uid: Id): (r: seq<Attachment>)
    ensures forall a :: a in r <==> a in db.attachments && a.id == id && OwnsEntry(db.entries, a.journalEntryId, uid)
  {
    Filter(db.attachments, (a: Attachment) => a.id == id && OwnsEntry(db.entries, a.journalEntryId, uid))
  }

  /** The headers GET /attachments/:id sends with the body. */
  datatype FileResponse = FileResponse(
    contentType: string,
    contentLength: int,
    contentDisposition: string,
    cacheControl: string)

  function Headers(a: Attachment): (h: FileResponse)
    ensures h.contentType == a.mimeType && h.contentLength == a.size
    ensures h.contentDisposition == "attachment; filename=\"" + a.originalFilename + "\""
    ensures h.cacheControl == "private, max-age=3600"
  {
    FileResponse(a.mimeType, a.size, "attachment; filename=\"" + a.originalFilename + "\"",
                 "private, max-age=3600")
  }

  /** GET /attachments/:id. `getOk` false stands for a bucket read that
      throws. */
  function Fetch(db: Db, objects: map<string, string>, id: Id, user: Identity, getOk: bool)
    : (r: Reply<FileResponse>)
    ensures Visible(db, id, user.id) == [] ==> r == Fail(404, "Attachment not found")
    ensures Visible(db, id, user.id) != [] && !getOk ==> r == Fail(500, "Failed to retrieve file")
    ensures Visible(db, id, user.id) != [] && getOk ==>
              (r == Fail(404, "File not found in storage") <==> Visible(db, id, user.id)[0].r2Key !in objects)
    ensures Visible(db, id, user.id) != [] && getOk && Visible(db, id, user.id)[0].r2Key in objects ==>
              r == Ok(200, Headers(Visible(db, id, user.id)[0]))
    ensures r.Ok? ==> r.status == 200 && exists a :: && a in db.attachments && a.id == id
                                                     && OwnsEntry(db.entries, a.journalEntryId, user.id)
                                                     && a.r2Key in objects && r.value == Headers(a)
  {
    var found := Visible(db, id, user.id);
    if found == [] then Fail(404, "Attachment not found")
    else if !getOk then Fail(500, "Failed to retrieve file")
    else
      var a := found[0];
      assert a in found;
      if a.r2Key !in objects then Fail(404, "File not found in storage")
      else Ok(200, Headers(a))
  }

  /** The attachments table after `delete(attachments).where(id = id)`. */
  function Without(attachments: seq<Attachment>, id: Id): (r: seq<Attachment>)
    ensures forall a :: a in r <==> a in attachments && a.id != id
  {
    Filter(attachments, (a: Attachment) => a.id != id)
  }

  /** DELETE /attachments/:id. The body is deleted first and the row second;
      a bucket delete that throws (`r2Ok` false) leaves both, a row delete
      that throws (`dbOk` false) leaves the row without its body. */
  method Delete(st: Store.Store, bucket: Store.Bucket, id: Id, user: Identity, r2Ok: bool, dbOk: bool)
    returns (r: Reply<Message>)
    modifies st`attachments, bucket
    ensures var found := Visible(old(st.Tables()), id, user.id);
            found == [] ==> r == Fail(404, "Attachment not found") && unchanged(st, bucket)
    ensures var found := Visible(old(st.Tables()), id, user.id);
            found != [] && !r2Ok ==> r == Fail(500, "Failed to delete file") && unchanged(st, bucket)
    ensures var found := Visible(old(st.Tables()), id, user.id);
            found != [] && r2Ok ==>
              && bucket.objects == old(bucket.objects) - {found[0].r2Key}
              && (dbOk ==> r == Ok(200, Message("Attachment deleted successfully"))
                           && st.attachments == Without(old(st.attachments), id))
              && (!dbOk ==> r == Fail(500, "Failed to delete file") && st.attachments == old(st.attachments))
  {
    var found := Visible(st.Tables(), id, user.id);
    if found == [] {
      r := Fail(404, "Attachment not found");
      return;
    }
    if !r2Ok {
      r := Fail(500, "Failed to delete file");
      return;
    }
    bucket.Delete(found[0].r2Key);
    if !dbOk {
      r := Fail(500, "Failed to delete file");
      return;
    }
    st.attachments := Without(st.attachments, id);
    r := Ok(200, Message("Attachment deleted successfully"));
  }
}
