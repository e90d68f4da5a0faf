/** What the journal handlers promise across calls: a user's requests neither
    see nor change another user's rows, an entry that is not the caller's
    answers exactly like one that does not exist, writes touch only the
    columns and rows they name, and which writes keep the table constraints. */
module JournalLaws {
  import opened Schema
  import opened Http
  import opened Paging
  import opened SqlLike
  import opened Journal

  // ---------------------------------------------------------------------
  // Isolation between users

  lemma UpdatedConcat(a: seq<JournalEntry>, b: seq<JournalEntry>, id: Id, uid: Id,
                      content: string, now: Time)
    ensures Updated(a + b, id, uid, content, now)
            == Updated(a, id, uid, content, now) + Updated(b, id, uid, content, now)
  {
    var l, r := Updated(a + b, id, uid, content, now),
                Updated(a, id, uid, content, now) + Updated(b, id, uid, content, now);
    assert |l| == |r|;
    forall i | 0 <= i < |l| ensures l[i] == r[i] {
      if i < |a| {
        assert (a + b)[i] == a[i];
      } else {
        assert (a + b)[i] == b[i - |a|];
      }
    }
  }

  lemma ForeignRowFiltered(a: seq<JournalEntry>, x: JournalEntry, b: seq<JournalEntry>, id: Id, uid: Id)
    requires x.userId != uid
    ensures Owned(a + [x] + b, uid) == Owned(a + b, uid)
    ensures Matching(a + [x] + b, id, uid) == Matching(a + b, id, uid)
    ensures Remaining(a + [x] + b, id, uid) == Remaining(a, id, uid) + [x] + Remaining(b, id, uid)
  {
    FilterSkip(a, x, b, (e: JournalEntry) => e.userId == uid);
    FilterSkip(a, x, b, (e: JournalEntry) => e.id == id && e.userId == uid);
    var keep := (e: JournalEntry) => !(e.id == id && e.userId == uid);
    FilterConcat(a + [x], b, keep);
    FilterAppend(a, x, keep);
  }

  /** A row owned by someone else is invisible to every read of `user`:
      removing it changes no answer. */
  lemma ForeignRowInvisible(a: seq<JournalEntry>, x: JournalEntry, b: seq<JournalEntry>,
                            user: Identity, id: Id, q: string,
                            page: Option<int>, limit: Option<int>)
    requires x.userId != user.id
    ensures List(a + [x] + b, user, page, limit) == List(a + b, user, page, limit)
    ensures Search(a + [x] + b, user, q, page, limit) == Search(a + b, user, q, page, limit)
    ensures Get(a + [x] + b, id, user) == Get(a + b, id, user)
    ensures DeleteReply(a + [x] + b, id, user) == DeleteReply(a + b, id, user)
  {
    ForeignRowFiltered(a, x, b, id, user.id);
  }

  /** The writes of `user` leave a row owned by someone else where it is,
      unchanged, and answer as if it were not there. */
  lemma ForeignRowUntouched(a: seq<JournalEntry>, x: JournalEntry, b: seq<JournalEntry>,
                            user: Identity, id: Id, content: string, now: Time)
    requires x.userId != user.id
    ensures Updated(a + [x] + b, id, user.id, content, now)
            == Updated(a, id, user.id, content, now) + [x] + Updated(b, id, user.id, content, now)
    ensures UpdateReply(a + [x] + b, id, user, content, now) == UpdateReply(a + b, id, user, content, now)
    ensures Remaining(a + [x] + b, id, user.id)
            == Remaining(a, id, user.id) + [x] + Remaining(b, id, user.id)
  {
    var uid := user.id;
    ForeignRowFiltered(a, x, b, id, uid);
    var ua, ub := Updated(a, id, uid, content, now), Updated(b, id, uid, content, now);
    UpdatedConcat(a + [x], b, id, uid, content, now);
    UpdatedConcat(a, [x], id, uid, content, now);
    UpdatedConcat(a, b, id, uid, content, now);
    assert Updated([x], id, uid, content, now) == [x];
    ForeignRowFiltered(ua, x, ub, id, uid);
  }

  /** An entry that exists but belongs to someone else gets the same answers
      as an id that does not exist at all, and no write changes the table. */
  lemma NotYoursIsAbsent(entries: seq<JournalEntry>, id: Id, user: Identity, content: string, now: Time)
    requires forall e | e in entries :: !(e.id == id && e.userId == user.id)
    ensures Get(entries, id, user) == Fail(404, "Journal entry not found")
    ensures content != [] ==> UpdateReply(entries, id, user, content, now) == Fail(404, "Journal entry not found")
    ensures DeleteReply(entries, id, user) == Fail(404, "Journal entry not found")
    ensures Updated(entries, id, user.id, content, now) == entries
    ensures Remaining(entries, id, user.id) == entries
  {
    var u := Updated(entries, id, user.id, content, now);
    assert |u| == |entries|;
    forall i | 0 <= i < |u| ensures u[i] == entries[i] {
      assert entries[i] in entries;
    }
    assert u == entries;
    FilterAll(entries, (e: JournalEntry) => !(e.id == id && e.userId == user.id));
  }

  // ---------------------------------------------------------------------
  // Create, update and delete, each against what a later read sees

  /** The row POST /journal stores is the one GET /journal/:id then returns,
      and it adds one to the owner's count. */
  lemma {:induction false} GetAfterCreate(entries: seq<JournalEntry>, user: Identity, content: string,
                                          id: Id, now: Time)
    requires id !in Keys(entries, EntryId)
    ensures Get(entries + [NewEntry(id, user, content, now)], id, user)
            == Ok(200, NewEntry(id, user, content, now))
    ensures |Owned(entries + [NewEntry(id, user, content, now)], user.id)| == |Owned(entries, user.id)| + 1
  {
    var row := NewEntry(id, user, content, now);
    var uid := user.id;
    FilterAppend(entries, row, (e: JournalEntry) => e.id == id && e.userId == uid);
    FilterAppend(entries, row, (e: JournalEntry) => e.userId == uid);
  }

  /** A row the update matched is one of the caller's rows, edited. */
  lemma MatchedIsEdited(entries: seq<JournalEntry>, id: Id, uid: Id, content: string, now: Time, x: JournalEntry)
    requires x in Matching(Updated(entries, id, uid, content, now), id, uid)
    ensures exists e :: e in entries && e.id == id && e.userId == uid && x == e.(content := content, updatedAt := now)
  {
    var u := Updated(entries, id, uid, content, now);
    var i :| 0 <= i < |u| && u[i] == x;
    assert entries[i] in entries;
    assert x == entries[i].(content := content, updatedAt := now);
  }

  /** A row of the caller's with that id is matched after the update. */
  lemma EditedIsMatched(entries: seq<JournalEntry>, id: Id, uid: Id, content: string, now: Time, e: JournalEntry)
    requires e in entries && e.id == id && e.userId == uid
    ensures Matching(Updated(entries, id, uid, content, now), id, uid) != []
  {
    var u := Updated(entries, id, uid, content, now);
    var i :| 0 <= i < |entries| && entries[i] == e;
    assert u[i] in Matching(u, id, uid);
  }

  /** PUT /journal/:id answers 200 exactly when the caller owns an entry with
      that id, and then with that entry carrying the new content and time and
      every other column as it was. */
  lemma UpdateReplyMeaning(entries: seq<JournalEntry>, id: Id, user: Identity, content: string, now: Time)
    requires content != []
    ensures var r := UpdateReply(entries, id, user, content, now);
            && (r.Ok? <==> exists e :: e in entries && e.id == id && e.userId == user.id)
            && (r.Ok? ==> r.status == 200 && exists e :: e in entries && e.id == id && e.userId == user.id
                                                    && r.value == e.(content := content, updatedAt := now))
            && (r.Err? ==> r == Fail(404, "Journal entry not found"))
  {
    var m := Matching(Updated(entries, id, user.id, content, now), id, user.id);
    if m != [] {
      MatchedIsEdited(entries, id, user.id, content, now, m[0]);
    }
    if exists e :: e in entries && e.id == id && e.userId == user.id {
      var e :| e in entries && e.id == id && e.userId == user.id;
      EditedIsMatched(entries, id, user.id, content, now, e);
    }
  }

  /** DELETE /journal/:id takes out exactly the rows it matched and leaves
      the rest in order. */
  lemma {:induction false} DeleteRemovesMatch(entries: seq<JournalEntry>, id: Id, uid: Id)
    ensures multiset(Remaining(entries, id, uid)) + multiset(Matching(entries, id, uid)) == multiset(entries)
  {
    FilterSplit(entries, (e: JournalEntry) => !(e.id == id && e.userId == uid),
                (e: JournalEntry) => e.id == id && e.userId == uid);
  }

  /** The primary key makes the matched rows at most one. */
  lemma {:induction false} MatchAtMostOne(entries: seq<JournalEntry>, id: Id, uid: Id)
    requires KeyUnique(entries, EntryId)
    ensures |Matching(entries, id, uid)| <= 1
  {
    if entries != [] {
      var rest := entries[1..];
      assert KeyUnique(rest, EntryId) by {
        forall i, j | 0 <= i < j < |rest| ensures EntryId(rest[i]) != EntryId(rest[j]) {
          assert rest[i] == entries[i + 1] && rest[j] == entries[j + 1];
        }
      }
      MatchAtMostOne(rest, id, uid);
      if entries[0].id == id && entries[0].userId == uid {
        forall x | x in rest ensures !(x.id == id && x.userId == uid) {
          var j :| 0 <= j < |rest| && rest[j] == x;
          assert EntryId(entries[0]) != EntryId(entries[j + 1]);
        }
        FilterNone(rest, (e: JournalEntry) => e.id == id && e.userId == uid);
      }
    }
  }

  // ---------------------------------------------------------------------
  // Paging of the list

  lemma PageIsWindow(rows: seq<JournalEntry>, page: int, limit: int)
    ensures var all := SortDesc(rows, CreatedAt);
            && PageOf(rows, page, limit).entries == Window(all, limit, Offset(page, limit))
            && |all| == |rows|
  {
    var all := SortDesc(rows, CreatedAt);
    assert |multiset(all)| == |multiset(rows)|;
  }

  /** With a positive limit exactly the pages 1 to `totalPages` of a listing
      (the caller's entries for GET /journal, the caller's matches for
      GET /journal/search) hold rows, and every page but the last is full. */
  lemma PageSpan(rows: seq<JournalEntry>, page: int, limit: int)
    requires limit > 0 && page >= 1
    ensures var r := PageOf(rows, page, limit);
            && r.pagination.totalPages.Some?
            && (r.entries != [] <==> page <= r.pagination.totalPages.value)
            && (page < r.pagination.totalPages.value ==> |r.entries| == limit)
  {
    PageIsWindow(rows, page, limit);
    Paging.Pagination(SortDesc(rows, CreatedAt), limit, page);
  }

  /** Row `k` of a page is row `(page - 1) * limit + k` of the whole listing,
      newest first. */
  lemma PageRows(rows: seq<JournalEntry>, page: int, limit: int)
    requires limit > 0 && page >= 1
    ensures var r := PageOf(rows, page, limit);
            var all := SortDesc(rows, CreatedAt);
            forall k | 0 <= k < |r.entries| ::
              (page - 1) * limit + k < |all| && r.entries[k] == all[(page - 1) * limit + k]
  {
    PageIsWindow(rows, page, limit);
    MulMono(0, page - 1, limit);
    assert Start(Offset(page, limit)) == (page - 1) * limit;
  }

  /** Twenty-five entries with the default limit make two pages, the second
      holding the five oldest. */
  lemma TwentyFiveEntries(entries: seq<JournalEntry>, user: Identity)
    requires |Owned(entries, user.id)| == 25
    ensures List(entries, user, None, None).value.pagination.totalPages == Some(2)
    ensures |List(entries, user, Some(2), None).value.entries| == 5
    ensures |List(entries, user, Some(3), None).value.entries| == 0
  {
    PageIsWindow(Owned(entries, user.id), 2, DefaultLimit);
    PageIsWindow(Owned(entries, user.id), 3, DefaultLimit);
  }

  // ---------------------------------------------------------------------
  // Search

  /** For a query without `%` or `_`, search finds exactly the caller's
      entries that contain the query up to ASCII case. */
  lemma SearchMeaning(entries: seq<JournalEntry>, uid: Id, q: string)
    requires Plain(q)
    ensures forall e :: e in Found(entries, uid, q) <==>
              e in entries && e.userId == uid && ContainsFolded(e.content, q)
  {
    forall e ensures e in Found(entries, uid, q) <==>
                     e in entries && e.userId == uid && ContainsFolded(e.content, q) {
      PatternMeaning(e.content, q);
    }
  }

  /** Whatever characters the query holds, an entry of the caller's that
      contains it literally is found. */
  lemma SearchFindsLiteral(entries: seq<JournalEntry>, e: JournalEntry, q: string, before: string, after: string)
    requires e in entries && e.content == before + q + after
    ensures e in Found(entries, e.userId, q)
  {
    ContainsMatches(before, q, after);
  }

  // ---------------------------------------------------------------------
  // The table constraints

  /** Replacing the entries table alone keeps the constraints exactly when
      the new entries keep their own key and references and still hold the
      entry of every attachment. */
  lemma NewEntriesWellFormed(db: Db, entries: seq<JournalEntry>)
    requires WellFormed(db)
    ensures WellFormed(db.(entries := entries)) <==>
              && KeyUnique(entries, EntryId)
              && (forall e | e in entries :: e.userId in Keys(db.users, UserId))
              && (forall a | a in db.attachments :: a.journalEntryId in Keys(entries, EntryId))
  {
  }

  lemma CreateKeepsWellFormed(db: Db, e: JournalEntry)
    requires WellFormed(db)
    requires e.id !in Keys(db.entries, EntryId) && e.userId in Keys(db.users, UserId)
    ensures WellFormed(db.(entries := db.entries + [e]))
  {
    AppendKeyUnique(db.entries, e, EntryId);
    assert Keys(db.entries, EntryId) <= Keys(db.entries + [e], EntryId);
  }

  /** Update keeps the id of every row. */
  lemma UpdatedKeys(entries: seq<JournalEntry>, id: Id, uid: Id, content: string, now: Time)
    ensures Keys(Updated(entries, id, uid, content, now), EntryId) == Keys(entries, EntryId)
  {
    var u := Updated(entries, id, uid, content, now);
    forall k ensures k in Keys(u, EntryId) <==> k in Keys(entries, EntryId) {
      if k in Keys(u, EntryId) {
        var x :| x in u && x.id == k;
        var i :| 0 <= i < |u| && u[i] == x;
        assert entries[i] in entries;
      }
      if k in Keys(entries, EntryId) {
        var x :| x in entries && x.id == k;
        var i :| 0 <= i < |entries| && entries[i] == x;
        assert u[i] in u;
      }
    }
  }

  /** Update keeps every key and reference, so it keeps the constraints. */
  lemma UpdateKeepsWellFormed(db: Db, id: Id, uid: Id, content: string, now: Time)
    requires WellFormed(db)
    ensures WellFormed(db.(entries := Updated(db.entries, id, uid, content, now)))
  {
    var u := Updated(db.entries, id, uid, content, now);
    UpdatedKeys(db.entries, id, uid, content, now);
    forall x | x in u ensures x.userId in Keys(db.users, UserId) {
      var i :| 0 <= i < |u| && u[i] == x;
      assert db.entries[i] in db.entries;
    }
    assert KeyUnique(u, EntryId) by {
      forall i, j | 0 <= i < j < |u| ensures EntryId(u[i]) != EntryId(u[j]) {
        assert EntryId(db.entries[i]) != EntryId(db.entries[j]);
      }
    }
    NewEntriesWellFormed(db, u);
  }

  /** The ids left after a delete: all but `id`, when the caller owned it. */
  lemma KeysAfterDelete(entries: seq<JournalEntry>, id: Id, uid: Id)
    requires KeyUnique(entries, EntryId)
    ensures forall k :: k in Keys(Remaining(entries, id, uid), EntryId) <==>
              k in Keys(entries, EntryId) && !(k == id && Matching(entries, id, uid) != [])
  {
    var rest := Remaining(entries, id, uid);
    var matched := Matching(entries, id, uid) != [];
    forall k | k in Keys(entries, EntryId)
      ensures k in Keys(rest, EntryId) <==> !(k == id && matched)
    {
      var x :| x in entries && x.id == k;
      if k == id && matched {
        var m := Matching(entries, id, uid)[0];
        assert m in Matching(entries, id, uid);
        forall y | y in entries && y.id == id ensures y == m {
          var i :| 0 <= i < |entries| && entries[i] == y;
          var j :| 0 <= j < |entries| && entries[j] == m;
          assert EntryId(entries[i]) == EntryId(entries[j]);
        }
      } else {
        assert x in rest;
      }
    }
  }

  /** Deleting an entry keeps the constraints exactly when no attachment
      refers to it: the handler leaves such attachments behind. */
  lemma DeleteWellFormed(db: Db, id: Id, uid: Id)
    requires WellFormed(db)
    ensures WellFormed(db.(entries := Remaining(db.entries, id, uid)))
            <==> (Matching(db.entries, id, uid) == [] || forall a | a in db.attachments :: a.journalEntryId != id)
  {
    var rest := Remaining(db.entries, id, uid);
    FilterKeyUnique(db.entries, (e: JournalEntry) => !(e.id == id && e.userId == uid), EntryId);
    KeysAfterDelete(db.entries, id, uid);
    NewEntriesWellFormed(db, rest);
  }
}
