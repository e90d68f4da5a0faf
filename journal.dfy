/** The journal routes (src/routes/journal.ts): list, search, create, get,
    update and delete, every one of them scoped to the caller's own rows. */
module Journal {
  import opened Schema
  import opened Http
  import opened Paging
  import opened SqlLike
  import Store

  const DefaultPage := 1
  const DefaultLimit := 20

  /** The `page` query parameter after its transform; None stands for a
      parameter that is absent or empty. */
  function PageParam(raw: Option<int>): (page: int)
    ensures raw.None? ==> page == DefaultPage
    ensures raw.Some? ==> page == raw.value
  {
    raw.GetOr(DefaultPage)
  }

  function LimitParam(raw: Option<int>): (limit: int)
    ensures raw.None? ==> limit == DefaultLimit
    ensures raw.Some? ==> limit == raw.value
  {
    raw.GetOr(DefaultLimit)
  }

  function CreatedAt(e: JournalEntry): int {
    e.createdAt
  }

  /** `where userId = uid`, in table order. */
  function Owned(entries: seq<JournalEntry>, uid: Id): (r: seq<JournalEntry>)
    ensures forall e :: e in r <==> e in entries && e.userId == uid
  {
    Filter(entries, (e: JournalEntry) => e.userId == uid)
  }

  /** `where id = id and userId = uid`: the rows get, update and delete act on. */
  function Matching(entries: seq<JournalEntry>, id: Id, uid: Id): (r: seq<JournalEntry>)
    ensures forall e :: e in r <==> e in entries && e.id == id && e.userId == uid
  {
    Filter(entries, (e: JournalEntry) => e.id == id && e.userId == uid)
  }

  /** The caller's rows whose content is `LIKE '%q%'`. */
  function Found(entries: seq<JournalEntry>, uid: Id, q: string): (r: seq<JournalEntry>)
    ensures forall e :: e in r <==> e in entries && e.userId == uid && Like(e.content, Pattern(q))
  {
    Filter(Owned(entries, uid), (e: JournalEntry) => Like(e.content, Pattern(q)))
  }

  datatype Pagination = Pagination(page: int, limit: int, total: nat, totalPages: Option<int>)
  datatype EntryPage = EntryPage(entries: seq<JournalEntry>, pagination: Pagination)
  datatype SearchPage = SearchPage(entries: seq<JournalEntry>, query: string, pagination: Pagination)

  /** One page of `rows`: newest first, `limit` rows from offset
      `(page - 1) * limit`, with the count of all of `rows`. */
  function PageOf(rows: seq<JournalEntry>, page: int, limit: int): (r: EntryPage)
    ensures SortedDesc(r.entries, CreatedAt)
    ensures forall e | e in r.entries :: e in rows
    ensures limit >= 0 ==> |r.entries| <= limit
    ensures r.pagination == Pagination(page, limit, |rows|, TotalPages(|rows|, limit))
  {
    var newest := SortDesc(rows, CreatedAt);
    var w := Window(newest, limit, Offset(page, limit));
    assert forall e | e in w :: e in newest;
    assert forall e | e in newest :: e in rows by {
      forall e | e in newest ensures e in rows {
        assert e in multiset(newest);
      }
    }
    assert SortedDesc(w, CreatedAt) by {
      forall i, j | 0 <= i < j < |w| ensures w[i].createdAt >= w[j].createdAt {
        assert w[i] == newest[Start(Offset(page, limit)) + i];
        assert w[j] == newest[Start(Offset(page, limit)) + j];
      }
    }
    EntryPage(w, Pagination(page, limit, |rows|, TotalPages(|rows|, limit)))
  }

  /** GET /journal */
  function List(entries: seq<JournalEntry>, user: Identity, pageParam: Option<int>,
                limitParam: Option<int>): (r: Reply<EntryPage>)
    ensures r.Ok? && r.status == 200
    ensures forall e | e in r.value.entries :: e in entries && e.userId == user.id
    ensures r.value.pagination.total == |Owned(entries, user.id)|
    ensures SortedDesc(r.value.entries, CreatedAt)
    ensures LimitParam(limitParam) >= 0 ==> |r.value.entries| <= LimitParam(limitParam)
  {
    Ok(200, PageOf(Owned(entries, user.id), PageParam(pageParam), LimitParam(limitParam)))
  }

  /** GET /journal/search */
  function Search(entries: seq<JournalEntry>, user: Identity, q: string, pageParam: Option<int>,
                  limitParam: Option<int>): (r: Reply<SearchPage>)
    ensures r.Err? <==> q == []
    ensures r.Err? ==> r == Fail(400, "Search query is required")
    ensures r.Ok? ==> r.status == 200 && r.value.query == q
    ensures r.Ok? ==> forall e | e in r.value.entries ::
              e in entries && e.userId == user.id && Like(e.content, Pattern(q))
    ensures r.Ok? ==> r.value.pagination.total == |Found(entries, user.id, q)|
    ensures r.Ok? ==> SortedDesc(r.value.entries, CreatedAt)
    ensures r.Ok? && LimitParam(limitParam) >= 0 ==> |r.value.entries| <= LimitParam(limitParam)
  {
    if q == [] then Fail(400, "Search query is required")
    else
      var p := PageOf(Found(entries, user.id, q), PageParam(pageParam), LimitParam(limitParam));
      Ok(200, SearchPage(p.entries, q, p.pagination))
  }

  /** GET /journal/:id */
  function Get(entries: seq<JournalEntry>, id: Id, user: Identity): (r: Reply<JournalEntry>)
    ensures r.Ok? <==> exists e :: e in entries && e.id == id && e.userId == user.id
    ensures r.Ok? ==> r.status == 200 && r.value in entries && r.value.id == id && r.value.userId == user.id
    ensures r.Err? ==> r == Fail(404, "Journal entry not found")
  {
    var m := Matching(entries, id, user.id);
    if m == [] then Fail(404, "Journal entry not found")
    else
      assert m[0] in m;
      Ok(200, m[0])
  }

  /** The row POST /journal inserts. */
  function NewEntry(id: Id, user: Identity, content: string, now: Time): (e: JournalEntry)
    ensures e.id == id && e.userId == user.id && e.content == content
    ensures e.createdAt == now && e.updatedAt == now
  {
    JournalEntry(id, user.id, content, now, now)
  }

  /** `set({ content, updatedAt })` applied to one row, if the row matches. */
  function Touch(e: JournalEntry, id: Id, uid: Id, content: string, now: Time): JournalEntry {
    if e.id == id && e.userId == uid then e.(content := content, updatedAt := now) else e
  }

  /** The table after `update(...).set({ content, updatedAt }).where(id, userId)`. */
  function Updated(entries: seq<JournalEntry>, id: Id, uid: Id, content: string, now: Time)
    : (r: seq<JournalEntry>)
    ensures |r| == |entries|
    ensures forall i | 0 <= i < |r| ::
              && r[i].id == entries[i].id
              && r[i].userId == entries[i].userId
              && r[i].createdAt == entries[i].createdAt
    ensures forall i | 0 <= i < |r| ::
              if entries[i].id == id && entries[i].userId == uid
              then r[i].content == content && r[i].updatedAt == now
              else r[i] == entries[i]
  {
    if entries == [] then []
    else [Touch(entries[0], id, uid, content, now)] + Updated(entries[1..], id, uid, content, now)
  }

  /** PUT /journal/:id answers with the first row `.returning()` yields. */
  function UpdateReply(entries: seq<JournalEntry>, id: Id, user: Identity, content: string, now: Time)
    : Reply<JournalEntry>
  {
    if content == [] then Fail(400, "Content is required")
    else
      var m := Matching(Updated(entries, id, user.id, content, now), id, user.id);
      if m == [] then Fail(404, "Journal entry not found") else Ok(200, m[0])
  }

  /** The table after `delete(...).where(id, userId)`. */
  function Remaining(entries: seq<JournalEntry>, id: Id, uid: Id): (r: seq<JournalEntry>)
    ensures forall e :: e in r <==> e in entries && !(e.id == id && e.userId == uid)
  {
    Filter(entries, (e: JournalEntry) => !(e.id == id && e.userId == uid))
  }

  /** DELETE /journal/:id */
  function DeleteReply(entries: seq<JournalEntry>, id: Id, user: Identity): Reply<Message> {
    if Matching(entries, id, user.id) == [] then Fail(404, "Journal entry not found")
    else Ok(200, Message("Journal entry deleted successfully"))
  }

  // ---------------------------------------------------------------------
  // The handlers that write

  /** POST /journal. Empty content is refused before anything is written; an
      id that is already taken makes the insert throw, which the framework
      answers with 500. */
  method Create(st: Store.Store, user: Identity, content: string, freshId: Id, now: Time)
    returns (r: Reply<JournalEntry>)
    modifies st`entries
    ensures content == [] ==> r == Fail(400, "Content is required") && st.entries == old(st.entries)
    ensures content != [] && freshId in Keys(old(st.entries), EntryId) ==>
              r == Fail(500, "Internal Server Error") && st.entries == old(st.entries)
    ensures content != [] && freshId !in Keys(old(st.entries), EntryId) ==>
              r == Ok(201, NewEntry(freshId, user, content, now))
              && st.entries == old(st.entries) + [NewEntry(freshId, user, content, now)]
  {
    if content == [] {
      r := Fail(400, "Content is required");
      return;
    }
    var row := NewEntry(freshId, user, content, now);
    var ok := st.InsertEntry(row);
    if ok {
      r := Ok(201, row);
    } else {
      r := Fail(500, "Internal Server Error");
    }
  }

  /** PUT /journal/:id */
  method Update(st: Store.Store, id: Id, user: Identity, content: string, now: Time)
    returns (r: Reply<JournalEntry>)
    modifies st`entries
    ensures r == UpdateReply(old(st.entries), id, user, content, now)
    ensures st.entries == if content == [] then old(st.entries)
                          else Updated(old(st.entries), id, user.id, content, now)
  {
    if content == [] {
      r := Fail(400, "Content is required");
      return;
    }
    st.entries := Updated(st.entries, id, user.id, content, now);
    var returned := Matching(st.entries, id, user.id);
    if returned == [] {
      r := Fail(404, "Journal entry not found");
    } else {
      r := Ok(200, returned[0]);
    }
  }

  /** DELETE /journal/:id */
  method Delete(st: Store.Store, id: Id, user: Identity) returns (r: Reply<Message>)
    modifies st`entries
    ensures r == DeleteReply(old(st.entries), id, user)
    ensures st.entries == Remaining(old(st.entries), id, user.id)
  {
    var deleted := Matching(st.entries, id, user.id);
    st.entries := Remaining(st.entries, id, user.id);
    if deleted == [] {
      r := Fail(404, "Journal entry not found");
    } else {
      r := Ok(200, Message("Journal entry deleted successfully"));
    }
  }
}
