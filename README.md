# A verified model of the journal API's handlers

The system is a small journaling web API running on Cloudflare Workers. Users
keep Markdown journal entries, attach files to them, and manage their
accounts. Admins log in through a cookie, list users, create users and delete
them. Every route works on a SQLite (D1) database of five tables. Attachment
bodies live in an R2 bucket.

This project models the handlers and the two middlewares as Dafny:

- `schema.dfy`: the row types, the database as one sequence of rows per table
  in rowid order, and the constraints the table declarations state. These are
  primary keys, UNIQUE columns and foreign keys, gathered in `WellFormed`.
- `store.dfy`: the live database (`Store.Store`) and the bucket
  (`Store.Bucket`) as classes whose fields the handlers update in place.
  Inserts enforce primary keys and UNIQUE columns, as SQLite does. Foreign
  keys are not enforced.
- `http.dfy`: the context user and the reply datatype (status plus body or
  error).
- `journal.dfy`, `paging.dfy`, `like.dfy`: the journal routes. This covers
  ownership filters, `ORDER BY createdAt DESC`, `LIMIT`/`OFFSET` with
  SQLite's treatment of negative values, `Math.ceil(total / limit)`, and
  SQLite's `LIKE` with `%`, `_` and ASCII case folding.
- `attachments.dfy`: upload checks in order, extension and storage-key
  derivation, the two ordered writes, and fetch and delete through the
  ownership join.
- `profile.dfy`: the account routes (profile read and edit, the three
  placeholder endpoints, account delete).
- `cascade.dfy`: the five-statement user delete shared by account delete and
  admin user delete. It is modelled as written (`PurgeAsWritten`), which is
  what both handlers run, and as intended (`Purge`), the corrected reference
  for the one finding below.
- `session.dfy`, `admin.dfy`, `gates.dfy`: the admin login, its cookie and
  the regular expression that reads the cookie back, the admin user routes,
  `adminMiddleware` and `authMiddleware`.
- `*_laws.dfy`: the lemmas that relate several operations.

Things outside the handlers are parameters:

- fresh ids (`createId`), the clock (`new Date()`);
- whether a database or bucket call throws (`dbOk`, `r2Ok`, `getOk`, `txOk`);
- zod's email check (`isEmail`);
- `btoa(JSON.stringify(.))` and `JSON.parse(atob(.))` (a `Codec`, with
  `Lawful` stating the round trip);
- better-auth's `getSession` (a `SessionResult`).

## Model

| member | source | states |
|---|---|---|
| Schema.NewUser | src/db/schema.ts:5-14 | an inserted user is an admin, or verified, only when the insert says so; both timestamps default to now |
| Schema.Filter | src/routes/journal.ts:61 | a `where` keeps exactly the rows the predicate accepts and never adds rows |
| Schema.FilterKeyUnique | src/db/schema.ts:6 | deleting rows keeps a primary key or UNIQUE column unique |
| Schema.AppendKeyUnique | src/db/schema.ts:7 | inserting a row whose key is new keeps the column unique |
| Schema.FilterSplit | src/routes/journal.ts:157-165 | the rows a predicate keeps and the rows its negation keeps make up the table, as multisets |
| Store.Store.InsertUser | src/db/schema.ts:6-7 | an insert succeeds exactly when neither the id nor the email is taken, and then appends the row |
| Store.Store.InsertEntry | src/db/schema.ts:50 | an insert succeeds exactly when the id is new, and then appends the row |
| Store.Store.InsertAttachment | src/db/schema.ts:59 | an insert succeeds exactly when the id is new, and then appends the row |
| Store.Bucket.Put | src/routes/attachments.ts:90-94 | the key now holds an object with the file's content type; every other key is unchanged |
| Store.Bucket.Delete | src/routes/attachments.ts:202 | the key no longer holds an object; every other key is unchanged |
| Journal.PageParam | src/routes/journal.ts:28-31 | `page` defaults to 1 when absent and is otherwise the given number |
| Journal.LimitParam | src/routes/journal.ts:32-35 | `limit` defaults to 20 when absent and is otherwise the given number |
| Journal.Owned | src/routes/journal.ts:61 | exactly the caller's rows |
| Journal.Matching | src/routes/journal.ts:108-113 | exactly the rows with that id that the caller owns |
| Journal.Found | src/routes/journal.ts:185-190 | exactly the caller's rows whose content is `LIKE '%q%'` |
| Journal.PageOf | src/routes/journal.ts:56-78 | a page is newest first, holds only rows of the listing, at most `limit` of them, and reports the listing's full count and page count |
| Journal.List | src/routes/journal.ts:51-80 | GET /journal returns only the caller's rows, newest first, at most `limit` of them, with `total` counting all of them |
| Journal.Search | src/routes/journal.ts:175-215 | an empty `q` is refused with 400; otherwise only the caller's matching rows are returned, newest first and at most `limit` of them, with the query echoed and `total` counting all matches |
| Journal.Get | src/routes/journal.ts:100-121 | 200 exactly when the caller owns an entry with that id, and then that entry; otherwise 404 |
| Journal.NewEntry | src/routes/journal.ts:88-94 | the stored row belongs to the caller and carries the content and the current time |
| Journal.Updated | src/routes/journal.ts:130-142 | the update keeps every row's id, owner and creation time, and changes content and `updatedAt` of matched rows only |
| Journal.Remaining | src/routes/journal.ts:157-165 | the delete keeps exactly the rows it does not match |
| Journal.Create | src/routes/journal.ts:83-97 | empty content is refused before any write; otherwise exactly one row owned by the caller is appended and returned with 201 |
| Journal.Update | src/routes/journal.ts:124-149 | empty content writes nothing; otherwise the table becomes the updated table and the reply is the matched row or 404 |
| Journal.Delete | src/routes/journal.ts:152-172 | the table loses exactly the matched rows; the reply is 404 when there were none |
| JournalLaws.ForeignRowInvisible | src/routes/journal.ts:58-64 | a row owned by someone else changes no answer of list, search, get or delete |
| JournalLaws.ForeignRowUntouched | src/routes/journal.ts:130-165 | update and delete by the caller leave another user's row where it is and unchanged |
| JournalLaws.NotYoursIsAbsent | src/routes/journal.ts:116-118 | an entry owned by someone else gets the same 404 as a missing one, and nothing changes |
| JournalLaws.GetAfterCreate | src/routes/journal.ts:88-120 | the row create stores is the one get returns, and the caller's count grows by one |
| JournalLaws.UpdateReplyMeaning | src/routes/journal.ts:144-148 | update answers 200 exactly when the caller owns the entry, with that entry's new content and time and its other columns unchanged |
| JournalLaws.DeleteRemovesMatch | src/routes/journal.ts:157-165 | the rows left plus the rows deleted are exactly the rows before |
| JournalLaws.MatchAtMostOne | src/db/schema.ts:50 | the primary key makes get, update and delete match at most one row |
| JournalLaws.PageIsWindow | src/routes/journal.ts:56-64 | a page is the `LIMIT`/`OFFSET` window of the newest-first listing |
| JournalLaws.PageSpan | src/routes/journal.ts:77 | with a positive limit, exactly the pages 1 to `totalPages` hold rows |
| JournalLaws.PageRows | src/routes/journal.ts:56 | row `k` of a page is row `(page - 1) * limit + k` of the listing |
| JournalLaws.TwentyFiveEntries | src/routes/journal.ts:27-36 | with the default limit, 25 entries make two pages, the second with 5 rows and the third empty |
| JournalLaws.SearchMeaning | src/routes/journal.ts:188 | for a query without wildcards, search finds exactly the caller's entries containing it up to ASCII case |
| JournalLaws.SearchFindsLiteral | src/routes/journal.ts:188 | whatever characters the query holds, an entry of the caller's that contains it is found |
| JournalLaws.CreateKeepsWellFormed | src/routes/journal.ts:88-94 | a created entry keeps every constraint |
| JournalLaws.UpdateKeepsWellFormed | src/routes/journal.ts:130-142 | an update keeps every constraint |
| JournalLaws.DeleteWellFormed | src/routes/journal.ts:157-165 | a journal delete keeps the constraints exactly when no attachment names the deleted entry |
| Paging.SortDesc | src/routes/journal.ts:62 | the result is ordered by descending key and is a permutation of the rows |
| Paging.Window | src/routes/journal.ts:63-64 | at most `limit` rows, taken in order from the offset; negative offsets count as zero |
| Paging.TotalPages | src/routes/journal.ts:77 | `Math.ceil(total / limit)`, with no value for a zero limit |
| Paging.Pagination | src/routes/journal.ts:56-77 | with a positive limit, a page holds rows exactly when it is at most `totalPages` |
| SqlLike.PatternMeaning | src/routes/journal.ts:188 | for a query without `%` or `_`, `LIKE '%q%'` holds exactly when the text contains `q` up to ASCII case |
| SqlLike.ContainsMatches | src/routes/journal.ts:188 | a text containing `q` literally matches `%q%` |
| SqlLike.LeadingPercent | src/routes/journal.ts:188 | a leading `%` matches exactly when some suffix matches the rest |
| Attachments.AfterLastDot | src/routes/attachments.ts:85 | the text after the last dot: it holds no dot and follows a dot unless it is the whole name |
| Attachments.Extension | src/routes/attachments.ts:85 | the extension is nonempty: the text after the last dot, or `bin` |
| Attachments.StorageKey | src/routes/attachments.ts:86-87 | the key is `attachments/{userId}/{journalId}/{fileId}.{ext}` |
| Attachments.NewAttachment | src/routes/attachments.ts:97-108 | the stored row carries the fresh id, the derived filename and key, and the file's name, type and size |
| Attachments.Rejection | src/routes/attachments.ts:37-81 | the checks run in order: entry ownership (404), a file (400), the allow-list (400), the size ceiling (400); a file that passes the first two is rejected only for its type or size |
| Attachments.Upload | src/routes/attachments.ts:31-115 | a rejected upload writes nothing; then the body is stored before the row, and a failed insert leaves the body behind with 500 |
| Attachments.Visible | src/routes/attachments.ts:124-140 | exactly the attachments with that id whose entry the caller owns |
| Attachments.Headers | src/routes/attachments.ts:157-164 | the headers carry the stored type, size and original name, and private caching for an hour |
| Attachments.Fetch | src/routes/attachments.ts:118-169 | 404 unless the caller owns the attachment's entry; 500 when the read throws; 404 exactly when the body is missing; otherwise 200 with that attachment's headers |
| Attachments.Without | src/routes/attachments.ts:205 | the row delete keeps exactly the rows with other ids |
| Attachments.Delete | src/routes/attachments.ts:172-212 | 404 changes nothing; a failed bucket delete keeps both; otherwise the body goes first and the row second |
| AttachmentLaws.ExtensionCases | src/routes/attachments.ts:85 | `a.b` gives `b`, a trailing dot gives `bin`, and a name without a dot is its own extension |
| AttachmentLaws.KeyDeterminesFile | src/routes/attachments.ts:86-87 | within one entry of one user, the key determines the file id and extension |
| AttachmentLaws.ForeignAttachmentInvisible | src/routes/attachments.ts:134-144 | an attachment under someone else's entry changes no answer of fetch |
| AttachmentLaws.ForeignEntryIsAbsent | src/routes/attachments.ts:48-50 | uploading to someone else's entry is answered like uploading to a missing one |
| AttachmentLaws.UploadKeepsIntegrity | src/routes/attachments.ts:90-108 | an accepted upload keeps the constraints and every row's body in the bucket |
| AttachmentLaws.DeleteKeepsIntegrity | src/routes/attachments.ts:200-207 | a completed delete keeps the constraints and every remaining row's body |
| Profile.UserRows | src/routes/user.ts:45 | exactly the rows with the caller's id |
| Profile.GetProfile | src/routes/user.ts:31-53 | 200 with the caller's row exactly when it exists; otherwise 404 |
| Profile.ProfileIssue | src/routes/user.ts:20-23 | a body is refused exactly when a given name is empty or a given email is malformed, with the name checked first |
| Profile.Edit | src/routes/user.ts:61-74 | `updatedAt` always changes, `name` only for a nonempty name, `email` only for a nonempty email, which also clears `emailVerified`; nothing else changes |
| Profile.ProfileUpdated | src/routes/user.ts:71-74 | the caller's rows are edited; every other row is unchanged |
| Profile.UpdatedRowsReturned | src/routes/user.ts:83-85 | the update returns a row exactly when the caller has one |
| Profile.UpdateProfile | src/routes/user.ts:56-88 | a refused body writes nothing (400); an email another account holds is refused by the UNIQUE column (500); a caller without a row gets 500; otherwise the edited row is returned |
| Profile.ChangePassword | src/routes/user.ts:91-110 | accepted exactly for a nonempty current password and a new one of at least 8 characters; nothing is written and the new password is echoed |
| Profile.RequestPasswordReset | src/routes/user.ts:113-137 | accepted exactly for a well-formed email, which is echoed; no lookup |
| Profile.ResendVerification | src/routes/user.ts:199-214 | answers with the caller's email |
| Profile.DeleteAccount | src/routes/user.ts:140-196 | with no existence check, either the five statements run in full, with the attachment statement as written (`PurgeAsWritten`), and 200 is returned, or nothing changes and 500 is returned |
| ProfileLaws.UpdatedUserIds | src/routes/user.ts:71-74 | the edit changes no id |
| ProfileLaws.UpdateProfileKeepsWellFormed | src/routes/user.ts:71-74 | an edit the UNIQUE email accepts keeps every constraint |
| ProfileLaws.ProfileAfterUpdate | src/routes/user.ts:35-74 | after an edit, the next read shows the new name and email, with the email unverified |
| ProfileLaws.ProfileGoneAfterDelete | src/routes/user.ts:48-50 | after the account is deleted, reading the profile answers 404 |
| Cascade.OwnedEntryIds | src/routes/user.ts:160-163 | exactly the ids of the user's entries |
| Cascade.Purge | src/routes/user.ts:155-165 | the corrected transaction, with `IN` where these lines compare with `eq`: it deletes exactly the user row, the rows naming the user and the attachments of every one of the user's entries |
| Cascade.FirstOwnedEntry | src/routes/admin.ts:448-454 | the subquery as a value is the first of the user's entries in table order, or none |
| Cascade.PurgeAsWritten | src/routes/admin.ts:443-474 | as written, the attachment statement deletes only the attachments of the user's first entry |
| Cascade.PurgeUser | src/routes/admin.ts:443-474 | the five in-place deletes, with the attachment statement as written, leave the tables `PurgeAsWritten` describes |
| CascadeLaws.PurgeInOrderKeepsWellFormed | src/routes/user.ts:154-183 | for the corrected transaction (`IN` at lines 155-165): children before parents, so every intermediate state keeps every constraint |
| CascadeLaws.PurgeKeepsWellFormed | src/routes/user.ts:155-165 | the corrected transaction, with `IN` in place of `eq`, keeps every constraint |
| CascadeLaws.ParentsFirstBreaksIntegrity | src/routes/user.ts:182-183 | deleting the user row first would leave an entry naming a missing user |
| CascadeLaws.PurgeRemovesExactlyOwned | src/routes/user.ts:155-165 | under the corrected transaction (`IN` in place of `eq`) no row belonging to the user survives and every other row does |
| CascadeLaws.PurgeUnknownUser | src/routes/user.ts:140-191 | as written, for a user without a row, in well-formed tables, the transaction changes nothing |
| CascadeLaws.PurgeIdempotent | src/routes/admin.ts:443-474 | as written, a second run changes nothing more |
| CascadeLaws.AsWrittenLeavesOrphan | src/routes/admin.ts:445-455 | with two entries, each with an attachment, the statement as written leaves the second attachment naming a deleted entry |
| CascadeLaws.PurgeClearsTwoEntries | src/routes/user.ts:155-165 | on the same tables, the intended statement removes both attachments and keeps every constraint |
| CascadeLaws.AsWrittenAgreesOnOneEntry | src/routes/user.ts:155-165 | when the user has at most one entry id, the statement as written does what is meant and the transaction keeps every constraint |
| CascadeLaws.AsWrittenMeansIntended | src/routes/user.ts:155-165 | the transaction as written equals the corrected one exactly when no attachment sits under a later entry of the user |
| CascadeLaws.AsWrittenEntriesStatement | src/routes/user.ts:155-170 | after the attachment statement as written, the entries statement leaves tables satisfying every constraint exactly when only the user's first entry has attachments |
| CascadeLaws.AsWrittenKeepsWellFormed | src/routes/admin.ts:443-474 | the transaction as written keeps every constraint exactly when only the user's first entry has attachments |
| AdminSession.UpToSemicolon | src/middleware/admin.ts:20 | `[^;]+` takes the longest prefix without `;` |
| AdminSession.MatchFrom | src/middleware/admin.ts:20 | the leftmost match at or after a position, and its capture |
| AdminSession.SessionCookieValue | src/routes/admin.ts:154-155 | no value exactly when the expression matches nowhere; otherwise the leftmost match's capture, nonempty and without `;` |
| SessionLaws.SetCookieRoundTrip | src/routes/admin.ts:135-138 | the value the login's Set-Cookie carries is read back unchanged |
| SessionLaws.CookieHeaderValue | src/middleware/admin.ts:19-20 | a Cookie header that starts with the session cookie yields its value, whatever cookies follow |
| SessionLaws.LogoutCookieEmpty | src/routes/admin.ts:146 | the logout cookie carries no value the expression accepts |
| Admin.UserByEmail | src/routes/admin.ts:118-127 | a row with that email exactly when one exists |
| Admin.AdminAuth | src/routes/admin.ts:108-141 | 400 without a truthy password, before any lookup; 401 unless an admin row has that email; otherwise that admin's columns and the session cookie of their encoded `{userId, email, name}` |
| Admin.Logout | src/routes/admin.ts:143-149 | 200, and the cookie it sets carries no session |
| Admin.CookieSession | src/routes/admin.ts:154-166 | a session exactly when the cookie matches and its value decodes |
| Admin.DashboardFor | src/routes/admin.ts:151-166 | redirect to the login exactly when there is no session; otherwise the page, with the decoded session |
| Admin.Listings | src/routes/admin.ts:366-376 | one listing per user, in table order |
| Admin.ListUsers | src/routes/admin.ts:362-380 | the listing is newest first and a permutation of all users |
| Admin.NewUserIssue | src/routes/admin.ts:22-26 | a body is refused exactly for a malformed email or an empty name, email first |
| Admin.CreatedRow | src/routes/admin.ts:401-408 | a created user is pre-verified and an admin only when the body says so |
| Admin.CreateUser | src/routes/admin.ts:382-423 | a refused body or a taken email (400) writes nothing; otherwise one row is appended and returned with 201, or nothing is written and 500 is returned |
| Admin.DeleteUser | src/routes/admin.ts:425-481 | an unknown id gets 404 and changes nothing; a failed transaction changes nothing (500); otherwise the tables become `PurgeAsWritten` of the old tables |
| AdminLaws.PasswordNeverCompared | src/routes/admin.ts:113-140 | any two truthy passwords get the same answer |
| AdminLaws.TokenDecodes | src/routes/admin.ts:135-138 | a header holding a token the codec produced decodes to what was encoded |
| AdminLaws.LoginThenDashboard | src/routes/admin.ts:135-163 | after a login, sending the cookie back opens the dashboard with the session the login encoded |
| AdminLaws.ContextChannelOnlyAdmins | src/middleware/admin.ts:42-52 | through the context channel, the handler runs only for a user whose row says admin |
| AdminLaws.Unauthenticated | src/middleware/admin.ts:34-38 | without a usable cookie or context user the answer is 401, whatever the users table holds |
| AdminLaws.AnyEncodedCookieAdmits | src/middleware/admin.ts:22-27 | any value the codec produced passes the gate, with no lookup and no admin check |
| AdminLaws.DeletedAdminKeepsAccess | src/middleware/admin.ts:19-50 | a deleted admin's cookie still passes, while the context channel now refuses them |
| AdminLaws.ReplaceFirstMeaning | src/middleware/auth.ts:17 | `replace` removes the first occurrence of the pattern |
| AdminLaws.ReplaceFirstAbsent | src/middleware/auth.ts:17 | without an occurrence the header is unchanged |
| AdminLaws.BearerStripped | src/middleware/auth.ts:17 | `Bearer t` yields `t` |
| AdminLaws.EmptyToken | src/middleware/auth.ts:17-21 | the token is empty exactly for an empty header or `Bearer ` alone; a header without the prefix is its own token |
| AdminLaws.BearerReachesSession | src/middleware/auth.ts:26-44 | a nonempty token reaches the session lookup, whose outcome alone decides |
| AdminLaws.ListUsersComplete | src/routes/admin.ts:366-377 | the listing holds every user, as many rows as users |
| AdminLaws.CreateUserKeepsWellFormed | src/routes/admin.ts:401-416 | an accepted create keeps every constraint |
| Gates.UserById | src/middleware/admin.ts:42-46 | a row with that id exactly when one exists |
| Gates.AdminGate | src/middleware/admin.ts:14-53 | a decoding cookie proceeds with the raw payload; otherwise 401 without a context user, 403 without an admin row, else proceed with the context user |
| Gates.ReplaceFirst | src/middleware/auth.ts:17 | removing the pattern shortens the header by the pattern's length or not at all |
| Gates.AuthGate | src/middleware/auth.ts:4-44 | 401 for a missing header or an empty token; then 401 for no session or a thrown lookup, else proceed with the session's `{id, email, name}` |

## Left out

- The HTML of the login page and the dashboard, and the browser scripts in them, are presentation only.
- Routing (`src/index.ts`) is not part of this model. Handlers are modelled directly. The user and admin routers are never mounted there, and `/journal/search` is registered after `/journal/:id`, so the search route is shadowed. The attachment router is mounted at `/` (`src/index.ts:43`), so its paths `/:journalId/attachments` and `/:id` never fall under `/attachments/*`: `authMiddleware` does not run for them and the request user is undefined. None of these three points is modelled; the handlers receive the caller as a parameter.
- better-auth (`src/auth.ts`) is not part of this model. `getSession` is an oracle outcome.
- zod's error body is reduced to its first issue's message. The email format check is a parameter.
- `parseInt` on a non-numeric `page` or `limit` gives NaN in the source. Here page and limit are integers, or absent.
- String lengths count Dafny characters, not UTF-16 code units.
- `c.req.json()` failing on a malformed body is not modelled. Nor is a non-string JSON `email` in the admin login.
- A failure of the existence `select` inside the try blocks of admin create and delete user is not modelled. Only a failing insert (`dbOk`) or transaction (`txOk`) is.
- Admin.AdminAuth: a throwing encoder is the framework's 500. The model does not reflect which characters `btoa` refuses.
- Gates.AdminGate: the cookie channel sets the request user to the decoded payload. Its `userId` field is not the `id` the handlers read, and this is not followed further.
- Blob bytes, streams and the form parser are not modelled. A file is its name, type and size, and the bucket maps each key to a content type.
- The Content-Length header is the stored size as a number, not its decimal rendering.
- `ORDER BY createdAt DESC` leaves the order of ties to SQLite. The model fixes one choice: a stable sort, which keeps table order among equal keys.
- Foreign keys: the store does not enforce them. This is an assumption of the model. The tables declare `.references(...)` with no `onDelete` (`src/db/schema.ts:20,41-42,51,60`), and a D1 database with foreign-key enforcement on would refuse a statement that breaks one. Under enforcement, two results change:
  - Journal.Delete: deleting an entry that still has attachments (`src/routes/journal.ts:157-165`) would throw and change nothing, with the framework's 500, where the model removes the entry. `JournalLaws.DeleteWellFormed` states exactly when the delete breaks the foreign key, which is exactly when it would be refused.
  - Cascade.PurgeAsWritten: the entries statement would be refused, the transaction rolled back and the handler would answer 500. `CascadeLaws.AsWrittenEntriesStatement` states exactly when that happens: when an attachment sits under any entry of the user other than the first. The Findings row's consequence is then a refused delete instead of an orphaned row.
- Nullable columns: the users table's `emailVerified`, `isAdmin`, `createdAt` and `updatedAt`, and the timestamp columns with defaults in the other tables, may be NULL in the schema. The model gives them values. Every insert in the handlers fills them through the column defaults, but a NULL written by other code (better-auth) is not represented.
- Two clean-ups a reader might expect are absent from the code, and the model follows the code. The attachment delete keeps the row and answers 500 when the bucket delete throws (`Attachments.Delete`). The journal delete leaves an entry's attachments in place (`Journal.Delete`); `JournalLaws.DeleteWellFormed` states when this breaks the foreign key.
- The attachment bodies of a deleted account or user stay in the bucket, since the code's cleanup is commented out.
- Console logging, and the catch branches of the three placeholder endpoints, which cannot be reached from their bodies, are not modelled.
- Concurrency is not modelled. Each D1 transaction is all-or-nothing.

## Findings

| source | as written | input that shows it | evidently intended | confidence | as-written member | corrected member |
|---|---|---|---|---|---|---|
| src/routes/user.ts:155-165 and src/routes/admin.ts:445-455 | `eq(attachments.journalEntryId, subquery)`: SQLite compares with the subquery's first row only, so only the attachments of the user's first entry are deleted | user `u1` with entries `e1` and `e2`, each with one attachment: the attachment of `e2` survives and names a deleted entry (with foreign keys enforced, the entries statement is refused instead and the delete answers 500) | delete the attachments of every entry of the user (`IN`) | not executed | CascadeLaws.AsWrittenLeavesOrphan | CascadeLaws.PurgeKeepsWellFormed |
