# go_wiki revision store, modelled in Dafny

A model of the page and history logic of the go_wiki personal wiki
(`main.go`): the `page` table holding the current version of each wiki page,
the append-only `history` table of compressed snapshots, and the operations
that write or read them. `Page.save` stamps a page with its editor and the
current time and compresses a snapshot of it. It then looks the page up by id,
inserts the page (if absent) or updates it (if present), and appends one
history row in the same transaction. Creating a page inserts a row with the
default title `タイトル未設定` and no history. `getPageFromDb` reads a row
by id.

Files:

- `wrappers.dfy` holds `Option` and `Result`.
- `records.dfy` holds the `Page` and `History` rows and the error kinds.
- `codec.dfy` holds the abstract codec and `CreateHistoryData`.
- `session.dfy` holds `GetUserId`.
- `store.dfy` holds the tables as a value (`Tables`), the specification
  functions `SaveResult` and `CreatePageResult`, and the class
  `RevisionStore`. The class keeps the tables in fields and updates them
  in place.
- `store_lemmas.dfy` holds properties of arbitrary sequences of writes.

Modelling choices:

- `time.Now()` is the parameter `now`.
- The session's stored value is the parameter `session`, a `SessionValue`.
  `GetUserId` accepts only an `Int64` value. Signup and login store the user's
  id as a hex string (`main.go:303`, `main.go:349`), so a save made in a real
  login session always fails with `NoUserId`.
  `StoreLemmas.SaveFromLoginSessionFails` states this.
- The lz4 codec is a pair of caller-supplied, possibly failing functions.
  Its round-trip law is the predicate `Codec.Lossless`. Only the lemmas
  that need the law take it as a precondition.
- `Page.save` works through a pointer `p`. Here the page goes in as a value,
  and the method returns the page as it is after the call, next to the error.
- Both tables have auto-increment keys and are recreated empty at startup
  (`main.go:357`, `main.go:363`, `main.go:370-371`). Nothing deletes a row.
  So page keys are `1 .. nextPageId - 1`, and history row `i` has id `i + 1`.
  `Store.TablesValid` states this shape, and every write keeps it.
- The `db` package is not part of this model. Its behaviour is assumed:
  - inserting a page ignores the id the page carries;
  - the insert stores the page under the next key and writes that key back
    into the page;
  - so the `history.PageId = p.Id` at `main.go:131` sees the new key;
  - a commit applies all of its writes together.

Two behaviours of `Page.save` worth knowing:

- `save` on an id that is not in the table inserts the page under a fresh
  key. It does not fail with "not found" (`main.go:123-134`).
- `save` stamps the page before it builds the snapshot (`main.go:111-114`).
  So each history row records the version being written, not the version it
  replaces. `StoreLemmas.HistoryRecordsWrittenVersions` walks through a
  create followed by two edits to show this.

## Model

| member | source | states |
|---|---|---|
| `Codec.CreateHistoryData` | main.go:85-103 | The snapshot exists exactly when both title and body encode. Its title and body are those encodings. Its modifier and date are the page's. Its row id and page id are zero. A failed encode gives `EncodeFailed`. |
| `Codec.SnapshotRoundTrip` | main.go:76-83 | With a lossless codec, a snapshot's title and body decode back to the page's title and body. |
| `Session.GetUserId` | main.go:66-74 | An id comes back (with `true`) exactly when the session value is an `int64`, and it is that value. Otherwise the result is `0` and `false`. |
| `Store.SaveResult` | main.go:105-145 | The call fails with `NoUserId` exactly when the session has no integer id, and then `p` is unchanged. Any failure leaves both tables unchanged. The call succeeds exactly when there is an id and the stamped page encodes. With an id, the returned page carries the caller's id and `now`, with the same title and body. On success, history grows by exactly one row, the old rows stay an unchanged prefix, and the page table maps the returned page's id to that page. |
| `Store.SavePreservesValid` | main.go:122-144 | A save, successful or not, keeps the key and reference shape of both tables. |
| `Store.SaveRecordsSavedState` | main.go:111-114 | The appended history row points at the saved page. Its id is the next history key. Its title and body are the encodings of the saved title and body. Its modifier and date are the caller's id and `now`, the same values the saved page carries. |
| `Store.SaveUpdatesExistingPage` | main.go:139-144 | Saving a page whose id is in the table keeps the id and the key counter. It replaces that row with the saved page, leaves every other page unchanged, and appends a history row for that id. |
| `Store.SaveInsertsAbsentPage` | main.go:123-134 | Saving a page whose id is absent inserts it under the next key, which was unused. Existing pages are unchanged. The counter advances by one. The new history row points at the new key. |
| `Store.CreatePageResult` | main.go:202-209 | The new page has the default title, an empty body, user id 0 and the zero date. Its key is unused in the page table and in the history table. It is added to the page table. History is unchanged. |
| `Store.CreatePreservesValid` | main.go:202-209 | Creating a page keeps the key and reference shape of both tables. |
| `Store.RevisionStore.constructor` | main.go:370-371 | The store starts with empty tables and the first key 1. |
| `Store.RevisionStore.Save` | main.go:105-145 | The in-place save leaves the tables, the returned page and the error exactly as `SaveResult` gives them, and keeps the tables well formed. |
| `Store.RevisionStore.CreateNewPage` | main.go:199-209 | The in-place insert leaves the tables and returns the page exactly as `CreatePageResult` gives them, and keeps the tables well formed. |
| `Store.RevisionStore.GetPageFromDb` | main.go:147-162 | Succeeds exactly when the id is in the page table. It then returns that row, which carries the id. Otherwise it fails with `NoRows`. |
| `StoreLemmas.SaveSucceedsIff` | main.go:105-117 | Whether a save succeeds depends only on the session holding an integer id and on the title and body encoding, never on the tables. |
| `StoreLemmas.RunPreservesValid` | main.go:105-145 | Any sequence of creations and saves keeps the tables well formed. |
| `StoreLemmas.HistoryAppendOnly` | main.go:129-143 | After any sequence of writes, the earlier history rows are an unchanged prefix. History has grown by exactly the number of successful saves. |
| `StoreLemmas.PagesNeverRemoved` | main.go:122-144 | No sequence of writes removes a page key. |
| `StoreLemmas.SavesCountedInPageHistory` | main.go:122-144 | Over any sequence of creations and saves, the history rows for an existing page grow by exactly the number of successful saves of that page. Creations and saves of other pages in between add none. |
| `StoreLemmas.CreateThenSaves` | main.go:202-209 | A newly created page, followed by any sequence of writes, has exactly one history row per successful save of it and none from its creation. |
| `StoreLemmas.HistoryRecordsWrittenVersions` | main.go:105-145 | On empty tables: create, then save body "hello" as user 1, then save body "world" as user 2. The page ends as (1, default title, "world", 2, 20). History has two rows that decode to the versions each save wrote: "hello" by 1, then "world" by 2. |
| `StoreLemmas.SaveFromLoginSessionFails` | main.go:106-109 | A session holding a string id (what signup and login store) makes every save fail with `NoUserId` and write nothing. |

## Left out

- HTTP handlers are not modelled, as they are I/O and presentation. This covers redirects, templates, markdown rendering and the view, edit and save handlers. So is the missing `return` after a failed page lookup in the view, edit and save handlers (`main.go:221-224`, `main.go:238-242`, `main.go:256-262`). The save handler then writes the body through a nil page, so it never calls `save` for a missing id. The insert branch of `save` (`Store.SaveInsertsAbsentPage`) is reached only by a direct call.
- The cookie store, signup, login, logout, bcrypt and the user collection (`getUserById`, `getLoginUserInfo`, `needLogin`) are not modelled. They are foreign libraries and I/O. The session's value is a parameter.
- The lz4 algorithm is not modelled. It is a foreign library, so the codec is abstract and its round trip is the hypothesis `Lossless`, not a proved fact.
- Storage failures are not modelled. These are errors from starting or committing a transaction, and the error ignored at `main.go:142`. The process-terminating log call at `main.go:136` is left out too. The in-memory tables never fail.
- `Store.RevisionStore.CreateNewPage`: the failed-transaction path (`main.go:203-206`) is not modelled, and neither is the ignored commit error.
- `Store.RevisionStore.GetPageFromDb`: takes an integer id. The string parsing with an ignored error (`main.go:150`) and the log lines are not modelled.
- The 64-bit widths of ids and user ids are not modelled. Ids are unbounded integers, and key overflow is not modelled.
- Startup, table creation and the test user (`createTable`, `addTestUser`, `includeDb`, `main`) are not modelled. They only contribute the empty initial tables.
- Concurrent saves are not modelled. Every operation is one atomic step on the tables.
