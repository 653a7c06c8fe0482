/**
 * The revision store: the `page` and `history` tables and the operations of
 * the wiki that write or read them (`Page.save`, the insert done when a new
 * page is created, `getPageFromDb`).
 *
 * `Tables` is the value of both tables; `SaveResult` and `CreatePageResult`
 * say what each write does to it, and the class `RevisionStore` holds the
 * tables and performs the writes in place, as the Go code does through its
 * database handle.
 *
 * Both tables have auto-increment keys and are dropped and recreated at
 * startup, and nothing ever deletes a row, so page ids are 1, 2, 3, ... and
 * the history row at position i has id i + 1. Inserting a page ignores the
 * id the page carries and assigns the next key, which the inserted page then
 * carries (the behaviour of an auto-increment key in the mapping library).
 * A commit applies all the writes of its transaction together; the store
 * never fails.
 */
module Store {
  import opened Wrappers
  import opened Records
  import opened Codec
  import opened Session

  /** The title of a freshly created page. */
  const DefaultTitle: string := "タイトル未設定"

  /** Both tables: page rows by id, the next page key, and the history rows in insertion order. */
  datatype Tables = Tables(pages: map<int, Page>, nextPageId: int, history: seq<History>)

  /** The tables right after startup. */
  const EmptyTables: Tables := Tables(map[], 1, [])

  /**
   * The tables as auto-increment keys and the write paths keep them: the
   * page keys are exactly 1 .. nextPageId - 1, each row carries its own key,
   * history row i has id i + 1, and every history row names an existing page.
   */
  ghost predicate TablesValid(t: Tables)
  {
    && 1 <= t.nextPageId
    && (forall id :: id in t.pages <==> 1 <= id < t.nextPageId)
    && (forall id :: id in t.pages ==> t.pages[id].id == id)
    && (forall i :: 0 <= i < |t.history| ==> t.history[i].id == i + 1)
    && (forall i :: 0 <= i < |t.history| ==> t.history[i].pageId in t.pages)
  }

  /** What `Page.save` does: the tables after the call, the page `p` after the call, and the error it returns. */
  datatype SaveOutcome = SaveOutcome(tables: Tables, page: Page, err: Option<WikiError>)

  /**
   * `Page.save`. Without an integer user id in the session it fails at once.
   * Otherwise it stamps `p` with the user and `now`, snapshots the stamped
   * page, and fails (with `p` already stamped) if the snapshot cannot be
   * encoded. Then it looks the page up by id: an absent page is inserted
   * under a fresh key; a present one is overwritten; in both cases one
   * history row for that page is appended in the same commit.
   */
  function SaveResult(t: Tables, p: Page, session: SessionValue, now: Time, c: Codec): (r: SaveOutcome)
    ensures r.err == Some(NoUserId) <==> !GetUserId(session).1
    ensures !GetUserId(session).1 ==> r.page == p
    ensures r.err.Some? ==> r.tables == t
    ensures r.err.None? <==> GetUserId(session).1 && CreateHistoryData(r.page, c).Ok?
    ensures GetUserId(session).1 ==>
              && r.page.lastModifiedUserId == GetUserId(session).0
              && r.page.lastModifiedDate == now
              && r.page.title == p.title
              && r.page.body == p.body
    ensures r.err.None? ==>
              && |r.tables.history| == |t.history| + 1
              && r.tables.history[..|t.history|] == t.history
              && r.tables.pages == t.pages[r.page.id := r.page]
  {
    var (uid, hasId) := GetUserId(session);
    if !hasId then SaveOutcome(t, p, Some(NoUserId))
    else
      var stamped := p.(lastModifiedUserId := uid, lastModifiedDate := now);
      match CreateHistoryData(stamped, c)
      case Err(e) => SaveOutcome(t, stamped, Some(e))
      case Ok(h) =>
        if stamped.id !in t.pages then
          var inserted := stamped.(id := t.nextPageId);
          var row := h.(id := |t.history| + 1, pageId := inserted.id);
          SaveOutcome(Tables(t.pages[inserted.id := inserted], t.nextPageId + 1, t.history + [row]), inserted, None)
        else
          var updated := stamped.(id := t.pages[stamped.id].id);
          var row := h.(id := |t.history| + 1, pageId := updated.id);
          SaveOutcome(Tables(t.pages[updated.id := updated], t.nextPageId, t.history + [row]), updated, None)
  }

  /** The new page and the tables after `createNewPageGetHandler`'s insert. */
  datatype Created = Created(tables: Tables, page: Page)

  /**
   * The insert of `createNewPageGetHandler`: a page with the default title,
   * an empty body and no modifier, under the next key; no history row.
   */
  function CreatePageResult(t: Tables): (r: Created)
    ensures r.page.title == DefaultTitle && r.page.body == ""
    ensures r.page.lastModifiedUserId == 0 && r.page.lastModifiedDate == ZeroTime
    ensures TablesValid(t) ==> r.page.id !in t.pages
    ensures TablesValid(t) ==> forall i :: 0 <= i < |t.history| ==> t.history[i].pageId != r.page.id
    ensures r.tables.pages == t.pages[r.page.id := r.page]
    ensures r.tables.history == t.history
  {
    var p := Page(t.nextPageId, DefaultTitle, "", 0, ZeroTime);
    Created(Tables(t.pages[p.id := p], t.nextPageId + 1, t.history), p)
  }

  /** Creating a page keeps the tables well formed. */
  lemma CreatePreservesValid(t: Tables)
    requires TablesValid(t)
    ensures TablesValid(CreatePageResult(t).tables)
  {
  }

  /** Saving keeps the tables well formed. */
  lemma SavePreservesValid(t: Tables, p: Page, session: SessionValue, now: Time, c: Codec)
    requires TablesValid(t)
    ensures TablesValid(SaveResult(t, p, session, now, c).tables)
  {
  }

  /**
   * The history row appended by a successful save is the snapshot of the
   * page as saved: its title and body are the encodings of the saved title
   * and body, its modifier and date are the caller's id and `now`, the same
   * values the saved page carries, and it points at the saved page's id.
   */
  lemma SaveRecordsSavedState(t: Tables, p: Page, session: SessionValue, now: Time, c: Codec)
    requires SaveResult(t, p, session, now, c).err.None?
    ensures var r := SaveResult(t, p, session, now, c);
            var row := r.tables.history[|t.history|];
            && row.pageId == r.page.id
            && row.id == |t.history| + 1
            && Some(row.title) == c.encode(p.title)
            && Some(row.body) == c.encode(p.body)
            && row.modifiedUserId == GetUserId(session).0 == r.page.lastModifiedUserId
            && row.modifiedDate == now == r.page.lastModifiedDate
  {
  }

  /**
   * Saving a page whose id is in the table overwrites that row, keeps the id
   * and the key counter, and leaves every other page as it was.
   */
  lemma SaveUpdatesExistingPage(t: Tables, p: Page, session: SessionValue, now: Time, c: Codec)
    requires TablesValid(t)
    requires p.id in t.pages
    requires SaveResult(t, p, session, now, c).err.None?
    ensures var r := SaveResult(t, p, session, now, c);
            && r.page.id == p.id
            && r.tables.nextPageId == t.nextPageId
            && r.tables.pages.Keys == t.pages.Keys
            && r.tables.pages[p.id] == r.page
            && (forall id :: id in t.pages && id != p.id ==> r.tables.pages[id] == t.pages[id])
            && r.tables.history[|t.history|].pageId == p.id
  {
  }

  /**
   * Saving a page whose id is not in the table inserts it under a fresh key,
   * which the returned page carries and the new history row points at.
   */
  lemma SaveInsertsAbsentPage(t: Tables, p: Page, session: SessionValue, now: Time, c: Codec)
    requires TablesValid(t)
    requires p.id !in t.pages
    requires SaveResult(t, p, session, now, c).err.None?
    ensures var r := SaveResult(t, p, session, now, c);
            && r.page.id == t.nextPageId
            && r.page.id !in t.pages
            && r.tables.nextPageId == t.nextPageId + 1
            && r.tables.pages.Keys == t.pages.Keys + {r.page.id}
            && (forall id :: id in t.pages ==> r.tables.pages[id] == t.pages[id])
            && r.tables.history[|t.history|].pageId == r.page.id
  {
  }

  /** The two tables and their key counter, updated in place. */
  class RevisionStore {
    var pages: map<int, Page>
    var nextPageId: int
    var history: seq<History>
    /** The text codec used for history snapshots. */
    const codec: Codec

    /** The current contents of both tables. */
    function State(): Tables
      reads this
    {
      Tables(pages, nextPageId, history)
    }

    ghost predicate Valid()
      reads this
    {
      TablesValid(State())
    }

    /** Freshly created, empty tables. */
    constructor (codec: Codec)
      ensures Valid() && State() == EmptyTables
      ensures this.codec == codec
    {
      pages, nextPageId, history := map[], 1, [];
      this.codec := codec;
    }

    /**
     * `Page.save`: `p` is the page as the caller holds it, `saved` that page
     * after the call (save stamps it and may give it an id).
     */
    method Save(p: Page, session: SessionValue, now: Time) returns (saved: Page, err: Option<WikiError>)
      requires Valid()
      modifies this
      ensures Valid()
      ensures SaveOutcome(State(), saved, err) == SaveResult(old(State()), p, session, now, codec)
    {
      SavePreservesValid(State(), p, session, now, codec);
      var (uid, hasId) := GetUserId(session);
      if !hasId {
        return p, Some(NoUserId);
      }
      saved := p.(lastModifiedUserId := uid, lastModifiedDate := now);
      var snapshot := CreateHistoryData(saved, codec);
      if snapshot.Err? {
        return saved, Some(snapshot.error);
      }
      var row := snapshot.value;
      if saved.id !in pages {
        // No row has this id: insert the page, which takes the next key.
        saved := saved.(id := nextPageId);
        pages, nextPageId := pages[saved.id := saved], nextPageId + 1;
        row := row.(pageId := saved.id);
        history := history + [row.(id := |history| + 1)];
        return saved, None;
      }
      var pOld := pages[saved.id];
      saved := saved.(id := pOld.id);
      row := row.(pageId := saved.id);
      pages := pages[saved.id := saved];
      history := history + [row.(id := |history| + 1)];
      err := None;
    }

    /** The insert of `createNewPageGetHandler`; returns the new page with its key. */
    method CreateNewPage() returns (p: Page)
      requires Valid()
      modifies this
      ensures Valid()
      ensures Created(State(), p) == CreatePageResult(old(State()))
    {
      CreatePreservesValid(State());
      p := Page(0, DefaultTitle, "", 0, ZeroTime);
      p := p.(id := nextPageId);
      pages, nextPageId := pages[p.id := p], nextPageId + 1;
    }

    /** `getPageFromDb`: the row with key `id`, or `NoRows`. */
    method GetPageFromDb(id: int) returns (r: Result<Page, WikiError>)
      requires Valid()
      ensures r.Ok? <==> id in pages
      ensures r.Ok? ==> r.value == pages[id] && r.value.id == id
      ensures r.Err? ==> r.error == NoRows
    {
      if id in pages {
        r := Ok(pages[id]);
      } else {
        r := Err(NoRows);
      }
    }
  }
}
