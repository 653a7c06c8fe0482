/**
 * Properties of the revision store over any sequence of page creations and
 * saves: the tables stay well formed, history is append-only and grows by one
 * row per successful save, and a page's history rows count its successful
 * saves.
 */
module StoreLemmas {
  import opened Wrappers
  import opened Records
  import opened Codec
  import opened Session
  import opened Store

  /** One write: a new page, or `Page.save` of a page value. */
  datatype Op = CreatePage | SavePage(p: Page, session: SessionValue, now: Time)

  function Step(t: Tables, op: Op, c: Codec): Tables
  {
    match op
    case CreatePage => CreatePageResult(t).tables
    case SavePage(p, session, now) => SaveResult(t, p, session, now, c).tables
  }

  function Run(t: Tables, ops: seq<Op>, c: Codec): Tables
    decreases |ops|
  {
    if ops == [] then t else Run(Step(t, ops[0], c), ops[1..], c)
  }

  /**
   * Whether a save succeeds does not depend on the tables: it needs an
   * integer user id and an encodable title and body.
   */
  predicate Succeeds(op: Op, c: Codec)
  {
    && op.SavePage?
    && GetUserId(op.session).1
    && c.encode(op.p.title).Some?
    && c.encode(op.p.body).Some?
  }

  function SuccessfulSaves(ops: seq<Op>, c: Codec): nat
    decreases |ops|
  {
    if ops == [] then 0 else (if Succeeds(ops[0], c) then 1 else 0) + SuccessfulSaves(ops[1..], c)
  }

  /** The number of successful saves of the page with key `id`. */
  function SuccessfulSavesTo(ops: seq<Op>, id: int, c: Codec): nat
    decreases |ops|
  {
    if ops == [] then 0
    else (if Succeeds(ops[0], c) && ops[0].p.id == id then 1 else 0) + SuccessfulSavesTo(ops[1..], id, c)
  }

  /** The number of history rows that point at page `id`. */
  function RowsFor(h: seq<History>, id: int): nat
    decreases |h|
  {
    if h == [] then 0 else RowsFor(h[..|h| - 1], id) + (if h[|h| - 1].pageId == id then 1 else 0)
  }

  /** A save succeeds exactly when `Succeeds` says so, whatever the tables. */
  lemma SaveSucceedsIff(t: Tables, p: Page, session: SessionValue, now: Time, c: Codec)
    ensures SaveResult(t, p, session, now, c).err.None? <==> Succeeds(SavePage(p, session, now), c)
  {
  }

  /** Every sequence of writes keeps the tables well formed. */
  lemma {:induction false} RunPreservesValid(t: Tables, ops: seq<Op>, c: Codec)
    requires TablesValid(t)
    ensures TablesValid(Run(t, ops, c))
    decreases |ops|
  {
    if ops != [] {
      match ops[0] {
        case CreatePage => CreatePreservesValid(t);
        case SavePage(p, session, now) => SavePreservesValid(t, p, session, now, c);
      }
      RunPreservesValid(Step(t, ops[0], c), ops[1..], c);
    }
  }

  /**
   * History is append-only: after any sequence of writes the old rows are an
   * unchanged prefix, and exactly one row was added per successful save.
   */
  lemma {:induction false} HistoryAppendOnly(t: Tables, ops: seq<Op>, c: Codec)
    ensures var h := Run(t, ops, c).history;
            && |h| == |t.history| + SuccessfulSaves(ops, c)
            && h[..|t.history|] == t.history
    decreases |ops|
  {
    if ops != [] {
      var t1 := Step(t, ops[0], c);
      match ops[0] {
        case CreatePage =>
        case SavePage(p, session, now) => SaveSucceedsIff(t, p, session, now, c);
      }
      assert |t1.history| == |t.history| + (if Succeeds(ops[0], c) then 1 else 0);
      assert t1.history[..|t.history|] == t.history;
      HistoryAppendOnly(t1, ops[1..], c);
      var h := Run(t, ops, c).history;
      assert h[..|t1.history|] == t1.history;
      assert h[..|t.history|] == h[..|t1.history|][..|t.history|];
    }
  }

  /** Pages are never removed: every key present before any sequence of writes is present after it. */
  lemma {:induction false} PagesNeverRemoved(t: Tables, ops: seq<Op>, c: Codec)
    ensures t.pages.Keys <= Run(t, ops, c).pages.Keys
    decreases |ops|
  {
    if ops != [] {
      PagesNeverRemoved(Step(t, ops[0], c), ops[1..], c);
    }
  }

  lemma RowsForAppend(h: seq<History>, row: History, id: int)
    ensures RowsFor(h + [row], id) == RowsFor(h, id) + (if row.pageId == id then 1 else 0)
  {
  }

  /**
   * Among any sequence of writes, the saves of an existing page add to that
   * page's history exactly one row per successful save; creations and saves
   * of other pages in between add none.
   */
  lemma {:induction false} SavesCountedInPageHistory(t: Tables, id: int, ops: seq<Op>, c: Codec)
    requires TablesValid(t)
    requires id in t.pages
    ensures RowsFor(Run(t, ops, c).history, id) == RowsFor(t.history, id) + SuccessfulSavesTo(ops, id, c)
    decreases |ops|
  {
    if ops != [] {
      var t1 := Step(t, ops[0], c);
      match ops[0] {
        case CreatePage =>
          CreatePreservesValid(t);
        case SavePage(p, session, now) =>
          var r := SaveResult(t, p, session, now, c);
          SaveSucceedsIff(t, p, session, now, c);
          SavePreservesValid(t, p, session, now, c);
          if r.err.None? {
            var row := r.tables.history[|t.history|];
            if p.id in t.pages {
              SaveUpdatesExistingPage(t, p, session, now, c);
            } else {
              SaveInsertsAbsentPage(t, p, session, now, c);
            }
            assert row.pageId == id <==> p.id == id;
            assert r.tables.history == t.history + [row];
            RowsForAppend(t.history, row, id);
          }
      }
      assert RowsFor(t1.history, id) == RowsFor(t.history, id) + (if Succeeds(ops[0], c) && ops[0].p.id == id then 1 else 0);
      SavesCountedInPageHistory(t1, id, ops[1..], c);
    }
  }

  /** No history row points at a key that is not in the page table. */
  lemma {:induction false} NoRowsForAbsentPage(t: Tables, id: int, k: nat)
    requires TablesValid(t)
    requires id !in t.pages
    requires k <= |t.history|
    ensures RowsFor(t.history[..k], id) == 0
    decreases k
  {
    if k > 0 {
      assert t.history[..k][..k - 1] == t.history[..k - 1];
      NoRowsForAbsentPage(t, id, k - 1);
    }
  }

  /**
   * A newly created page, followed by any sequence of writes, has exactly one
   * history row per successful save of it, and none from its creation.
   */
  lemma CreateThenSaves(t: Tables, ops: seq<Op>, c: Codec)
    requires TablesValid(t)
    ensures var created := CreatePageResult(t);
            RowsFor(Run(created.tables, ops, c).history, created.page.id) == SuccessfulSavesTo(ops, created.page.id, c)
  {
    var created := CreatePageResult(t);
    CreatePreservesValid(t);
    NoRowsForAbsentPage(t, created.page.id, |t.history|);
    assert t.history[..|t.history|] == t.history;
    SavesCountedInPageHistory(created.tables, created.page.id, ops, c);
  }

  /**
   * A page created on empty tables, then edited twice through the edit form
   * (reload the page, replace the body, save). Each history row records the
   * page as that save wrote it, not the version it replaced.
   */
  lemma HistoryRecordsWrittenVersions(c: Codec)
    requires Lossless(c)
    requires forall text :: c.encode(text).Some?
    ensures var created := CreatePageResult(EmptyTables);
            var first := SaveResult(created.tables, created.page.(body := "hello"), Int64(1), 10, c);
            var second := SaveResult(first.tables, first.tables.pages[1].(body := "world"), Int64(2), 20, c);
            && created.page.id == 1
            && created.tables.history == []
            && second.err.None?
            && second.tables.pages.Keys == {1}
            && second.tables.pages[1] == Page(1, DefaultTitle, "world", 2, 20)
            && |second.tables.history| == 2
            && c.decode(second.tables.history[0].body) == Some("hello")
            && second.tables.history[0].modifiedUserId == 1
            && c.decode(second.tables.history[1].body) == Some("world")
            && c.decode(second.tables.history[1].title) == Some(DefaultTitle)
            && second.tables.history[1].modifiedUserId == 2
  {
  }

  /**
   * Signup and login put the user's id in the session as a hex string, so a
   * save made in such a session always fails with `NoUserId` and writes
   * nothing.
   */
  lemma SaveFromLoginSessionFails(t: Tables, p: Page, hex: string, now: Time, c: Codec)
    ensures SaveResult(t, p, Text(hex), now, c) == SaveOutcome(t, p, Some(NoUserId))
  {
  }
}
