/**
 * The rows of the wiki's two SQL tables, `page` and `history`, and the
 * errors the revision logic can report.
 *
 * Go's `int64` ids and user ids are unbounded `int`s here, and Go's
 * `time.Time` is an abstract instant (an `int`); the model never does
 * arithmetic on either.
 */
module Records {

  /** One byte of a compressed blob. */
  newtype byte = x: int | 0 <= x < 256

  /** The compressed form of a text, as stored in the `history` table. */
  type Blob = seq<byte>

  /** An instant, as returned by `time.Now()`. */
  type Time = int

  /** Go's zero `time.Time`, the date of a page nobody has saved yet. */
  const ZeroTime: Time := 0

  /** A row of the `page` table: the current state of one wiki page. */
  datatype Page = Page(
    id: int,
    title: string,
    body: string,
    lastModifiedUserId: int,
    lastModifiedDate: Time)

  /** A row of the `history` table: a compressed snapshot of a page. */
  datatype History = History(
    id: int,
    pageId: int,
    title: Blob,
    body: Blob,
    modifiedUserId: int,
    modifiedDate: Time)

  /**
   * Why a revision operation failed: the session carries no integer user id,
   * the codec could not compress a text, or no page row has the given id.
   */
  datatype WikiError = NoUserId | EncodeFailed | NoRows
}
