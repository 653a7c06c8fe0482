/**
 * The text codec (`encodeFromText`, `decodeFromBlob`) and the snapshot
 * builder `createHistoryData`.
 *
 * The codec compresses with lz4, a foreign library; here it is a pair of
 * arbitrary, possibly failing functions supplied by the caller, and the
 * round-trip law it is meant to obey is the predicate `Lossless`, assumed
 * only by the lemmas that need it.
 */
module Codec {
  import opened Wrappers
  import opened Records

  /** `encode` turns a text into a blob, `decode` a blob back into a text; either may fail. */
  datatype Codec = Codec(encode: string -> Option<Blob>, decode: Blob -> Option<string>)

  /** Decoding what was encoded gives back the original text. */
  ghost predicate Lossless(c: Codec)
  {
    forall text :: c.encode(text).Some? ==> c.decode(c.encode(text).value) == Some(text)
  }

  /**
   * `createHistoryData`: the snapshot of page `p` that goes into the
   * `history` table. Title and body are compressed (title first; the first
   * failure is returned), the modifier and the date are copied, and the row
   * id and page id are left at zero for the caller to fill in.
   */
  function CreateHistoryData(p: Page, c: Codec): (r: Result<History, WikiError>)
    ensures r.Ok? <==> c.encode(p.title).Some? && c.encode(p.body).Some?
    ensures r.Err? ==> r.error == EncodeFailed
    ensures r.Ok? ==> r.value.title == c.encode(p.title).value && r.value.body == c.encode(p.body).value
    ensures r.Ok? ==> r.value.modifiedUserId == p.lastModifiedUserId && r.value.modifiedDate == p.lastModifiedDate
    ensures r.Ok? ==> r.value.id == 0 && r.value.pageId == 0
  {
    match c.encode(p.title)
    case None => Err(EncodeFailed)
    case Some(title) =>
      match c.encode(p.body)
      case None => Err(EncodeFailed)
      case Some(body) => Ok(History(0, 0, title, body, p.lastModifiedUserId, p.lastModifiedDate))
  }

  /** With a lossless codec, a snapshot decodes back to the page's title and body. */
  lemma SnapshotRoundTrip(p: Page, c: Codec)
    requires Lossless(c)
    requires CreateHistoryData(p, c).Ok?
    ensures c.decode(CreateHistoryData(p, c).value.title) == Some(p.title)
    ensures c.decode(CreateHistoryData(p, c).value.body) == Some(p.body)
  {
  }
}
