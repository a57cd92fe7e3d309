/**
 * What a handler sees of the outside world: the query string, the HTTP
 * client's answer, the image codec, and the reply it sends. The HTTP client
 * and the codec are parameters (functions from their inputs to a value or
 * the message of the error they throw); every call a handler makes on them
 * is recorded, in order, as a `Call`.
 */
module Boundary {
  import opened Wrappers
  import opened Partition
  import opened Chunking

  /** The query string: `imageUrl`, and `chunkHeight` when the request gives one. */
  datatype Query = Query(imageUrl: Option<string>, chunkHeight: Option<nat>)

  /** A query whose `chunkHeight`, when present, is a positive number of rows. */
  predicate ValidQuery(q: Query) {
    q.chunkHeight.Some? ==> q.chunkHeight.value > 0
  }

  /** The `chunkHeight` the handler works with: the given one, or 7000 rows. */
  function ChunkHeight(q: Query): (c: nat)
    requires ValidQuery(q)
    ensures c > 0
    ensures q.chunkHeight.Some? ==> c == q.chunkHeight.value
    ensures q.chunkHeight.None? ==> c == DefaultChunkHeight
  {
    q.chunkHeight.GetOr(DefaultChunkHeight)
  }

  /** `!imageUrl`: the parameter is absent or the empty string. */
  predicate UrlMissing(q: Query) {
    q.imageUrl.None? || q.imageUrl.value == ""
  }

  const MissingUrlMessage: string := "imageUrl parameter required"

  /**
   * The HTTP client's response: its `ok` flag, status line, `content-type`
   * header (absent or a string), the body read as text and the body read as
   * a buffer.
   */
  datatype FetchedResponse = FetchedResponse(
    ok: bool, status: nat, statusText: string, contentType: Option<string>, text: string, body: Bytes)

  /** `fetch(url)`: a response, or the message of the error it throws. */
  type Network = string -> Result<FetchedResponse, string>

  /** The image size the codec reads from the buffer's header. */
  datatype Metadata = Metadata(width: nat, height: nat)

  /** The codec: reading the size of an encoded image, and cropping and re-encoding a region of it. */
  datatype Codec = Codec(metadata: Bytes -> Result<Metadata, string>, extract: Extractor)

  /** One call of a handler on the HTTP client or on the codec. */
  datatype Call = Fetch(url: string) | ReadText | ReadBuffer | ReadMetadata | Extract(region: Region)

  function ExtractCalls(regions: seq<Region>): seq<Call> {
    seq(|regions|, j requires 0 <= j < |regions| => Extract(regions[j]))
  }

  /** The HTTP status and the JSON body sent back. */
  datatype Reply<B> = Reply(status: nat, body: B)

  /** One handled request: the reply, and the calls made on the collaborators to produce it. */
  datatype Handled<B> = Handled(reply: Reply<B>, calls: seq<Call>)

  predicate OccursAt(s: string, part: string, k: nat) {
    k + |part| <= |s| && s[k..k + |part|] == part
  }

  /** `s.includes(part)`: `part` occurs in `s` at some position. */
  predicate Includes(s: string, part: string) {
    exists k: nat | k <= |s| :: OccursAt(s, part, k)
  }

  /** `text.substring(0, 500)`: the first 500 characters, or all of a shorter text. */
  function Preview(text: string): (p: string)
    ensures |p| <= 500 && p <= text
    ensures |text| <= 500 ==> p == text
    ensures |text| > 500 ==> |p| == 500
  {
    text[..Min(500, |text|)]
  }
}
