/**
 * The minimal handler (chunk-image.js): after the `imageUrl` check it
 * fetches, reads the buffer, reads the image size and cuts the strips
 * without looking at the response's status or content type; it answers
 * 200 with only the chunks, or 500 with the message of whatever threw.
 */
module LegacyHandler {
  import opened Wrappers
  import opened Partition
  import opened Chunking
  import opened Boundary
  import ApiHandler

  /** The JSON bodies the handler sends. */
  datatype Body =
    | MissingParameter(error: string)
    | ChunksOnly(chunks: seq<Chunk>)
    | InternalError(error: string)

  /** The handler as a function of the query and its collaborators: the reply and the calls made. */
  function Respond(q: Query, net: Network, codec: Codec): (h: Handled<Body>)
    requires ValidQuery(q)
    ensures h.reply.status in {200, 400, 500}
    ensures h.reply.status == 200 <==> h.reply.body.ChunksOnly?
    ensures h.reply.status == 500 <==> h.reply.body.InternalError?
    ensures UrlMissing(q) <==> h.calls == []
  {
    if UrlMissing(q) then
      Handled(Reply(400, MissingParameter(MissingUrlMessage)), [])
    else
      var url := q.imageUrl.value;
      match net(url)
      case Err(e) => Handled(Reply(500, InternalError(e)), [Fetch(url)])
      case Ok(response) =>
        var buffer := response.body;
        match codec.metadata(buffer)
        case Err(e) => Handled(Reply(500, InternalError(e)), [Fetch(url), ReadBuffer, ReadMetadata])
        case Ok(meta) =>
          var x := ExtractAll(buffer, meta.width, ChunkSpecs(meta.height, ChunkHeight(q)), codec.extract);
          var calls := [Fetch(url), ReadBuffer, ReadMetadata] + ExtractCalls(x.requested);
          match x.result
          case Err(e) => Handled(Reply(500, InternalError(e)), calls)
          case Ok(chunks) => Handled(Reply(200, ChunksOnly(chunks)), calls)
  }

  /**
   * The handler step by step, as the source runs it: each awaited call in
   * turn, the strip loop, and the reply.
   */
  method Serve(q: Query, net: Network, codec: Codec) returns (reply: Reply<Body>, calls: seq<Call>)
    requires ValidQuery(q)
    ensures Handled(reply, calls) == Respond(q, net, codec)
  {
    if UrlMissing(q) {
      return Reply(400, MissingParameter(MissingUrlMessage)), [];
    }
    var url := q.imageUrl.value;
    calls := [Fetch(url)];
    var response := net(url);
    if response.Err? {
      return Reply(500, InternalError(response.error)), calls;
    }
    var buffer := response.value.body;
    calls := calls + [ReadBuffer, ReadMetadata];
    var metadata := codec.metadata(buffer);
    if metadata.Err? {
      return Reply(500, InternalError(metadata.error)), calls;
    }
    var result, requested := ExtractChunks(buffer, metadata.value.width, metadata.value.height,
                                           ChunkHeight(q), codec.extract);
    calls := calls + ExtractCalls(requested);
    if result.Err? {
      reply := Reply(500, InternalError(result.error));
    } else {
      reply := Reply(200, ChunksOnly(result.value));
    }
  }

  /**
   * A missing or empty `imageUrl` is answered 400 with
   * `imageUrl parameter required` and nothing is fetched; it is the only
   * 400 this handler sends.
   */
  lemma MissingUrlRejected(q: Query, net: Network, codec: Codec)
    requires ValidQuery(q)
    ensures var h := Respond(q, net, codec);
      (UrlMissing(q) <==> h.reply.status == 400) &&
      (UrlMissing(q) ==> h.reply.body == MissingParameter(MissingUrlMessage) && h.calls == [])
  {
  }

  /**
   * Every other outcome is 200 with the chunks or 500 with an error and no
   * chunks; 200 exactly when the fetch and the size read succeed and every
   * planned strip encodes.
   */
  lemma StatusClassification(q: Query, net: Network, codec: Codec)
    requires ValidQuery(q)
    ensures var h := Respond(q, net, codec);
      h.reply.status in {200, 400, 500} &&
      (h.reply.status == 200 <==> h.reply.body.ChunksOnly?) &&
      (h.reply.status == 500 <==> h.reply.body.InternalError?)
    ensures var h := Respond(q, net, codec);
      h.reply.status == 200 <==>
        !UrlMissing(q) && net(q.imageUrl.value).Ok? &&
        var buffer := net(q.imageUrl.value).value.body;
        codec.metadata(buffer).Ok? &&
        ApiHandler.AllStripsEncode(buffer, codec.metadata(buffer).value, ChunkHeight(q), codec.extract)
  {
    if !UrlMissing(q) && net(q.imageUrl.value).Ok? {
      var buffer := net(q.imageUrl.value).value.body;
      if codec.metadata(buffer).Ok? {
        var meta := codec.metadata(buffer).value;
        ExtractAllOk(buffer, meta.width, ChunkSpecs(meta.height, ChunkHeight(q)), codec.extract);
      }
    }
  }

  /**
   * The response's `ok` flag, status, content type and text are never
   * consulted: two fetches that return the same bytes are handled alike,
   * so a 404 page goes on to the codec and fails there with a 500.
   */
  lemma IgnoresResponseHeaders(q: Query, net1: Network, net2: Network, codec: Codec)
    requires ValidQuery(q) && !UrlMissing(q)
    requires net1(q.imageUrl.value).Ok? && net2(q.imageUrl.value).Ok?
    requires net1(q.imageUrl.value).value.body == net2(q.imageUrl.value).value.body
    ensures Respond(q, net1, codec) == Respond(q, net2, codec)
    ensures Respond(q, net1, codec).calls[..3] == [Fetch(q.imageUrl.value), ReadBuffer, ReadMetadata]
  {
  }

  /**
   * A 200 holds exactly `ceil(height / chunkHeight)` chunks: chunk `k` is
   * numbered `k + 1`, carries the count, is named `chunk-<k + 1>.png` and
   * holds the codec's encoding of the full-width band of rows starting at
   * `k * chunkHeight`; the bands were requested in order from the original
   * buffer.
   */
  lemma SuccessReply(q: Query, net: Network, codec: Codec)
    requires ValidQuery(q)
    requires Respond(q, net, codec).reply.status == 200
    ensures net(q.imageUrl.value).Ok? && codec.metadata(net(q.imageUrl.value).value.body).Ok?
    ensures var buffer := net(q.imageUrl.value).value.body;
      var meta := codec.metadata(buffer).value;
      var c := ChunkHeight(q);
      var h := Respond(q, net, codec);
      h.reply.body.ChunksOnly? &&
      CroppedBandByBand(h.reply.body.chunks, buffer, meta.width, meta.height, c, codec.extract) &&
      h.calls == [Fetch(q.imageUrl.value), ReadBuffer, ReadMetadata] +
                 ExtractCalls(Regions(ChunkSpecs(meta.height, c), meta.width))
  {
    StatusClassification(q, net, codec);
    var buffer := net(q.imageUrl.value).value.body;
    var meta := codec.metadata(buffer).value;
    var c := ChunkHeight(q);
    var x := ExtractAll(buffer, meta.width, ChunkSpecs(meta.height, c), codec.extract);
    ExtractAllOk(buffer, meta.width, ChunkSpecs(meta.height, c), codec.extract);
    assert x.result.Ok?;
    assert Respond(q, net, codec) ==
      Handled(Reply(200, ChunksOnly(x.result.value)),
              [Fetch(q.imageUrl.value), ReadBuffer, ReadMetadata] + ExtractCalls(x.requested));
    PlannedChunks(buffer, meta.width, meta.height, c, codec.extract);
  }

  /**
   * The two handlers agree where the extended one's checks pass: the
   * extended handler answers 200 exactly when this one does and the
   * response is ok and advertises an image, and then both send the same
   * chunks after the same calls.
   */
  lemma AgreesWithApiHandler(q: Query, net: Network, codec: Codec)
    requires ValidQuery(q)
    ensures var api, legacy := ApiHandler.Respond(q, net, codec), Respond(q, net, codec);
      api.reply.status == 200 <==> legacy.reply.status == 200 && ApiHandler.ReachesDecoder(q, net)
    ensures var api, legacy := ApiHandler.Respond(q, net, codec), Respond(q, net, codec);
      api.reply.status == 200 ==>
        legacy.reply.body == ChunksOnly(api.reply.body.chunks) && legacy.calls == api.calls
  {
    ApiHandler.StatusClassification(q, net, codec);
    StatusClassification(q, net, codec);
  }
}
