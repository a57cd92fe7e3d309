/**
 * The extended handler (api/chunk-image.js): checks the request, the
 * fetched response and the decoded image in turn, answering 400 at the
 * first check that fails; then cuts the image into strips and answers 200
 * with the image size and all the chunks, or 500 when anything throws.
 */
module ApiHandler {
  import opened Wrappers
  import opened Decimal
  import opened Partition
  import opened Chunking
  import opened Boundary

  /** The JSON bodies the handler sends. */
  datatype Body =
    | MissingParameter(error: string)
    | FetchFailed(error: string, url: string)
    | NotAnImage(error: string, contentType: Option<string>, responsePreview: string)
    | InvalidImage(error: string, details: string, bufferSize: nat, contentType: Option<string>)
    | Chunked(success: bool, originalWidth: nat, originalHeight: nat, chunks: seq<Chunk>)
    | InternalError(error: string)

  const NotAnImageMessage: string := "Response is not an image"
  const InvalidImageMessage: string := "Invalid image format"

  /**
   * `contentType && contentType.includes('image')`; the test for an empty
   * header adds nothing, since an empty string contains no `image`.
   */
  predicate AdvertisesImage(contentType: Option<string>)
    ensures AdvertisesImage(contentType) <==> contentType.Some? && Includes(contentType.value, "image")
  {
    contentType.Some? && contentType.value != "" && Includes(contentType.value, "image")
  }

  function FetchFailedMessage(response: FetchedResponse): string {
    "Failed to fetch image: " + NatToString(response.status) + " " + response.statusText
  }

  /** The calls made before the strips are extracted, once the content type is accepted. */
  const DecodeCalls: seq<Call> := [ReadBuffer, ReadMetadata]

  /** The handler, from the query and its two collaborators to the reply and the calls it made. */
  function Respond(q: Query, net: Network, codec: Codec): (h: Handled<Body>)
    requires ValidQuery(q)
    ensures h.reply.status in {200, 400, 500}
    ensures h.reply.status == 200 <==> h.reply.body.Chunked?
    ensures h.reply.status == 500 <==> h.reply.body.InternalError?
    ensures UrlMissing(q) <==> h.calls == []
  {
    if UrlMissing(q) then
      Handled(Reply(400, MissingParameter(MissingUrlMessage)), [])
    else
      var url := q.imageUrl.value;
      match net(url)
      case Err(e) => Handled(Reply(500, InternalError(e)), [Fetch(url)])
      case Ok(response) =>
        if !response.ok then
          Handled(Reply(400, FetchFailed(FetchFailedMessage(response), url)), [Fetch(url)])
        else if !AdvertisesImage(response.contentType) then
          Handled(Reply(400, NotAnImage(NotAnImageMessage, response.contentType, Preview(response.text))),
                  [Fetch(url), ReadText])
        else
          var buffer := response.body;
          match codec.metadata(buffer)
          case Err(details) =>
            Handled(Reply(400, InvalidImage(InvalidImageMessage, details, |buffer|, response.contentType)),
                    [Fetch(url)] + DecodeCalls)
          case Ok(meta) =>
            var x := ExtractAll(buffer, meta.width, ChunkSpecs(meta.height, ChunkHeight(q)), codec.extract);
            var calls := [Fetch(url)] + DecodeCalls + ExtractCalls(x.requested);
            match x.result
            case Err(e) => Handled(Reply(500, InternalError(e)), calls)
            case Ok(chunks) => Handled(Reply(200, Chunked(true, meta.width, meta.height, chunks)), calls)
  }

  /** The fetch of `imageUrl` succeeded with an ok response that advertises an image. */
  predicate ReachesDecoder(q: Query, net: Network) {
    !UrlMissing(q) && net(q.imageUrl.value).Ok? &&
    net(q.imageUrl.value).value.ok && AdvertisesImage(net(q.imageUrl.value).value.contentType)
  }

  /** The codec encodes every planned strip of the image. */
  predicate AllStripsEncode(buffer: Bytes, meta: Metadata, chunkHeight: nat, extract: Extractor)
    requires chunkHeight > 0
  {
    var specs := ChunkSpecs(meta.height, chunkHeight);
    forall k | 0 <= k < |specs| :: extract(buffer, RegionOf(specs[k], meta.width)).Ok?
  }

  /**
   * A missing or empty `imageUrl` is answered 400 with
   * `imageUrl parameter required` and nothing is fetched; any other request
   * starts by fetching `imageUrl`.
   */
  lemma MissingUrlRejected(q: Query, net: Network, codec: Codec)
    requires ValidQuery(q)
    ensures var h := Respond(q, net, codec);
      UrlMissing(q) <==> h.reply == Reply(400, MissingParameter(MissingUrlMessage))
    ensures var h := Respond(q, net, codec);
      if UrlMissing(q) then h.calls == [] else |h.calls| > 0 && h.calls[0] == Fetch(q.imageUrl.value)
  {
  }

  /**
   * A response that is not ok is answered 400 with its status and status
   * text and the requested URL; the content type is not looked at and
   * nothing is decoded.
   */
  lemma FetchNotOk(q: Query, net: Network, codec: Codec)
    requires ValidQuery(q) && !UrlMissing(q)
    requires net(q.imageUrl.value).Ok? && !net(q.imageUrl.value).value.ok
    ensures var url, response := q.imageUrl.value, net(q.imageUrl.value).value;
      var h := Respond(q, net, codec);
      h.reply.status == 400 && h.reply.body.FetchFailed? && h.reply.body.url == url &&
      h.reply.body.error == "Failed to fetch image: " + NatToString(response.status) + " " + response.statusText &&
      h.calls == [Fetch(url)]
  {
  }

  /**
   * An ok response whose content type is absent or does not mention
   * `image` is answered 400 with that content type and the first
   * `min(500, |text|)` characters of the body; only the text is read.
   */
  lemma NotAnImageRejected(q: Query, net: Network, codec: Codec)
    requires ValidQuery(q) && !UrlMissing(q)
    requires net(q.imageUrl.value).Ok? && net(q.imageUrl.value).value.ok
    requires var ct := net(q.imageUrl.value).value.contentType; ct.None? || !Includes(ct.value, "image")
    ensures var response := net(q.imageUrl.value).value;
      var h := Respond(q, net, codec);
      h.reply.status == 400 && h.reply.body.NotAnImage? &&
      h.reply.body.error == NotAnImageMessage &&
      h.reply.body.contentType == response.contentType &&
      |h.reply.body.responsePreview| == Min(500, |response.text|) &&
      h.reply.body.responsePreview == response.text[..|h.reply.body.responsePreview|] &&
      h.calls == [Fetch(q.imageUrl.value), ReadText]
  {
  }

  /**
   * A buffer the codec cannot read is answered 400 with the codec's message,
   * the buffer's length and the advertised content type; no strip is cut.
   */
  lemma InvalidImageRejected(q: Query, net: Network, codec: Codec)
    requires ValidQuery(q) && ReachesDecoder(q, net)
    requires codec.metadata(net(q.imageUrl.value).value.body).Err?
    ensures var response := net(q.imageUrl.value).value;
      var h := Respond(q, net, codec);
      h.reply == Reply(400, InvalidImage(InvalidImageMessage, codec.metadata(response.body).error,
                                         |response.body|, response.contentType)) &&
      h.calls == [Fetch(q.imageUrl.value), ReadBuffer, ReadMetadata]
  {
  }

  /**
   * Which check wins: 200 exactly when every check passes and every strip
   * encodes; 500 exactly when the fetch throws or, past every check, a strip
   * fails; 400 otherwise. A 200 carries the chunks and a 500 carries none.
   */
  lemma StatusClassification(q: Query, net: Network, codec: Codec)
    requires ValidQuery(q)
    ensures var h := Respond(q, net, codec);
      h.reply.status in {200, 400, 500} &&
      (h.reply.status == 200 <==> h.reply.body.Chunked?) &&
      (h.reply.status == 500 <==> h.reply.body.InternalError?)
    ensures var h := Respond(q, net, codec);
      h.reply.status == 200 <==>
        ReachesDecoder(q, net) &&
        var buffer := net(q.imageUrl.value).value.body;
        codec.metadata(buffer).Ok? &&
        AllStripsEncode(buffer, codec.metadata(buffer).value, ChunkHeight(q), codec.extract)
    ensures var h := Respond(q, net, codec);
      h.reply.status == 500 <==>
        !UrlMissing(q) &&
        (net(q.imageUrl.value).Err? ||
         (ReachesDecoder(q, net) &&
          var buffer := net(q.imageUrl.value).value.body;
          codec.metadata(buffer).Ok? &&
          !AllStripsEncode(buffer, codec.metadata(buffer).value, ChunkHeight(q), codec.extract)))
  {
    if ReachesDecoder(q, net) {
      var buffer := net(q.imageUrl.value).value.body;
      if codec.metadata(buffer).Ok? {
        var meta := codec.metadata(buffer).value;
        ExtractAllOk(buffer, meta.width, ChunkSpecs(meta.height, ChunkHeight(q)), codec.extract);
      }
    }
  }

  /** Past every check and a readable size, the reply is decided by the strip loop alone. */
  lemma DecodedReply(q: Query, net: Network, codec: Codec)
    requires ValidQuery(q) && ReachesDecoder(q, net)
    requires codec.metadata(net(q.imageUrl.value).value.body).Ok?
    ensures var buffer := net(q.imageUrl.value).value.body;
      var meta := codec.metadata(buffer).value;
      var x := ExtractAll(buffer, meta.width, ChunkSpecs(meta.height, ChunkHeight(q)), codec.extract);
      var calls := [Fetch(q.imageUrl.value)] + DecodeCalls + ExtractCalls(x.requested);
      Respond(q, net, codec) ==
        if x.result.Ok? then Handled(Reply(200, Chunked(true, meta.width, meta.height, x.result.value)), calls)
        else Handled(Reply(500, InternalError(x.result.error)), calls)
  {
  }

  /**
   * A 200 reports the decoded width and height and exactly
   * `ceil(height / chunkHeight)` chunks: chunk `k` is numbered `k + 1`,
   * carries the count, is named `chunk-<k + 1>.png` and holds the codec's
   * encoding of the full-width band of rows starting at `k * chunkHeight`;
   * the codec was asked for every planned band, in order, from the
   * original buffer.
   */
  lemma SuccessReply(q: Query, net: Network, codec: Codec)
    requires ValidQuery(q)
    requires Respond(q, net, codec).reply.status == 200
    ensures ReachesDecoder(q, net) && codec.metadata(net(q.imageUrl.value).value.body).Ok?
    ensures var buffer := net(q.imageUrl.value).value.body;
      var meta := codec.metadata(buffer).value;
      var c := ChunkHeight(q);
      var h := Respond(q, net, codec);
      h.reply.body.Chunked? && h.reply.body.success &&
      h.reply.body.originalWidth == meta.width && h.reply.body.originalHeight == meta.height &&
      CroppedBandByBand(h.reply.body.chunks, buffer, meta.width, meta.height, c, codec.extract) &&
      h.calls == [Fetch(q.imageUrl.value), ReadBuffer, ReadMetadata] +
                 ExtractCalls(Regions(ChunkSpecs(meta.height, c), meta.width))
  {
    StatusClassification(q, net, codec);
    var buffer := net(q.imageUrl.value).value.body;
    var meta := codec.metadata(buffer).value;
    var c := ChunkHeight(q);
    var x := ExtractAll(buffer, meta.width, ChunkSpecs(meta.height, c), codec.extract);
    DecodedReply(q, net, codec);
    ExtractAllOk(buffer, meta.width, ChunkSpecs(meta.height, c), codec.extract);
    assert x.result.Ok?;
    PlannedChunks(buffer, meta.width, meta.height, c, codec.extract);
  }

  /**
   * When a strip fails the reply is 500 with the codec's message for that
   * strip and no chunks; the codec was asked for the planned bands up to
   * and including the failing one, and for nothing after it.
   */
  lemma StripFailureReply(q: Query, net: Network, codec: Codec)
    requires ValidQuery(q) && ReachesDecoder(q, net)
    requires var buffer := net(q.imageUrl.value).value.body;
      codec.metadata(buffer).Ok? &&
      !AllStripsEncode(buffer, codec.metadata(buffer).value, ChunkHeight(q), codec.extract)
    ensures var buffer := net(q.imageUrl.value).value.body;
      var meta := codec.metadata(buffer).value;
      var specs := ChunkSpecs(meta.height, ChunkHeight(q));
      var h := Respond(q, net, codec);
      h.reply.status == 500 && h.reply.body.InternalError? &&
      exists n | 0 < n <= |specs| ::
        h.calls == [Fetch(q.imageUrl.value), ReadBuffer, ReadMetadata] + ExtractCalls(Regions(specs[..n], meta.width)) &&
        (forall j | 0 <= j < n - 1 :: codec.extract(buffer, RegionOf(specs[j], meta.width)).Ok?) &&
        codec.extract(buffer, RegionOf(specs[n - 1], meta.width)) == Err(h.reply.body.error)
  {
    var buffer := net(q.imageUrl.value).value.body;
    var meta := codec.metadata(buffer).value;
    var specs := ChunkSpecs(meta.height, ChunkHeight(q));
    var x := ExtractAll(buffer, meta.width, specs, codec.extract);
    DecodedReply(q, net, codec);
    ExtractAllOk(buffer, meta.width, specs, codec.extract);
    assert x.result.Err?;
    ExtractAllErr(buffer, meta.width, specs, codec.extract);
    var n := |x.requested|;
    var h := Respond(q, net, codec);
    assert h.calls == [Fetch(q.imageUrl.value), ReadBuffer, ReadMetadata] + ExtractCalls(Regions(specs[..n], meta.width));
    forall j | 0 <= j < n
      ensures x.requested[j] == RegionOf(specs[j], meta.width)
    {
      assert specs[..n][j] == specs[j];
    }
    assert codec.extract(buffer, RegionOf(specs[n - 1], meta.width)) == Err(h.reply.body.error);
  }

  /**
   * The codec is only ever asked to crop full-width bands of 1 to
   * `chunkHeight` rows inside the decoded image, and only after the
   * response was ok, advertised an image, and its size was read.
   */
  lemma ExtractsInsideImage(q: Query, net: Network, codec: Codec)
    requires ValidQuery(q)
    ensures var h := Respond(q, net, codec);
      forall call | call in h.calls && call.Extract? ::
        ReachesDecoder(q, net) &&
        var meta := codec.metadata(net(q.imageUrl.value).value.body);
        meta.Ok? &&
        call.region.left == 0 && call.region.width == meta.value.width &&
        0 < call.region.height <= ChunkHeight(q) &&
        call.region.top + call.region.height <= meta.value.height
  {
    if ReachesDecoder(q, net) {
      var buffer := net(q.imageUrl.value).value.body;
      if codec.metadata(buffer).Ok? {
        var meta := codec.metadata(buffer).value;
        var x := ExtractAll(buffer, meta.width, ChunkSpecs(meta.height, ChunkHeight(q)), codec.extract);
        RequestsInsideImage(buffer, meta.width, meta.height, ChunkHeight(q), codec.extract);
        var h := Respond(q, net, codec);
        forall call | call in h.calls && call.Extract?
          ensures call.region in x.requested
        {
        }
      }
    }
  }
}
