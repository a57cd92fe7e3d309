# Image chunking handlers, modelled in Dafny

The repository has two HTTP handlers. Each one downloads an image from the
`imageUrl` query parameter and cuts it into horizontal strips of at most
`chunkHeight` rows; the default is 7000. Each strip is cropped from the
original image and re-encoded as PNG. The strips come back as
`{index, total, filename, data}` objects:

- `api/chunk-image.js` is the extended handler. It checks the fetched
  response and the decoded image first, and answers 400 with a diagnostic
  body when a check fails. On success it answers 200 with `success`,
  `originalWidth`, `originalHeight` and `chunks`.
- `chunk-image.js` is the minimal handler. It checks only `imageUrl`, and
  its 200 body holds `chunks` alone.
- Both answer 500 with the error's message when anything throws.

The model is split by concern:

- `decimal.dfy` (module `Decimal`): the decimal text of an integer, as a
  template literal prints it. It also has the inverse, used to prove that
  different numbers print differently.
- `partition.dfy` (module `Partition`): the strip plan. `NumChunks` is
  `Math.ceil(height / chunkHeight)`. `ChunkSpecs` is the sequence of
  `{index, total, top, height}` strips. Its lemmas prove that the strips
  tile `[0, height)`.
- `chunking.dfy` (module `Chunking`): the strip loop that both files share.
  `ExtractAll` is the pure specification. `ExtractChunks` is the `while`
  loop, proved to do exactly what `ExtractAll` says.
- `boundary.dfy` (module `Boundary`): the query, the HTTP client's response,
  the codec, the reply, and the log of calls made on the collaborators.
- `api_handler.dfy` (module `ApiHandler`): the extended handler's guard
  chain as a pure function `Respond`, with lemmas about which check wins
  and what each reply carries.
- `legacy_handler.dfy` (module `LegacyHandler`): the minimal handler as an
  imperative method `Serve`, proved equal to its specification function
  `Respond`. A lemma relates it to the extended handler.

The HTTP client (`fetch`) and the image codec (`sharp`) are parameters,
given as functions from their input to a value or to the message of the
error they throw. Each handler returns its reply together with the calls
it made on them, in order: `Fetch(url)`, `ReadText`, `ReadBuffer`,
`ReadMetadata` and `Extract(region)`. This makes "nothing is fetched",
"nothing is decoded" and "these regions, in this order" statable.

The code does less than a reader might expect; the model follows the code:

- A strip failure is answered 500 with the thrown message only; no failing
  chunk index is reported.
- A response with no `content-type` header is rejected as not an image
  (400), like one whose type does not mention `image`.
- The decoded width and height are not checked for positivity. An image
  of height 0 gives a 200 with no chunks.
- The minimal handler does not check the response status or content type
  at all. A 404 page goes on to the codec and, if it fails to decode,
  yields a 500 rather than a 400.

## Model

| member | source | states |
|---|---|---|
| Decimal.NatToString | api/chunk-image.js:74 | the text of `i + 1` is non-empty, all digits, has no leading zero, and is one character exactly for numbers below 10 |
| Decimal.ParseNatToString | api/chunk-image.js:74 | reading the printed digits back gives the number again |
| Decimal.NatToStringInjective | api/chunk-image.js:74 | two numbers print the same text exactly when they are equal |
| Partition.NumChunks | api/chunk-image.js:52 | `numChunks` is the ceiling of `height / chunkHeight`: `(n - 1) * chunkHeight < height <= n * chunkHeight` |
| Partition.StartsInside | chunk-image.js:24-26 | for every loop index below `numChunks`, `yOffset = i * chunkHeight` lies inside the image, so `height - yOffset` is positive |
| Partition.RowsLeft | chunk-image.js:24-26 | before the last strip more than `chunkHeight` rows remain from `yOffset`, so `min` picks `chunkHeight`; at the last strip at most `chunkHeight` remain |
| Partition.SpecAt | api/chunk-image.js:56-57 | strip `i` has index `i + 1`, total `numChunks` and top `i * chunkHeight`; its height is 1 to `chunkHeight` and it ends inside the image. It is full height before the last strip, and the last one ends exactly at `height` |
| Partition.ChunkSpecs | api/chunk-image.js:52-57 | the plan has `numChunks` strips; its other properties are stated by SpecsInBounds, SpecsContiguous, RowInExactlyOneStrip and HeightsSum |
| Partition.SpecsInBounds | chunk-image.js:24-35 | there are `numChunks` strips; strip `k` has index `k + 1`, total `numChunks`, top `k * chunkHeight`, and a height between 1 and `chunkHeight`; it ends inside the image |
| Partition.FullStripsButLast | api/chunk-image.js:55-57 | every strip but the last is `chunkHeight` rows tall; the last is `height - (numChunks - 1) * chunkHeight` rows |
| Partition.SpecsContiguous | chunk-image.js:24-37 | the first strip starts at row 0 and each strip starts where the previous one ends; the last ends at `height`, and the tops strictly increase |
| Partition.RowInExactlyOneStrip | chunk-image.js:24-37 | a row is covered by some strip exactly when it is inside the image; the strip covering row `y` is always strip `y / chunkHeight` |
| Partition.RowCovered | chunk-image.js:24-37 | a row inside the image is covered by strip `y / chunkHeight`, which exists |
| Partition.CoveringStrip | chunk-image.js:24-37 | any strip covering row `y` is strip `y / chunkHeight`, and `y` is inside the image |
| Partition.DivUnique | chunk-image.js:25 | the strip whose rows contain `y` is the `y / chunkHeight`-th |
| Partition.SumOfPrefix | chunk-image.js:25-26 | the strips before the last add up to `k * chunkHeight` rows |
| Partition.HeightsSum | chunk-image.js:24-37 | the strip heights add up to the image height |
| Partition.SingleStrip | chunk-image.js:21-26 | an image no taller than `chunkHeight` is one strip `{index 1, total 1, top 0, height}`; an empty one gives no strip |
| Partition.TallImageExample | api/chunk-image.js:52-57 | 15000 rows at the default 7000 give three strips of 7000, 7000 and 1000 rows, numbered 1 to 3 of 3 |
| Partition.ShortImageExample | api/chunk-image.js:52-57 | 5000 rows at the default 7000 give one strip of 5000 rows, numbered 1 of 1 |
| Chunking.Filename | api/chunk-image.js:74 | the file name is `chunk-`, then the index's digits, then `.png` |
| Chunking.FilenameInjective | api/chunk-image.js:74 | two chunks share a file name exactly when they share an index |
| Chunking.ExtractAll | api/chunk-image.js:55-76 | the loop's specification: it requests at most one region per strip; on success it requested one per strip and holds one chunk per strip; on failure it requested at least one. Its meaning is stated by ExtractAllOk and ExtractAllErr |
| Chunking.ExtractAllStops | api/chunk-image.js:60-68 | once a strip's crop throws, later strips change nothing: no further region is requested |
| Chunking.ExtractAllOk | api/chunk-image.js:55-76 | the loop succeeds exactly when every strip's crop succeeds; it then requested every strip's region in order and holds one chunk per strip, with that strip's encoding |
| Chunking.ExtractAllErr | api/chunk-image.js:55-76 | a failed loop requested the regions of a non-empty prefix of the strips in order; all crops succeeded but the last, whose error is the loop's error |
| Chunking.ExtractAllStep | api/chunk-image.js:60-75 | one iteration after a successful prefix: the strip's region is requested; its chunk is appended if the crop succeeds, otherwise the run fails with the crop's error |
| Chunking.PlannedRegion | api/chunk-image.js:56-66 | the region of planned strip `i` is `{left 0, top i * chunkHeight, width, height min(chunkHeight, height - i * chunkHeight)}`, and strip `i` has index `i + 1` and total `numChunks` |
| Chunking.ExtractChunks | api/chunk-image.js:52-76 | the `for` loop computes `yOffset` and `actualHeight`, crops from the original buffer and pushes `{index, total, data, filename}`; its result and requested regions are exactly those of `ExtractAll` over `ChunkSpecs` |
| Chunking.PlannedChunks | chunk-image.js:24-45 | a successful loop satisfies CroppedBandByBand: `numChunks` chunks; chunk `k` has index `k + 1`, total `numChunks` and name `chunk-<k + 1>.png`, and holds the crop of the full-width band of `min(chunkHeight, height - k * chunkHeight)` rows starting at `k * chunkHeight` |
| Chunking.ChunkNamesDistinct | chunk-image.js:39-44 | in a successful loop the chunk indices strictly increase and no two file names are equal |
| Chunking.RequestsInsideImage | api/chunk-image.js:60-66 | every region requested has left 0, the full width, 1 to `chunkHeight` rows, and lies inside the image; the regions are the planned ones in order |
| Boundary.ChunkHeight | api/chunk-image.js:6 | the chunk height in use is positive; it is the given one when one is given, and 7000 otherwise |
| Boundary.UrlMissing | api/chunk-image.js:8 | `!imageUrl`: absent or empty. It has no contract of its own; MissingUrlRejected states what follows from it |
| Boundary.Preview | api/chunk-image.js:30 | the preview is a prefix of the body text of at most 500 characters; it is the whole text when that is no longer than 500 |
| ApiHandler.MissingUrlRejected | api/chunk-image.js:8-10 | a missing or empty `imageUrl` is exactly the case answered 400 `imageUrl parameter required`; then nothing is fetched, otherwise the first call is the fetch of `imageUrl` |
| ApiHandler.Respond | api/chunk-image.js:4-91 | the whole handler. Its status is 200, 400 or 500; 200 carries chunks and 500 carries an error only; no call is made exactly when `imageUrl` is missing. Which check wins is stated by StatusClassification |
| ApiHandler.AdvertisesImage | api/chunk-image.js:25 | the content type is accepted exactly when it is present and contains `image`; the empty-string test adds nothing |
| ApiHandler.FetchFailedMessage | api/chunk-image.js:18 | the message `Failed to fetch image: <status> <statusText>`. It has no contract of its own; FetchNotOk states the reply that carries it |
| ApiHandler.FetchNotOk | api/chunk-image.js:16-21 | a non-ok response is answered 400 with `Failed to fetch image: <status> <statusText>` and the URL; the fetch is the only call, so there is no content-type check and no decode |
| ApiHandler.NotAnImageRejected | api/chunk-image.js:23-31 | an absent content type, or one without `image`, is answered 400 with that content type; the preview is the first `min(500, |text|)` characters of the body; only the text is read |
| ApiHandler.InvalidImageRejected | api/chunk-image.js:34-47 | an undecodable buffer is answered 400 with the codec's message, `bufferSize` equal to the buffer length, and the advertised content type; no strip is cropped |
| ApiHandler.StatusClassification | api/chunk-image.js:4-91 | status is 200, 400 or 500. 200 means every check passed and every strip encoded; 500 means the fetch threw or, after all checks, a strip failed. 200 always carries chunks and 500 never does |
| ApiHandler.SuccessReply | api/chunk-image.js:49-83 | a 200 has `success`, the decoded width and height, and exactly `numChunks` chunks, numbered, named and cropped band by band; the codec was asked for every band in order |
| ApiHandler.StripFailureReply | api/chunk-image.js:85-90 | a strip failure is answered 500 with the codec's message for that strip and no chunks; the bands up to and including the failing one were requested, none after |
| ApiHandler.DecodedReply | api/chunk-image.js:49-83 | once the checks pass and the size is read, the reply is decided by the strip loop alone: 200 with the loop's chunks, or 500 with its error, after the same calls |
| ApiHandler.ExtractsInsideImage | api/chunk-image.js:49-68 | every crop request is a full-width band inside the decoded image of 1 to `chunkHeight` rows; it is made only after an ok image response whose size was read |
| LegacyHandler.Serve | chunk-image.js:4-52 | the handler run step by step; the loop is `ExtractChunks`. Its reply and calls equal those of the specification `Respond` |
| LegacyHandler.Respond | chunk-image.js:4-52 | the handler's specification. Its status is 200, 400 or 500; 200 carries chunks and 500 an error only; no call is made exactly when `imageUrl` is missing |
| LegacyHandler.MissingUrlRejected | chunk-image.js:8-10 | a missing or empty `imageUrl` is exactly the case answered 400; it carries `imageUrl parameter required`, and nothing is fetched |
| LegacyHandler.StatusClassification | chunk-image.js:47-51 | status is 200, 400 or 500; 200 always carries chunks and 500 never does. 200 means the fetch and the size read succeeded and every strip encoded |
| LegacyHandler.IgnoresResponseHeaders | chunk-image.js:13-18 | the response status, `ok` flag, content type and text are never consulted: two fetches with the same bytes are handled identically, and the buffer and its size are always read |
| LegacyHandler.SuccessReply | chunk-image.js:39-47 | a 200 holds only `chunks`, exactly `numChunks` of them, numbered, named and cropped band by band; the bands were requested in order |
| LegacyHandler.AgreesWithApiHandler | chunk-image.js:13-47 | the extended handler answers 200 exactly when this one does and the response is ok and advertises an image; both then send the same chunks after the same calls |

## Left out

- Network I/O: `fetch`, `response.text()` and `response.buffer()` are not modelled. The response is an input: its `ok` flag, status line, content type, text and bytes. The `ok` flag is taken as given, not derived from the status. The relation between the text and the bytes (UTF-8 decoding) is not modelled.
- Failures of `response.text()` and `response.buffer()` are not modelled. They would land in the catch-all 500, like a failing `fetch`.
- Image codec: reading metadata and crop-and-encode are function parameters. Pixels and PNG encoding are not modelled, and neither are the codec's own checks of region bounds (the model proves requests are always in bounds).
- Base64: `data` holds the encoded chunk bytes. Their base64 text form is not modelled.
- Express plumbing: `req`/`res`, async/await and the `stack` field of the 500 body are not modelled. JSON serialisation is not modelled either; a missing content type is `None` where the JSON has `null`.
- `chunkHeight` is assumed to be a positive integer, or absent (7000 is then used). JavaScript's coercion of a query string, and the behaviour of zero, negative or non-numeric values, are not modelled. Neither is a repeated `imageUrl` parameter, which arrives as an array.
- Arithmetic: `Math.ceil(height / chunkHeight)` uses floating point in the source. The model uses exact integer ceiling division, which agrees for image sizes below 2^53.
- Boundary.Preview: lengths are counted in characters (Unicode scalar values), not in UTF-16 code units as `substring` counts them. A text with characters outside the Basic Multilingual Plane (U+0000 to U+FFFF) therefore gets a different, longer preview than the source sends.
- Decimal.NatToString: numbers of 10^21 or more, which JavaScript prints in exponent form, are not modelled.
