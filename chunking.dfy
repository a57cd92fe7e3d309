/**
 * The extraction loop both handlers run once the image's size is known:
 * for each planned strip it asks the image codec to crop that region from
 * the original buffer and re-encode it, and appends the resulting chunk.
 * A codec failure on any strip aborts the whole loop.
 */
module Chunking {
  import opened Wrappers
  import opened Decimal
  import opened Partition

  newtype byte = x: int | 0 <= x < 256

  type Bytes = seq<byte>

  /** The rectangle handed to the codec's `extract`: `{left, top, width, height}`. */
  datatype Region = Region(left: nat, top: nat, width: nat, height: nat)

  /**
   * The codec's crop-and-encode step: from the source buffer and a region,
   * the encoded strip or the message of the error it throws.
   */
  type Extractor = (Bytes, Region) -> Result<Bytes, string>

  /** One element of the `chunks` array of the response. */
  datatype Chunk = Chunk(index: nat, total: nat, data: Bytes, filename: string)

  /** What a run of the loop did: the regions it asked for, in order, and its result. */
  datatype Extraction = Extraction(requested: seq<Region>, result: Result<seq<Chunk>, string>)

  /** `chunk-<index>.png`. */
  function Filename(index: nat): (name: string)
    ensures |name| == |NatToString(index)| + 10
    ensures name[..6] == "chunk-" && name[|name| - 4..] == ".png"
    ensures name[6..|name| - 4] == NatToString(index)
  {
    "chunk-" + NatToString(index) + ".png"
  }

  /** Two chunks get the same file name only when they have the same index. */
  lemma FilenameInjective(a: nat, b: nat)
    ensures Filename(a) == Filename(b) <==> a == b
  {
    NatToStringInjective(a, b);
    if Filename(a) == Filename(b) {
      assert NatToString(a) == Filename(a)[6..|Filename(a)| - 4];
    }
  }

  /** The full-width region of a planned strip. */
  function RegionOf(spec: ChunkSpec, width: nat): Region {
    Region(0, spec.top, width, spec.height)
  }

  function Regions(specs: seq<ChunkSpec>, width: nat): seq<Region> {
    seq(|specs|, j requires 0 <= j < |specs| => RegionOf(specs[j], width))
  }

  /** The chunk pushed for a planned strip whose encoding is `data`. */
  function ChunkOf(spec: ChunkSpec, data: Bytes): Chunk {
    Chunk(spec.index, spec.total, data, Filename(spec.index))
  }

  /**
   * The loop over `specs`, defined strip by strip from the front as the loop
   * runs: once a strip fails nothing further is requested.
   */
  function ExtractAll(buffer: Bytes, width: nat, specs: seq<ChunkSpec>, extract: Extractor): (x: Extraction)
    ensures |x.requested| <= |specs|
    ensures x.result.Ok? ==> |x.requested| == |specs| == |x.result.value|
    ensures x.result.Err? ==> |x.requested| > 0
    decreases |specs|
  {
    if specs == [] then Extraction([], Ok([]))
    else
      var prev := ExtractAll(buffer, width, specs[..|specs| - 1], extract);
      var last := specs[|specs| - 1];
      var region := RegionOf(last, width);
      if prev.result.Err? then prev
      else match extract(buffer, region)
        case Err(e) => Extraction(prev.requested + [region], Err(e))
        case Ok(data) => Extraction(prev.requested + [region], Ok(prev.result.value + [ChunkOf(last, data)]))
  }

  /** A failed run is not changed by the strips after the failing one. */
  lemma {:induction false} ExtractAllStops(buffer: Bytes, width: nat, specs: seq<ChunkSpec>, extract: Extractor, k: nat, m: nat)
    requires k <= m <= |specs|
    requires ExtractAll(buffer, width, specs[..k], extract).result.Err?
    ensures ExtractAll(buffer, width, specs[..m], extract) == ExtractAll(buffer, width, specs[..k], extract)
    decreases m
  {
    if m > k {
      assert specs[..m][..m - 1] == specs[..m - 1];
      ExtractAllStops(buffer, width, specs, extract, k, m - 1);
    }
  }

  /**
   * The run succeeds exactly when the codec succeeds on every strip; then it
   * has asked for every strip's region in order and holds one chunk per
   * strip, each carrying that strip's encoding of the original buffer.
   */
  lemma {:induction false} ExtractAllOk(buffer: Bytes, width: nat, specs: seq<ChunkSpec>, extract: Extractor)
    ensures var x := ExtractAll(buffer, width, specs, extract);
      x.result.Ok? <==> forall j | 0 <= j < |specs| :: extract(buffer, RegionOf(specs[j], width)).Ok?
    ensures var x := ExtractAll(buffer, width, specs, extract);
      x.result.Ok? ==>
        x.requested == Regions(specs, width) &&
        |x.result.value| == |specs| &&
        forall j | 0 <= j < |specs| ::
          x.result.value[j] == ChunkOf(specs[j], extract(buffer, RegionOf(specs[j], width)).value)
    decreases |specs|
  {
    if specs != [] {
      var n := |specs|;
      var init := specs[..n - 1];
      ExtractAllOk(buffer, width, init, extract);
      assert forall j | 0 <= j < n - 1 :: init[j] == specs[j];
    }
  }

  /**
   * A failed run has asked for the regions of a non-empty prefix of the
   * strips, in order; the codec succeeded on all of them but the last, and
   * the error is the one the codec gave for that last region.
   */
  lemma {:induction false} ExtractAllErr(buffer: Bytes, width: nat, specs: seq<ChunkSpec>, extract: Extractor)
    ensures var x := ExtractAll(buffer, width, specs, extract);
      x.result.Err? ==>
        0 < |x.requested| <= |specs| &&
        x.requested == Regions(specs[..|x.requested|], width) &&
        (forall j | 0 <= j < |x.requested| - 1 :: extract(buffer, x.requested[j]).Ok?) &&
        extract(buffer, x.requested[|x.requested| - 1]) == Err(x.result.error)
    decreases |specs|
  {
    if specs != [] {
      var n := |specs|;
      var init := specs[..n - 1];
      var prev := ExtractAll(buffer, width, init, extract);
      ExtractAllErr(buffer, width, init, extract);
      var x := ExtractAll(buffer, width, specs, extract);
      if prev.result.Err? {
        assert x == prev;
        assert init[..|prev.requested|] == specs[..|prev.requested|];
      } else if x.result.Err? {
        ExtractAllOk(buffer, width, init, extract);
        var region := RegionOf(specs[n - 1], width);
        assert x.requested == prev.requested + [region];
        assert extract(buffer, region) == Err(x.result.error);
        assert prev.requested == Regions(init, width);
        assert x.requested == Regions(specs, width) by {
          forall j | 0 <= j < n
            ensures x.requested[j] == RegionOf(specs[j], width)
          {
            if j < n - 1 {
              assert init[j] == specs[j];
            }
          }
        }
        assert specs[..n] == specs;
        forall j | 0 <= j < n - 1
          ensures extract(buffer, x.requested[j]).Ok?
        {
          assert init[j] == specs[j];
        }
      }
    }
  }

  /** One more strip after a successful prefix: its region is requested, and its chunk appended if it encodes. */
  lemma ExtractAllStep(buffer: Bytes, width: nat, specs: seq<ChunkSpec>, extract: Extractor, i: nat)
    requires i < |specs|
    requires ExtractAll(buffer, width, specs[..i], extract).result.Ok?
    ensures var prev := ExtractAll(buffer, width, specs[..i], extract);
      var region := RegionOf(specs[i], width);
      ExtractAll(buffer, width, specs[..i + 1], extract) ==
        match extract(buffer, region)
        case Err(e) => Extraction(prev.requested + [region], Err(e))
        case Ok(data) => Extraction(prev.requested + [region], Ok(prev.result.value + [ChunkOf(specs[i], data)]))
  {
    assert specs[..i + 1][..i] == specs[..i];
  }

  /** The region of planned strip `i`: rows from `i * chunkHeight`, `min(chunkHeight, height - i * chunkHeight)` of them. */
  lemma PlannedRegion(height: nat, chunkHeight: nat, width: nat, i: nat)
    requires chunkHeight > 0 && i < NumChunks(height, chunkHeight)
    ensures i * chunkHeight < height
    ensures RegionOf(ChunkSpecs(height, chunkHeight)[i], width) ==
      Region(0, i * chunkHeight, width, Min(chunkHeight, height - i * chunkHeight))
    ensures ChunkSpecs(height, chunkHeight)[i].index == i + 1
    ensures ChunkSpecs(height, chunkHeight)[i].total == NumChunks(height, chunkHeight)
  {
    assert ChunkSpecs(height, chunkHeight)[i] == SpecAt(height, chunkHeight, i);
  }

  /**
   * The loop itself: `numChunks = ceil(height / chunkHeight)`, then for each
   * `i` the region `{0, i * chunkHeight, width, min(chunkHeight, height - i * chunkHeight)}`
   * is cropped from the original buffer and `{index: i + 1, total: numChunks,
   * data, filename}` is appended. It does what ExtractAll says of the planned
   * strips, so all the lemmas above apply to it.
   */
  method ExtractChunks(buffer: Bytes, width: nat, height: nat, chunkHeight: nat, extract: Extractor)
    returns (result: Result<seq<Chunk>, string>, requested: seq<Region>)
    requires chunkHeight > 0
    ensures Extraction(requested, result) == ExtractAll(buffer, width, ChunkSpecs(height, chunkHeight), extract)
  {
    ghost var specs := ChunkSpecs(height, chunkHeight);
    var numChunks := (height + chunkHeight - 1) / chunkHeight;
    assert numChunks == NumChunks(height, chunkHeight);
    var chunks: seq<Chunk> := [];
    requested := [];
    var i := 0;
    while i < numChunks
      invariant 0 <= i <= numChunks
      invariant ExtractAll(buffer, width, specs[..i], extract) == Extraction(requested, Ok(chunks))
    {
      PlannedRegion(height, chunkHeight, width, i);
      var yOffset := i * chunkHeight;
      var actualHeight := Min(chunkHeight, height - yOffset);
      var region := Region(0, yOffset, width, actualHeight);
      ExtractAllStep(buffer, width, specs, extract, i);
      requested := requested + [region];
      var encoded := extract(buffer, region);
      if encoded.Err? {
        result := Err(encoded.error);
        ExtractAllStops(buffer, width, specs, extract, i + 1, numChunks);
        assert specs[..numChunks] == specs;
        return;
      }
      chunks := chunks + [Chunk(i + 1, numChunks, encoded.value, Filename(i + 1))];
      i := i + 1;
    }
    assert specs[..numChunks] == specs;
    result := Ok(chunks);
  }

  /**
   * `chunks` is what the loop produces for an image of `width` by `height`
   * rows: `ceil(height / chunkHeight)` chunks, chunk `k` numbered `k + 1`
   * of that count, named `chunk-<k + 1>.png`, and holding the codec's
   * encoding of the full-width band of
   * `min(chunkHeight, height - k * chunkHeight)` rows starting at row
   * `k * chunkHeight`, cropped from the original buffer.
   */
  predicate CroppedBandByBand(chunks: seq<Chunk>, buffer: Bytes, width: nat, height: nat, chunkHeight: nat, extract: Extractor)
    requires chunkHeight > 0
  {
    |chunks| == NumChunks(height, chunkHeight) &&
    forall k | 0 <= k < |chunks| ::
      chunks[k].index == k + 1 && chunks[k].total == |chunks| &&
      chunks[k].filename == Filename(k + 1) &&
      k * chunkHeight < height &&
      extract(buffer, Region(0, k * chunkHeight, width, Min(chunkHeight, height - k * chunkHeight))) == Ok(chunks[k].data)
  }

  /** Run over the planned strips, a successful loop produces the chunks band by band. */
  lemma PlannedChunks(buffer: Bytes, width: nat, height: nat, chunkHeight: nat, extract: Extractor)
    requires chunkHeight > 0
    ensures var x := ExtractAll(buffer, width, ChunkSpecs(height, chunkHeight), extract);
      x.result.Ok? ==> CroppedBandByBand(x.result.value, buffer, width, height, chunkHeight, extract)
  {
    var specs := ChunkSpecs(height, chunkHeight);
    var x := ExtractAll(buffer, width, specs, extract);
    ExtractAllOk(buffer, width, specs, extract);
    if x.result.Ok? {
      var chunks := x.result.value;
      forall k | 0 <= k < |chunks|
        ensures chunks[k].index == k + 1 && chunks[k].total == |chunks|
        ensures chunks[k].filename == Filename(k + 1)
        ensures k * chunkHeight < height
        ensures extract(buffer, Region(0, k * chunkHeight, width, Min(chunkHeight, height - k * chunkHeight))) == Ok(chunks[k].data)
      {
        StartsInside(height, chunkHeight, k);
        assert specs[k] == SpecAt(height, chunkHeight, k);
        assert RegionOf(specs[k], width) == Region(0, k * chunkHeight, width, Min(chunkHeight, height - k * chunkHeight));
      }
    }
  }

  /** In a successful loop the chunks' indices strictly increase and no two share a file name. */
  lemma ChunkNamesDistinct(buffer: Bytes, width: nat, height: nat, chunkHeight: nat, extract: Extractor)
    requires chunkHeight > 0
    ensures var x := ExtractAll(buffer, width, ChunkSpecs(height, chunkHeight), extract);
      x.result.Ok? ==>
        forall j, k | 0 <= j < k < |x.result.value| ::
          x.result.value[j].index < x.result.value[k].index &&
          x.result.value[j].filename != x.result.value[k].filename
  {
    var x := ExtractAll(buffer, width, ChunkSpecs(height, chunkHeight), extract);
    PlannedChunks(buffer, width, height, chunkHeight, extract);
    if x.result.Ok? {
      var chunks := x.result.value;
      forall j, k | 0 <= j < k < |chunks|
        ensures chunks[j].index < chunks[k].index && chunks[j].filename != chunks[k].filename
      {
        FilenameInjective(j + 1, k + 1);
      }
    }
  }

  /**
   * Whatever the codec does, every region the loop asks for is a
   * full-width band of 1 to `chunkHeight` rows lying inside the image, and
   * the regions asked for are the planned ones, in order.
   */
  lemma RequestsInsideImage(buffer: Bytes, width: nat, height: nat, chunkHeight: nat, extract: Extractor)
    requires chunkHeight > 0
    ensures var specs := ChunkSpecs(height, chunkHeight);
      var x := ExtractAll(buffer, width, specs, extract);
      |x.requested| <= |specs| && x.requested == Regions(specs[..|x.requested|], width) &&
      forall r | r in x.requested ::
        r.left == 0 && r.width == width && 0 < r.height <= chunkHeight && r.top + r.height <= height
  {
    var specs := ChunkSpecs(height, chunkHeight);
    ExtractAllOk(buffer, width, specs, extract);
    ExtractAllErr(buffer, width, specs, extract);
    SpecsInBounds(height, chunkHeight);
    var x := ExtractAll(buffer, width, specs, extract);
    assert x.result.Ok? ==> specs[..|x.requested|] == specs;
  }
}
