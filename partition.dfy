/**
 * The vertical partition both handlers compute: how many strips of at most
 * `chunkHeight` rows an image of `height` rows is cut into, and which rows
 * each strip covers.
 */
module Partition {

  /** The chunk height used when the request does not give one. */
  const DefaultChunkHeight: nat := 7000

  function Min(a: int, b: int): int {
    if a <= b then a else b
  }

  /** One planned strip: its 1-based position, the number of strips, its first row and its row count. */
  datatype ChunkSpec = ChunkSpec(index: nat, total: nat, top: nat, height: nat)

  /** The rows `[top, top + height)` of the strip contain row `y`. */
  predicate Covers(spec: ChunkSpec, y: int) {
    spec.top <= y < spec.top + spec.height
  }

  lemma MulMonotone(a: nat, b: nat, c: nat)
    requires a <= b
    ensures a * c <= b * c
  {
  }

  lemma MulSucc(a: int, c: int)
    ensures (a + 1) * c == a * c + c
  {
  }

  /** `Math.ceil(height / chunkHeight)`: the least count of strips of `chunkHeight` rows that reaches `height`. */
  function NumChunks(height: nat, chunkHeight: nat): (n: nat)
    requires chunkHeight > 0
    ensures (n - 1) * chunkHeight < height <= n * chunkHeight
  {
    var q := (height + chunkHeight - 1) / chunkHeight;
    var r := (height + chunkHeight - 1) % chunkHeight;
    assert height + chunkHeight - 1 == q * chunkHeight + r;
    assert (q - 1) * chunkHeight == q * chunkHeight - chunkHeight;
    q
  }

  /** A strip index below the count starts inside the image. */
  lemma StartsInside(height: nat, chunkHeight: nat, i: nat)
    requires chunkHeight > 0 && i < NumChunks(height, chunkHeight)
    ensures i * chunkHeight < height
  {
    MulMonotone(i, NumChunks(height, chunkHeight) - 1, chunkHeight);
  }

  /**
   * The rows left from strip `i` on: more than `chunkHeight` before the last
   * strip, and at most `chunkHeight` at the last one.
   */
  lemma RowsLeft(height: nat, chunkHeight: nat, i: nat)
    requires chunkHeight > 0 && i < NumChunks(height, chunkHeight)
    ensures i * chunkHeight < height
    ensures i + 1 < NumChunks(height, chunkHeight) ==> i * chunkHeight + chunkHeight < height
    ensures i + 1 == NumChunks(height, chunkHeight) ==> height <= i * chunkHeight + chunkHeight
  {
    var n := NumChunks(height, chunkHeight);
    StartsInside(height, chunkHeight, i);
    MulSucc(i, chunkHeight);
    if i + 1 < n {
      MulMonotone(i + 1, n - 1, chunkHeight);
    }
  }

  /** Strip `i` (0-based): it starts at `i * chunkHeight` and is `min(chunkHeight, height - top)` rows tall. */
  function SpecAt(height: nat, chunkHeight: nat, i: nat): (s: ChunkSpec)
    requires chunkHeight > 0 && i < NumChunks(height, chunkHeight)
    ensures s.index == i + 1 && s.total == NumChunks(height, chunkHeight) && s.top == i * chunkHeight
    ensures 0 < s.height <= chunkHeight && s.top + s.height <= height
    ensures i + 1 < NumChunks(height, chunkHeight) ==> s.height == chunkHeight
    ensures i + 1 == NumChunks(height, chunkHeight) ==> s.top + s.height == height
  {
    RowsLeft(height, chunkHeight, i);
    var top := i * chunkHeight;
    ChunkSpec(i + 1, NumChunks(height, chunkHeight), top, Min(chunkHeight, height - top))
  }

  /** All strips, in loop order: as many as `Math.ceil(height / chunkHeight)`. */
  function ChunkSpecs(height: nat, chunkHeight: nat): (specs: seq<ChunkSpec>)
    requires chunkHeight > 0
    ensures |specs| == NumChunks(height, chunkHeight)
  {
    var n := NumChunks(height, chunkHeight);
    seq(n, i requires 0 <= i < n => SpecAt(height, chunkHeight, i))
  }

  /** Sum of the strips' row counts. */
  function SumHeights(specs: seq<ChunkSpec>): nat
    decreases |specs|
  {
    if specs == [] then 0 else SumHeights(specs[..|specs| - 1]) + specs[|specs| - 1].height
  }

  /**
   * Each strip is numbered from 1 in order, carries the total, starts at
   * `k * chunkHeight`, is between 1 and `chunkHeight` rows tall and ends
   * inside the image.
   */
  lemma SpecsInBounds(height: nat, chunkHeight: nat)
    requires chunkHeight > 0
    ensures var specs := ChunkSpecs(height, chunkHeight);
      |specs| == NumChunks(height, chunkHeight) &&
      forall k | 0 <= k < |specs| ::
        specs[k].index == k + 1 && specs[k].total == |specs| &&
        specs[k].top == k * chunkHeight &&
        0 < specs[k].height <= chunkHeight &&
        specs[k].top + specs[k].height <= height
  {
    var specs := ChunkSpecs(height, chunkHeight);
    forall k | 0 <= k < |specs|
      ensures specs[k] == SpecAt(height, chunkHeight, k)
    {
    }
  }

  /**
   * Every strip but the last is exactly `chunkHeight` rows tall; the last one
   * holds the remaining `height - (n - 1) * chunkHeight` rows.
   */
  lemma FullStripsButLast(height: nat, chunkHeight: nat)
    requires chunkHeight > 0
    ensures var specs := ChunkSpecs(height, chunkHeight);
      (forall k | 0 <= k < |specs| - 1 :: specs[k].height == chunkHeight) &&
      (|specs| > 0 ==> specs[|specs| - 1].height == height - (|specs| - 1) * chunkHeight)
  {
    var specs := ChunkSpecs(height, chunkHeight);
    var n := |specs|;
    forall k | 0 <= k < n - 1
      ensures specs[k].height == chunkHeight
    {
      assert specs[k] == SpecAt(height, chunkHeight, k);
    }
    if n > 0 {
      assert specs[n - 1] == SpecAt(height, chunkHeight, n - 1);
      assert specs[n - 1].top == (n - 1) * chunkHeight;
    }
  }

  /**
   * The strips are contiguous: the first starts at row 0, each starts where
   * the previous one ends, and the last ends at row `height`.
   */
  lemma SpecsContiguous(height: nat, chunkHeight: nat)
    requires chunkHeight > 0
    ensures var specs := ChunkSpecs(height, chunkHeight);
      (|specs| > 0 ==> specs[0].top == 0 && specs[|specs| - 1].top + specs[|specs| - 1].height == height) &&
      (forall k | 0 <= k < |specs| - 1 :: specs[k].top + specs[k].height == specs[k + 1].top) &&
      (forall j, k | 0 <= j < k < |specs| :: specs[j].top < specs[k].top)
  {
    var specs := ChunkSpecs(height, chunkHeight);
    var n := |specs|;
    if n > 0 {
      assert specs[0] == SpecAt(height, chunkHeight, 0);
      assert specs[n - 1] == SpecAt(height, chunkHeight, n - 1);
    }
    forall k | 0 <= k < n - 1
      ensures specs[k].top + specs[k].height == specs[k + 1].top
    {
      assert specs[k] == SpecAt(height, chunkHeight, k);
      assert specs[k + 1] == SpecAt(height, chunkHeight, k + 1);
      MulSucc(k, chunkHeight);
    }
    forall j, k | 0 <= j < k < n
      ensures specs[j].top < specs[k].top
    {
      assert specs[j] == SpecAt(height, chunkHeight, j);
      assert specs[k] == SpecAt(height, chunkHeight, k);
      MulSucc(j, chunkHeight);
      MulMonotone(j + 1, k, chunkHeight);
    }
  }

  /** `y / c` names the band of `c` rows that holds `y`. */
  lemma DivBounds(y: nat, c: nat)
    requires c > 0
    ensures (y / c) * c <= y < (y / c) * c + c
  {
    assert y == (y / c) * c + y % c;
  }

  /** A row inside the image is covered by strip `y / chunkHeight`. */
  lemma RowCovered(height: nat, chunkHeight: nat, y: nat)
    requires chunkHeight > 0 && y < height
    ensures y / chunkHeight < |ChunkSpecs(height, chunkHeight)|
    ensures Covers(ChunkSpecs(height, chunkHeight)[y / chunkHeight], y)
  {
    var n := NumChunks(height, chunkHeight);
    var k := y / chunkHeight;
    DivBounds(y, chunkHeight);
    assert k < n by {
      if n <= k {
        MulMonotone(n, k, chunkHeight);
      }
    }
    assert ChunkSpecs(height, chunkHeight)[k] == SpecAt(height, chunkHeight, k);
  }

  /** A strip covering row `y` is strip `y / chunkHeight`, and `y` is inside the image. */
  lemma CoveringStrip(height: nat, chunkHeight: nat, y: int, k: nat)
    requires chunkHeight > 0 && k < |ChunkSpecs(height, chunkHeight)|
    requires Covers(ChunkSpecs(height, chunkHeight)[k], y)
    ensures k == y / chunkHeight && 0 <= y < height
  {
    assert ChunkSpecs(height, chunkHeight)[k] == SpecAt(height, chunkHeight, k);
    DivUnique(y, chunkHeight, k);
  }

  /**
   * Every row of the image lies in exactly one strip, the one numbered
   * `y / chunkHeight` (0-based), and no strip covers a row outside the image.
   */
  lemma RowInExactlyOneStrip(height: nat, chunkHeight: nat, y: int)
    requires chunkHeight > 0
    ensures var specs := ChunkSpecs(height, chunkHeight);
      0 <= y < height <==> exists k :: 0 <= k < |specs| && Covers(specs[k], y)
    ensures var specs := ChunkSpecs(height, chunkHeight);
      forall k | 0 <= k < |specs| && Covers(specs[k], y) :: k == y / chunkHeight
  {
    var specs := ChunkSpecs(height, chunkHeight);
    forall k | 0 <= k < |specs| && Covers(specs[k], y)
      ensures k == y / chunkHeight && 0 <= y < height
    {
      CoveringStrip(height, chunkHeight, y, k);
    }
    if 0 <= y < height {
      RowCovered(height, chunkHeight, y);
    }
  }

  lemma DivUnique(y: int, c: nat, k: nat)
    requires c > 0 && k * c <= y < k * c + c
    ensures k == y / c
  {
    var q, r := y / c, y % c;
    assert y == q * c + r;
    if q < k {
      MulSucc(q, c);
      MulMonotone(q + 1, k, c);
    } else if q > k {
      MulSucc(k, c);
      MulMonotone(k + 1, q, c);
    }
  }

  /** Summing the first `k` strips gives `k * chunkHeight` rows while all of them are full. */
  lemma {:induction false} SumOfPrefix(height: nat, chunkHeight: nat, k: nat)
    requires chunkHeight > 0
    requires k < NumChunks(height, chunkHeight)
    ensures SumHeights(ChunkSpecs(height, chunkHeight)[..k]) == k * chunkHeight
  {
    var specs := ChunkSpecs(height, chunkHeight);
    if k > 0 {
      assert specs[..k][..k - 1] == specs[..k - 1];
      SumOfPrefix(height, chunkHeight, k - 1);
      assert specs[k - 1] == SpecAt(height, chunkHeight, k - 1);
      MulSucc(k - 1, chunkHeight);
    }
  }

  /** The strips' heights add up to the image height. */
  lemma HeightsSum(height: nat, chunkHeight: nat)
    requires chunkHeight > 0
    ensures SumHeights(ChunkSpecs(height, chunkHeight)) == height
  {
    var specs := ChunkSpecs(height, chunkHeight);
    var n := |specs|;
    if n > 0 {
      SumOfPrefix(height, chunkHeight, n - 1);
      FullStripsButLast(height, chunkHeight);
      assert specs[..n] == specs;
    }
  }

  /** An image no taller than one strip is one strip covering all of it; an empty one gives none. */
  lemma SingleStrip(height: nat, chunkHeight: nat)
    requires chunkHeight > 0 && height <= chunkHeight
    ensures ChunkSpecs(height, chunkHeight) ==
      if height == 0 then [] else [ChunkSpec(1, 1, 0, height)]
  {
    var n := NumChunks(height, chunkHeight);
    if height > 0 {
      if n > 1 {
        MulMonotone(1, n - 1, chunkHeight);
      }
    }
  }

  /** 15000 rows at the default chunk height: strips of 7000, 7000 and 1000 rows. */
  lemma TallImageExample()
    ensures ChunkSpecs(15000, DefaultChunkHeight) ==
      [ChunkSpec(1, 3, 0, 7000), ChunkSpec(2, 3, 7000, 7000), ChunkSpec(3, 3, 14000, 1000)]
  {
    var specs := ChunkSpecs(15000, DefaultChunkHeight);
    assert |specs| == 3;
  }

  /** 5000 rows at the default chunk height: one strip of 5000 rows. */
  lemma ShortImageExample()
    ensures ChunkSpecs(5000, DefaultChunkHeight) == [ChunkSpec(1, 1, 0, 5000)]
  {
    SingleStrip(5000, DefaultChunkHeight);
  }
}
