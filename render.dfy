/** Partitioning of an image into fixed-size render blocks, and the spiral
    pass that orders the blocks for rendering. */
module Render {
  import opened Shared

  const BLOCK_SIZE: u32 := 32

  /** A rectangle of pixels rendered as one unit of work. */
  datatype RenderBlock = RenderBlock(x: u32, y: u32, width: u32, height: u32)

  /** Pixel (px, py) lies inside block b. */
  predicate InBlock(b: RenderBlock, px: int, py: int)
  {
    b.x <= px < b.x + b.width && b.y <= py < b.y + b.height
  }

  /** The two blocks share no pixel. */
  predicate Disjoint(a: RenderBlock, b: RenderBlock)
  {
    a.x + a.width <= b.x || b.x + b.width <= a.x || a.y + a.height <= b.y || b.y + b.height <= a.y
  }

  function BlockCountX(imageWidth: u32): u32 { CeilDiv(imageWidth, BLOCK_SIZE) }
  function BlockCountY(imageHeight: u32): u32 { CeilDiv(imageHeight, BLOCK_SIZE) }

  /** Image sizes for which none of the blocker's `u32` computations
      (the sums in `ceil_div`, the block count, the block end coordinates)
      overflows. */
  predicate FitsU32(imageWidth: u32, imageHeight: u32)
  {
    && imageWidth + BLOCK_SIZE - 1 < U32_LIMIT
    && imageHeight + BLOCK_SIZE - 1 < U32_LIMIT
    && BlockCountX(imageWidth) * BlockCountY(imageHeight) < U32_LIMIT
  }

  function BlockCount(imageWidth: u32, imageHeight: u32): nat
  {
    BlockCountX(imageWidth) * BlockCountY(imageHeight)
  }

  /** The grid of `ceil_div(n, 32)` blocks just covers `n` pixels. */
  lemma GridCovers(n: u32)
    requires n + BLOCK_SIZE - 1 < U32_LIMIT
    ensures CeilDiv(n, BLOCK_SIZE) * BLOCK_SIZE >= n
    ensures (CeilDiv(n, BLOCK_SIZE) - 1) * BLOCK_SIZE < n
  {
    CeilDivIsLeastCover(n, BLOCK_SIZE);
    var q := CeilDiv(n, BLOCK_SIZE);
    if (q - 1) * BLOCK_SIZE >= n {
      assert false;
    }
  }

  /** Row and column of block `k` in the row-major grid. */
  lemma GridCell(k: nat, countX: nat, countY: nat)
    requires k < countX * countY
    ensures countX > 0 && countY > 0
    ensures k % countX < countX && k / countX < countY
    ensures k == (k / countX) * countX + k % countX
  {
    if k / countX >= countY {
      MulMonotone(countY, k / countX, countX);
      assert false;
    }
  }

  /** The grid cell of block `k` starts inside the image. */
  lemma CellOrigin(imageWidth: u32, imageHeight: u32, k: nat)
    requires FitsU32(imageWidth, imageHeight)
    requires k < BlockCount(imageWidth, imageHeight)
    ensures 0 <= (k % BlockCountX(imageWidth)) * BLOCK_SIZE < imageWidth
    ensures 0 <= (k / BlockCountX(imageWidth)) * BLOCK_SIZE < imageHeight
  {
    var countX, countY := BlockCountX(imageWidth), BlockCountY(imageHeight);
    GridCell(k, countX, countY);
    GridCovers(imageWidth);
    GridCovers(imageHeight);
    OriginInside(k % countX, countX, imageWidth);
    OriginInside(k / countX, countY, imageHeight);
  }

  /** A cell before the last of a grid that just covers `n` pixels starts
      inside them. */
  lemma OriginInside(cell: nat, count: nat, n: nat)
    requires cell < count && (count - 1) * BLOCK_SIZE < n
    ensures cell * BLOCK_SIZE < n
  {
    MulMonotone(cell, count - 1, BLOCK_SIZE);
  }

  /** Block number `k` of the row-major enumeration, clipped to the image. */
  function BlockAt(imageWidth: u32, imageHeight: u32, k: nat): RenderBlock
    requires FitsU32(imageWidth, imageHeight)
    requires k < BlockCount(imageWidth, imageHeight)
  {
    CellOrigin(imageWidth, imageHeight, k);
    var x: u32 := (k % BlockCountX(imageWidth)) * BLOCK_SIZE;
    var y: u32 := (k / BlockCountX(imageWidth)) * BLOCK_SIZE;
    RenderBlock(x, y, ClippedSide(x, imageWidth), ClippedSide(y, imageHeight))
  }

  /** `min(start + 32, limit) - start`: a block side, cut short at the
      image edge. */
  function ClippedSide(start: u32, limit: u32): (side: u32)
    requires start < limit
    ensures 1 <= side <= BLOCK_SIZE && start + side <= limit
  {
    Min(start + BLOCK_SIZE, limit) - start
  }

  /** Block `k` sits at grid cell (k % countX, k / countX), starts at that
      cell's origin, is between 1 and 32 pixels on each side and stays
      inside the image. */
  lemma BlockGeometry(imageWidth: u32, imageHeight: u32, k: nat)
    requires FitsU32(imageWidth, imageHeight)
    requires k < BlockCount(imageWidth, imageHeight)
    ensures var b := BlockAt(imageWidth, imageHeight, k);
      && b.x == (k % BlockCountX(imageWidth)) * BLOCK_SIZE
      && b.y == (k / BlockCountX(imageWidth)) * BLOCK_SIZE
      && 1 <= b.width <= BLOCK_SIZE && 1 <= b.height <= BLOCK_SIZE
      && b.x + b.width <= imageWidth && b.y + b.height <= imageHeight
  {
    CellOrigin(imageWidth, imageHeight, k);
  }

  /** The block that holds pixel (px, py) in the row-major enumeration. */
  function PixelBlock(imageWidth: u32, px: nat, py: nat): nat
  {
    (py / BLOCK_SIZE) * BlockCountX(imageWidth) + px / BLOCK_SIZE
  }

  /** Every pixel of the image lies in exactly one block: block `k` holds
      (px, py) if and only if `k` is the pixel's row-major block number,
      and that number is a valid block. */
  lemma BlockCoversPixel(imageWidth: u32, imageHeight: u32, k: nat, px: nat, py: nat)
    requires FitsU32(imageWidth, imageHeight)
    requires k < BlockCount(imageWidth, imageHeight)
    requires px < imageWidth && py < imageHeight
    ensures PixelBlock(imageWidth, px, py) < BlockCount(imageWidth, imageHeight)
    ensures InBlock(BlockAt(imageWidth, imageHeight, k), px, py) <==> k == PixelBlock(imageWidth, px, py)
  {
    PixelHasBlock(imageWidth, imageHeight, px, py);
    var countX := BlockCountX(imageWidth);
    GridCell(k, countX, BlockCountY(imageHeight));
    BlockGeometry(imageWidth, imageHeight, k);
    var b := BlockAt(imageWidth, imageHeight, k);
    var col := k % countX;
    var row := k / countX;
    if InBlock(b, px, py) {
      assert px / BLOCK_SIZE == col;
      assert py / BLOCK_SIZE == row;
    }
    if k == PixelBlock(imageWidth, px, py) {
      DivAdd(py / BLOCK_SIZE, px / BLOCK_SIZE, countX);
      assert col == px / BLOCK_SIZE && row == py / BLOCK_SIZE;
    }
  }

  /** The row-major block number of an in-image pixel is a valid block. */
  lemma PixelHasBlock(imageWidth: u32, imageHeight: u32, px: nat, py: nat)
    requires FitsU32(imageWidth, imageHeight)
    requires px < imageWidth && py < imageHeight
    ensures PixelBlock(imageWidth, px, py) < BlockCount(imageWidth, imageHeight)
    ensures px / BLOCK_SIZE < BlockCountX(imageWidth) && py / BLOCK_SIZE < BlockCountY(imageHeight)
  {
    GridCovers(imageWidth);
    GridCovers(imageHeight);
    RowMajorInRange(BlockCountX(imageWidth), BlockCountY(imageHeight), px / BLOCK_SIZE, py / BLOCK_SIZE);
  }

  /** Distinct blocks of the enumeration share no pixel. */
  lemma BlocksDisjoint(imageWidth: u32, imageHeight: u32, k1: nat, k2: nat)
    requires FitsU32(imageWidth, imageHeight)
    requires k1 < BlockCount(imageWidth, imageHeight) && k2 < BlockCount(imageWidth, imageHeight)
    requires k1 != k2
    ensures Disjoint(BlockAt(imageWidth, imageHeight, k1), BlockAt(imageWidth, imageHeight, k2))
  {
    var b1 := BlockAt(imageWidth, imageHeight, k1);
    var b2 := BlockAt(imageWidth, imageHeight, k2);
    BlockGeometry(imageWidth, imageHeight, k1);
    BlockGeometry(imageWidth, imageHeight, k2);
    if !Disjoint(b1, b2) {
      // The blocks overlap in some pixel; that pixel names both of them.
      var px := Max(b1.x, b2.x);
      var py := Max(b1.y, b2.y);
      BlockCoversPixel(imageWidth, imageHeight, k1, px, py);
      BlockCoversPixel(imageWidth, imageHeight, k2, px, py);
      assert false;
    }
  }

  /** An image with no columns or no rows has no blocks. */
  lemma EmptyImageHasNoBlocks(imageWidth: u32, imageHeight: u32)
    requires imageWidth == 0 || imageHeight == 0
    ensures BlockCount(imageWidth, imageHeight) == 0
  {
    assert CeilDiv(0, BLOCK_SIZE) == 0;
  }

  /** The blocks of the row-major enumeration, in order. */
  function AllBlocks(imageWidth: u32, imageHeight: u32): (blocks: seq<RenderBlock>)
    requires FitsU32(imageWidth, imageHeight)
    ensures |blocks| == BlockCount(imageWidth, imageHeight)
  {
    seq(BlockCount(imageWidth, imageHeight),
        k requires 0 <= k < BlockCount(imageWidth, imageHeight) => BlockAt(imageWidth, imageHeight, k))
  }

  /** The iterator behind `ImageBlocker`: geometry fixed at construction,
      `blockIndex` the number of blocks handed out so far. */
  class ImageBlocker {
    const imageWidth: u32
    const imageHeight: u32
    const blockWidth: u32
    const blockHeight: u32
    const blockCountX: u32
    const blockCountY: u32
    var blockIndex: u32

    ghost predicate Valid()
      reads this
    {
      && FitsU32(imageWidth, imageHeight)
      && blockWidth == BLOCK_SIZE && blockHeight == BLOCK_SIZE
      && blockCountX == BlockCountX(imageWidth) && blockCountY == BlockCountY(imageHeight)
      && blockIndex <= BlockCount(imageWidth, imageHeight)
    }

    constructor (imageWidth: u32, imageHeight: u32)
      requires FitsU32(imageWidth, imageHeight)
      ensures Valid()
      ensures this.imageWidth == imageWidth && this.imageHeight == imageHeight
      ensures blockIndex == 0
    {
      this.imageWidth := imageWidth;
      this.imageHeight := imageHeight;
      blockWidth := BLOCK_SIZE;
      blockHeight := BLOCK_SIZE;
      blockCountX := CeilDiv(imageWidth, BLOCK_SIZE);
      blockCountY := CeilDiv(imageHeight, BLOCK_SIZE);
      blockIndex := 0;
    }

    /** `next()`: the next block in row-major order, or `None` once every
        block has been handed out; the index moves only when a block is
        returned, so an exhausted blocker keeps returning `None`. */
    method Next() returns (rb: Option<RenderBlock>)
      requires Valid()
      modifies this
      ensures Valid()
      ensures old(blockIndex) < BlockCount(imageWidth, imageHeight) ==>
        rb == Some(BlockAt(imageWidth, imageHeight, old(blockIndex))) && blockIndex == old(blockIndex) + 1
      ensures old(blockIndex) >= BlockCount(imageWidth, imageHeight) ==>
        rb == None && blockIndex == old(blockIndex)
    {
      var blockCount := blockCountX * blockCountY;
      if blockIndex >= blockCount {
        return None;
      }
      GridCell(blockIndex, blockCountX, blockCountY);
      GridCovers(imageWidth);
      GridCovers(imageHeight);
      var blockX := blockIndex % blockCountX;
      var blockY := blockIndex / blockCountX;
      MulMonotone(blockX + 1, blockCountX, blockWidth);
      MulMonotone(blockY + 1, blockCountY, blockHeight);
      MulMonotone(blockY, blockCountY, blockWidth);
      var x: u32 := blockX * blockWidth;
      // The source takes the row offset from the block width too; both
      // sides are BLOCK_SIZE, so this is the block height.
      var y: u32 := blockY * blockWidth;
      var xEnd: u32 := Min((blockX + 1) * blockWidth, imageWidth);
      var yEnd: u32 := Min((blockY + 1) * blockHeight, imageHeight);
      rb := Some(RenderBlock(x, y, xEnd - x, yEnd - y));
      blockIndex := blockIndex + 1;
    }

    /** `collect()`: drains the blocker, returning the remaining blocks in
        order. */
    method Collect() returns (blocks: seq<RenderBlock>)
      requires Valid()
      modifies this
      ensures Valid() && blockIndex == BlockCount(imageWidth, imageHeight)
      ensures |blocks| == BlockCount(imageWidth, imageHeight) - old(blockIndex)
      ensures forall j :: 0 <= j < |blocks| ==>
        blocks[j] == BlockAt(imageWidth, imageHeight, old(blockIndex) + j)
    {
      blocks := [];
      while true
        invariant Valid()
        invariant old(blockIndex) <= blockIndex
        invariant |blocks| == blockIndex - old(blockIndex)
        invariant forall j :: 0 <= j < |blocks| ==>
          blocks[j] == BlockAt(imageWidth, imageHeight, old(blockIndex) + j)
        decreases BlockCount(imageWidth, imageHeight) - blockIndex
      {
        var rb := Next();
        match rb {
          case None => break;
          case Some(b) => blocks := blocks + [b];
        }
      }
    }
  }

  /** Spiral centre per axis: `count / 2 - 1` in `i32`, which is -1 for a
      one-block axis. */
  function SpiralCenter(count: nat): int
  {
    count / 2 - 1
  }

  /** Spiral radius `(max(count_x, count_y) / 2 + 1) as u16`; the cast keeps
      the low 16 bits. */
  function SpiralRadius(countX: nat, countY: nat): u16
  {
    (Max(countX, countY) / 2 + 1) % 0x1_0000
  }

  /** Grid coordinates inside the `countX` by `countY` block grid. */
  predicate InGrid(p: (int, int), countX: int, countY: int)
  {
    0 <= p.0 < countX && 0 <= p.1 < countY
  }

  /** The spiral filter: every in-grid point, in point order, replaced by its
      block in the row-major block list; out-of-grid points are dropped. */
  function SpiralSelect(blocks: seq<RenderBlock>, countX: nat, countY: nat, points: seq<(int, int)>): seq<RenderBlock>
    requires |blocks| == countX * countY
  {
    if points == [] then []
    else
      var p := points[|points| - 1];
      SpiralSelect(blocks, countX, countY, points[..|points| - 1]) +
      if InGrid(p, countX, countY) then
        RowMajorInRange(countX, countY, p.0, p.1);
        [blocks[p.1 * countX + p.0]]
      else []
  }

  /** The row-major index `block_y * block_count_x + block_x` of an in-grid
      point is computed in `i32`; it overflows once it reaches `2^31`. */
  const I32_LIMIT: nat := 0x8000_0000

  /** The row-major index of grid point `p`. */
  function RowMajorIndex(p: (int, int), countX: nat): int
  {
    p.1 * countX + p.0
  }

  /** Some in-grid point of the spiral has a row-major index beyond `i32`. */
  predicate IndexOverflows(points: seq<(int, int)>, countX: nat, countY: nat)
  {
    exists k :: 0 <= k < |points| && InGrid(points[k], countX, countY) && RowMajorIndex(points[k], countX) >= I32_LIMIT
  }

  /** The first half of `render_frame_parallel`: enumerate the blocks, then
      visit the points of a spiral around the grid centre (produced by the
      supplied `chebyshev(center_x, center_y, radius)`) and keep the block of
      every in-grid point. The `i32` index arithmetic panics on a grid of
      `2^31` blocks or more once the spiral reaches such an index; the panic
      is the result `None`. */
  method SpiralBlocks(imageWidth: u32, imageHeight: u32, chebyshev: (int, int, u16) -> seq<(int, int)>)
    returns (spiral: Option<seq<RenderBlock>>)
    requires FitsU32(imageWidth, imageHeight)
    ensures var countX, countY := BlockCountX(imageWidth), BlockCountY(imageHeight);
      var points := chebyshev(SpiralCenter(countX), SpiralCenter(countY), SpiralRadius(countX, countY));
      && (spiral.None? <==> IndexOverflows(points, countX, countY))
      && (spiral.Some? ==> spiral.value == SpiralSelect(AllBlocks(imageWidth, imageHeight), countX, countY, points))
  {
    var blocker := new ImageBlocker(imageWidth, imageHeight);
    var blockCountX: int := blocker.blockCountX;
    var blockCountY: int := blocker.blockCountY;
    var blocks := blocker.Collect();
    assert blocks == AllBlocks(imageWidth, imageHeight);
    var radius := SpiralRadius(blockCountX, blockCountY);
    var centerX := blockCountX / 2 - 1;
    var centerY := blockCountY / 2 - 1;
    spiral := SelectInGrid(blocks, blockCountX, blockCountY, chebyshev(centerX, centerY, radius));
  }

  /** The loop over the spiral points: skip the out-of-grid ones, compute
      the row-major index of the others in `i32` and push their blocks. */
  method SelectInGrid(blocks: seq<RenderBlock>, countX: nat, countY: nat, points: seq<(int, int)>)
    returns (spiral: Option<seq<RenderBlock>>)
    requires |blocks| == countX * countY
    ensures spiral.None? <==> IndexOverflows(points, countX, countY)
    ensures spiral.Some? ==> spiral.value == SpiralSelect(blocks, countX, countY, points)
  {
    var selected := [];
    var i := 0;
    while i < |points|
      invariant 0 <= i <= |points|
      invariant selected == SpiralSelect(blocks, countX, countY, points[..i])
      invariant forall k :: 0 <= k < i && InGrid(points[k], countX, countY) ==>
        RowMajorIndex(points[k], countX) < I32_LIMIT
    {
      var (blockX, blockY) := points[i];
      assert points[..i + 1][..i] == points[..i];
      i := i + 1;
      if blockX < 0 || blockX >= countX || blockY < 0 || blockY >= countY {
        continue;
      }
      var blockIndex := RowMajorIndex(points[i - 1], countX);
      if blockIndex >= I32_LIMIT {
        assert InGrid(points[i - 1], countX, countY);
        return None;
      }
      RowMajorInRange(countX, countY, blockX, blockY);
      selected := selected + [blocks[blockIndex]];
    }
    assert points[..i] == points;
    spiral := Some(selected);
  }

  /** Images whose sides fit in `u16`, as the server's do, have at most
      `2048 * 2048` blocks, so the spiral's index arithmetic never
      overflows, whatever points it visits. */
  lemma SmallImagesDoNotOverflow(imageWidth: u16, imageHeight: u16, points: seq<(int, int)>)
    ensures !IndexOverflows(points, BlockCountX(imageWidth), BlockCountY(imageHeight))
  {
    var countX, countY := BlockCountX(imageWidth), BlockCountY(imageHeight);
    forall k | 0 <= k < |points| && InGrid(points[k], countX, countY)
      ensures RowMajorIndex(points[k], countX) < I32_LIMIT
    {
      assert countX <= 2048 && countY <= 2048;
      RowMajorInRange(countX, countY, points[k].0, points[k].1);
      MulMonotone(countX, 2048, countY);
    }
  }

  /** The spiral pass never yields more blocks than it visits points. */
  lemma {:induction false} SpiralSelectLength(blocks: seq<RenderBlock>, countX: nat, countY: nat, points: seq<(int, int)>)
    requires |blocks| == countX * countY
    ensures |SpiralSelect(blocks, countX, countY, points)| <= |points|
  {
    if points != [] {
      SpiralSelectLength(blocks, countX, countY, points[..|points| - 1]);
    }
  }

  /** `b` is the block that in-grid point `p` selects from the row-major list. */
  predicate SelectedBy(blocks: seq<RenderBlock>, countX: nat, countY: nat, p: (int, int), b: RenderBlock)
  {
    InGrid(p, countX, countY) && 0 <= p.1 * countX + p.0 < |blocks| && b == blocks[p.1 * countX + p.0]
  }

  /** Every block the spiral pass yields is the block of some in-grid point
      it visited, at that point's row-major position. */
  lemma {:induction false} SpiralSelectSound(blocks: seq<RenderBlock>, countX: nat, countY: nat, points: seq<(int, int)>)
    requires |blocks| == countX * countY
    ensures forall b :: b in SpiralSelect(blocks, countX, countY, points) ==>
      exists i :: 0 <= i < |points| && SelectedBy(blocks, countX, countY, points[i], b)
  {
    if points != [] {
      var init := points[..|points| - 1];
      SpiralSelectSound(blocks, countX, countY, init);
      forall b | b in SpiralSelect(blocks, countX, countY, points)
        ensures exists i :: 0 <= i < |points| && SelectedBy(blocks, countX, countY, points[i], b)
      {
        if b in SpiralSelect(blocks, countX, countY, init) {
          var i :| 0 <= i < |init| && SelectedBy(blocks, countX, countY, init[i], b);
          assert points[i] == init[i];
        } else {
          var last := |points| - 1;
          RowMajorInRange(countX, countY, points[last].0, points[last].1);
          assert SelectedBy(blocks, countX, countY, points[last], b);
        }
      }
    }
  }

  /** Every in-grid point the spiral pass visits contributes its block. */
  lemma {:induction false} SpiralSelectComplete(blocks: seq<RenderBlock>, countX: nat, countY: nat, points: seq<(int, int)>, i: nat)
    requires |blocks| == countX * countY
    requires i < |points| && InGrid(points[i], countX, countY)
    ensures 0 <= points[i].1 * countX + points[i].0 < |blocks|
    ensures blocks[points[i].1 * countX + points[i].0] in SpiralSelect(blocks, countX, countY, points)
  {
    RowMajorInRange(countX, countY, points[i].0, points[i].1);
    if i < |points| - 1 {
      var init := points[..|points| - 1];
      assert init[i] == points[i];
      SpiralSelectComplete(blocks, countX, countY, init, i);
    }
  }

  /** Visiting each grid point at most once yields each block at most once,
      provided the block list itself has no repeats. */
  lemma {:induction false} SpiralSelectDistinct(blocks: seq<RenderBlock>, countX: nat, countY: nat, points: seq<(int, int)>)
    requires |blocks| == countX * countY
    requires Distinct(blocks) && Distinct(points)
    ensures Distinct(SpiralSelect(blocks, countX, countY, points))
  {
    if points != [] {
      var init := points[..|points| - 1];
      var p := points[|points| - 1];
      assert Distinct(init) by {
        forall i, j | 0 <= i < j < |init| ensures init[i] != init[j] {
          assert init[i] == points[i] && init[j] == points[j];
        }
      }
      SpiralSelectDistinct(blocks, countX, countY, init);
      var front := SpiralSelect(blocks, countX, countY, init);
      if InGrid(p, countX, countY) {
        RowMajorInRange(countX, countY, p.0, p.1);
        var b := blocks[p.1 * countX + p.0];
        if b in front {
          SpiralSelectSound(blocks, countX, countY, init);
          var i :| 0 <= i < |init| && SelectedBy(blocks, countX, countY, init[i], b);
          assert init[i] == points[i];
          RowMajorUnique(countX, init[i].0, init[i].1, p.0, p.1);
          assert false;
        }
        var out := front + [b];
        forall i, j | 0 <= i < j < |out| ensures out[i] != out[j] {
          if j == |out| - 1 {
            assert out[i] in front;
          }
        }
      }
    }
  }

  /** The enumeration never repeats a block. */
  lemma AllBlocksDistinct(imageWidth: u32, imageHeight: u32)
    requires FitsU32(imageWidth, imageHeight)
    ensures Distinct(AllBlocks(imageWidth, imageHeight))
  {
    var blocks := AllBlocks(imageWidth, imageHeight);
    forall i, j | 0 <= i < j < |blocks| ensures blocks[i] != blocks[j] {
      BlocksDisjoint(imageWidth, imageHeight, i, j);
      BlockGeometry(imageWidth, imageHeight, i);
    }
  }

  /** When the supplied spiral visits every cell of the block grid exactly
      once, the spiral pass is a reordering of the row-major block list:
      every block is rendered, and none twice. */
  lemma SpiralIsPermutation(imageWidth: u32, imageHeight: u32, points: seq<(int, int)>)
    requires FitsU32(imageWidth, imageHeight)
    requires Distinct(points)
    requires forall col: int, row: int :: InGrid((col, row), BlockCountX(imageWidth), BlockCountY(imageHeight)) ==>
      (col, row) in points
    ensures var blocks := AllBlocks(imageWidth, imageHeight);
      multiset(SpiralSelect(blocks, BlockCountX(imageWidth), BlockCountY(imageHeight), points)) == multiset(blocks)
  {
    var countX, countY := BlockCountX(imageWidth), BlockCountY(imageHeight);
    var blocks := AllBlocks(imageWidth, imageHeight);
    AllBlocksDistinct(imageWidth, imageHeight);
    var out := SpiralSelect(blocks, countX, countY, points);
    forall b ensures multiset(out)[b] == multiset(blocks)[b] {
      SpiralMultiplicity(blocks, countX, countY, points, b);
    }
    assert multiset(out) == multiset(blocks);
  }

  /** For a list of distinct blocks laid out on the grid, each block occurs
      as often in the spiral pass as in the list. */
  lemma SpiralMultiplicity(blocks: seq<RenderBlock>, countX: nat, countY: nat, points: seq<(int, int)>, b: RenderBlock)
    requires |blocks| == countX * countY
    requires Distinct(blocks) && Distinct(points)
    requires forall col: int, row: int :: InGrid((col, row), countX, countY) ==> (col, row) in points
    ensures multiset(SpiralSelect(blocks, countX, countY, points))[b] == multiset(blocks)[b]
  {
    var out := SpiralSelect(blocks, countX, countY, points);
    SpiralSelectDistinct(blocks, countX, countY, points);
    DistinctMultiplicity(out, b);
    DistinctMultiplicity(blocks, b);
    if b in blocks {
      var k :| 0 <= k < |blocks| && blocks[k] == b;
      GridCell(k, countX, countY);
      assert (k % countX, k / countX) in points;
      var i :| 0 <= i < |points| && points[i] == (k % countX, k / countX);
      SpiralSelectComplete(blocks, countX, countY, points, i);
    }
    if b in out {
      SpiralSelectSound(blocks, countX, countY, points);
      var i :| 0 <= i < |points| && SelectedBy(blocks, countX, countY, points[i], b);
    }
  }
}
