/** Assembling a frame from rendered blocks: each block's image is copied
    into a black frame at the block's origin (the fold over the stream of
    `render_frame_parallel`). The stream is a `FuturesOrdered`, so the
    results come in the order the blocks were pushed, the spiral order,
    whatever order they finish in; the lemmas here hold for every order of
    the image's blocks, the spiral order among them. */
module FrameAssembly {
  import opened Shared
  import opened Render

  const BLACK: Rgb := Rgb(0, 0, 0)

  /** A rendered block's image: `height` rows of `width` pixels. */
  datatype BlockImage = BlockImage(width: nat, height: nat, pixels: seq<seq<Rgb>>)

  predicate Shaped(im: BlockImage)
  {
    |im.pixels| == im.height && forall row :: 0 <= row < im.height ==> |im.pixels[row]| == im.width
  }

  /** A finished block: where it goes and what was rendered for it. */
  type BlockResult = (RenderBlock, BlockImage)

  /** `copy_from` accepts the image at the block origin: it fits inside a
      `width` by `height` frame. */
  predicate FitsAt(res: BlockResult, width: nat, height: nat)
  {
    res.0.x + res.1.width <= width && res.0.y + res.1.height <= height
  }

  /** Frame pixel (row, col) lies under the block image placed at the
      block origin. */
  predicate Covers(res: BlockResult, row: int, col: int)
  {
    res.0.y <= row < res.0.y + res.1.height && res.0.x <= col < res.0.x + res.1.width
  }

  /** The rendered image has the size of its block. */
  predicate Matches(res: BlockResult)
  {
    res.1.width == res.0.width && res.1.height == res.0.height
  }

  predicate AllShaped(results: seq<BlockResult>)
  {
    forall k :: 0 <= k < |results| ==> Shaped(results[k].1)
  }

  /** Frame pixel (row, col) after copying `results` in order into a black
      frame: the last block that covers it wins, black if none does. */
  function Composite(results: seq<BlockResult>, row: int, col: int): Rgb
    requires AllShaped(results)
  {
    if results == [] then BLACK
    else
      var last := results[|results| - 1];
      if Covers(last, row, col) then last.1.pixels[row - last.0.y][col - last.0.x]
      else Composite(results[..|results| - 1], row, col)
  }

  /** `RgbImage::new(width, height)`: an all-black frame, rows first. */
  method NewFrame(width: nat, height: nat) returns (img: array2<Rgb>)
    ensures fresh(img) && img.Length0 == height && img.Length1 == width
    ensures forall row, col :: 0 <= row < height && 0 <= col < width ==> img[row, col] == BLACK
  {
    img := new Rgb[height, width]((row, col) => BLACK);
  }

  /** `copy_from(src, x, y)`: refused (an `Err`, which the caller unwraps)
      when the image does not fit at (x, y); otherwise the covered pixels
      take the image's pixels and the rest of the frame is unchanged. */
  method CopyFrom(img: array2<Rgb>, src: BlockImage, x: nat, y: nat) returns (ok: bool)
    requires Shaped(src)
    modifies img
    ensures ok <==> x + src.width <= img.Length1 && y + src.height <= img.Length0
    ensures forall row, col :: 0 <= row < img.Length0 && 0 <= col < img.Length1 ==>
      img[row, col] == if ok && y <= row < y + src.height && x <= col < x + src.width
        then src.pixels[row - y][col - x] else old(img[row, col])
  {
    if img.Length1 < src.width + x || img.Length0 < src.height + y {
      return false;
    }
    var k := 0;
    while k < src.height
      invariant 0 <= k <= src.height
      invariant forall row, col :: 0 <= row < img.Length0 && 0 <= col < img.Length1 ==>
        img[row, col] == if y <= row < y + k && x <= col < x + src.width
          then src.pixels[row - y][col - x] else old(img[row, col])
    {
      var i := 0;
      while i < src.width
        invariant 0 <= i <= src.width
        invariant forall row, col :: 0 <= row < img.Length0 && 0 <= col < img.Length1 ==>
          img[row, col] == if (y <= row < y + k && x <= col < x + src.width) || (row == y + k && x <= col < x + i)
            then src.pixels[row - y][col - x] else old(img[row, col])
      {
        img[y + k, x + i] := src.pixels[k][i];
        i := i + 1;
      }
      k := k + 1;
    }
    return true;
  }

  /** The fold of `render_frame_parallel`: start black and copy every block
      result in the order of the stream. A result that does not fit makes the source
      panic; the model stops and reports `ok == false` instead. */
  method AssembleFrame(width: nat, height: nat, results: seq<BlockResult>) returns (img: array2<Rgb>, ok: bool)
    requires AllShaped(results)
    ensures fresh(img) && img.Length0 == height && img.Length1 == width
    ensures ok <==> forall k :: 0 <= k < |results| ==> FitsAt(results[k], width, height)
    ensures ok ==> forall row, col :: 0 <= row < height && 0 <= col < width ==>
      img[row, col] == Composite(results, row, col)
  {
    img := NewFrame(width, height);
    var n := 0;
    while n < |results|
      invariant 0 <= n <= |results|
      invariant forall k :: 0 <= k < n ==> FitsAt(results[k], width, height)
      invariant forall row, col :: 0 <= row < height && 0 <= col < width ==>
        img[row, col] == Composite(results[..n], row, col)
    {
      var (block, image) := results[n];
      ok := CopyFrom(img, image, block.x, block.y);
      if !ok {
        return;
      }
      assert results[..n + 1][..n] == results[..n];
      n := n + 1;
    }
    assert results[..n] == results;
    ok := true;
  }

  // ---------------------------------------------------------------------
  // Order independence.

  /** Frame pixel (row, col) lies under at most one of the results. */
  ghost predicate NonOverlappingAt(results: seq<BlockResult>, row: int, col: int)
  {
    forall i, j :: 0 <= i < j < |results| && Covers(results[i], row, col) ==> !Covers(results[j], row, col)
  }

  /** No frame pixel lies under two of the results. */
  ghost predicate NonOverlapping(results: seq<BlockResult>)
  {
    forall row: int, col: int :: NonOverlappingAt(results, row, col)
  }

  /** With non-overlapping results, a pixel takes the image of whichever
      result covers it, regardless of where that result sits in the order,
      and stays black when no result covers it. */
  lemma {:induction false} CompositeOfCovering(results: seq<BlockResult>, row: int, col: int)
    requires AllShaped(results) && NonOverlappingAt(results, row, col)
    ensures (forall k :: 0 <= k < |results| ==> !Covers(results[k], row, col)) ==>
      Composite(results, row, col) == BLACK
    ensures forall k :: 0 <= k < |results| && Covers(results[k], row, col) ==>
      Composite(results, row, col) == results[k].1.pixels[row - results[k].0.y][col - results[k].0.x]
  {
    if results != [] {
      var init := results[..|results| - 1];
      assert AllShaped(init) by {
        forall k | 0 <= k < |init| ensures Shaped(init[k].1) {
          assert init[k] == results[k];
        }
      }
      assert NonOverlappingAt(init, row, col) by {
        forall i, j | 0 <= i < j < |init| && Covers(init[i], row, col) ensures !Covers(init[j], row, col) {
          assert init[i] == results[i] && init[j] == results[j];
        }
      }
      CompositeOfCovering(init, row, col);
      forall k | 0 <= k < |init| && Covers(results[k], row, col)
        ensures Composite(init, row, col) == results[k].1.pixels[row - results[k].0.y][col - results[k].0.x]
      {
        assert init[k] == results[k];
      }
    }
  }

  /** Any two orders of the same non-overlapping results, the spiral order
      among them, assemble the same frame. */
  lemma BlockOrderIrrelevant(results: seq<BlockResult>, reordered: seq<BlockResult>, row: int, col: int)
    requires AllShaped(results) && NonOverlappingAt(results, row, col)
    requires AllShaped(reordered) && NonOverlappingAt(reordered, row, col)
    requires multiset(results) == multiset(reordered)
    ensures Composite(results, row, col) == Composite(reordered, row, col)
  {
    if exists k :: 0 <= k < |results| && Covers(results[k], row, col) {
      var k :| 0 <= k < |results| && Covers(results[k], row, col);
      var j := Occurrence(reordered, results[k]);
      CoveredPixel(results, row, col, k);
      CoveredPixel(reordered, row, col, j);
    } else {
      forall j | 0 <= j < |reordered| ensures !Covers(reordered[j], row, col) {
        var k := Occurrence(results, reordered[j]);
      }
      CompositeOfCovering(results, row, col);
      CompositeOfCovering(reordered, row, col);
    }
  }

  lemma CoveredPixel(results: seq<BlockResult>, row: int, col: int, k: nat)
    requires AllShaped(results) && NonOverlappingAt(results, row, col)
    requires k < |results| && Covers(results[k], row, col)
    ensures Composite(results, row, col) == results[k].1.pixels[row - results[k].0.y][col - results[k].0.x]
  {
    CompositeOfCovering(results, row, col);
  }

  // ---------------------------------------------------------------------
  // A whole frame from the image's blocks.

  function BlocksOf(results: seq<BlockResult>): (blocks: seq<RenderBlock>)
    ensures |blocks| == |results| && forall k :: 0 <= k < |results| ==> blocks[k] == results[k].0
  {
    seq(|results|, k requires 0 <= k < |results| => results[k].0)
  }

  /** When the block results are the image's blocks in any order (the
      spiral order among them), each image the size of its block: every
      copy fits, and every pixel of the frame shows the rendered image of
      the block the pixel belongs to, at the pixel's offset in it. */
  lemma WholeFrame(imageWidth: u32, imageHeight: u32, results: seq<BlockResult>, px: nat, py: nat)
    requires FitsU32(imageWidth, imageHeight)
    requires AllShaped(results) && forall k :: 0 <= k < |results| ==> Matches(results[k])
    requires multiset(BlocksOf(results)) == multiset(AllBlocks(imageWidth, imageHeight))
    requires px < imageWidth && py < imageHeight
    ensures forall k :: 0 <= k < |results| ==> FitsAt(results[k], imageWidth, imageHeight)
    ensures exists k :: 0 <= k < |results| && PixelFrom(imageWidth, imageHeight, results, k, px, py)
  {
    var all := AllBlocks(imageWidth, imageHeight);
    ResultsAreBlocks(imageWidth, imageHeight, results);
    ResultsDoNotOverlap(imageWidth, imageHeight, results);
    assert NonOverlappingAt(results, py, px);
    CompositeOfCovering(results, py, px);
    PixelHasBlock(imageWidth, imageHeight, px, py);
    var p := PixelBlock(imageWidth, px, py);
    var b := BlockAt(imageWidth, imageHeight, p);
    assert all[p] == b;
    assert b in multiset(BlocksOf(results));
    var k :| 0 <= k < |results| && BlocksOf(results)[k] == b;
    BlockCoversPixel(imageWidth, imageHeight, p, px, py);
    assert InBlock(results[k].0, px, py) && Matches(results[k]);
    assert Covers(results[k], py, px);
    assert Composite(results, py, px) == results[k].1.pixels[py - results[k].0.y][px - results[k].0.x];
    assert PixelFrom(imageWidth, imageHeight, results, k, px, py);
  }

  /** Result `k` is the block of pixel (px, py), and the frame shows that
      result's image at the pixel. */
  ghost predicate PixelFrom(imageWidth: u32, imageHeight: u32, results: seq<BlockResult>, k: nat, px: nat, py: nat)
    requires FitsU32(imageWidth, imageHeight) && AllShaped(results)
    requires px < imageWidth && py < imageHeight && k < |results|
  {
    PixelHasBlock(imageWidth, imageHeight, px, py);
    && results[k].0 == BlockAt(imageWidth, imageHeight, PixelBlock(imageWidth, px, py))
    && Covers(results[k], py, px)
    && Composite(results, py, px) == results[k].1.pixels[py - results[k].0.y][px - results[k].0.x]
  }

  /** Each result is one of the image's blocks, and so fits in the frame. */
  lemma ResultsAreBlocks(imageWidth: u32, imageHeight: u32, results: seq<BlockResult>)
    requires FitsU32(imageWidth, imageHeight)
    requires multiset(BlocksOf(results)) == multiset(AllBlocks(imageWidth, imageHeight))
    requires forall k :: 0 <= k < |results| ==> Matches(results[k])
    ensures forall k :: 0 <= k < |results| ==> results[k].0 in AllBlocks(imageWidth, imageHeight)
    ensures forall k :: 0 <= k < |results| ==> FitsAt(results[k], imageWidth, imageHeight)
  {
    var all := AllBlocks(imageWidth, imageHeight);
    forall k | 0 <= k < |results|
      ensures results[k].0 in all
      ensures FitsAt(results[k], imageWidth, imageHeight)
    {
      assert BlocksOf(results)[k] in multiset(all);
      var n :| 0 <= n < |all| && all[n] == results[k].0;
      BlockGeometry(imageWidth, imageHeight, n);
    }
  }

  /** Distinct blocks of the image share no pixel, so neither do the results. */
  lemma ResultsDoNotOverlap(imageWidth: u32, imageHeight: u32, results: seq<BlockResult>)
    requires FitsU32(imageWidth, imageHeight)
    requires multiset(BlocksOf(results)) == multiset(AllBlocks(imageWidth, imageHeight))
    requires forall k :: 0 <= k < |results| ==> Matches(results[k])
    ensures NonOverlapping(results)
  {
    forall row: int, col: int ensures NonOverlappingAt(results, row, col) {
      NoSharedPixel(imageWidth, imageHeight, results, row, col);
    }
  }

  lemma NoSharedPixel(imageWidth: u32, imageHeight: u32, results: seq<BlockResult>, row: int, col: int)
    requires FitsU32(imageWidth, imageHeight)
    requires multiset(BlocksOf(results)) == multiset(AllBlocks(imageWidth, imageHeight))
    requires forall k :: 0 <= k < |results| ==> Matches(results[k])
    ensures NonOverlappingAt(results, row, col)
  {
    var all := AllBlocks(imageWidth, imageHeight);
    AllBlocksDistinct(imageWidth, imageHeight);
    DistinctByMultiset(BlocksOf(results), all);
    forall i, j | 0 <= i < j < |results| && Covers(results[i], row, col) ensures !Covers(results[j], row, col) {
      assert BlocksOf(results)[i] != BlocksOf(results)[j];
      assert BlocksOf(results)[i] in multiset(all) && BlocksOf(results)[j] in multiset(all);
      var n1 :| 0 <= n1 < |all| && all[n1] == results[i].0;
      var n2 :| 0 <= n2 < |all| && all[n2] == results[j].0;
      BlocksDisjoint(imageWidth, imageHeight, n1, n2);
    }
  }
}
