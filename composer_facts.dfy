/** Properties of the slides the composer produces: which shapes appear, in
    which order, when composition aborts, and how each text block's
    paragraphs are styled. */
module ComposerFacts {
  import opened Layout
  import opened Geometry
  import opened Sampler
  import opened Styling
  import opened Composer

  predicate RegionsUnpack(regions: seq<ImageRegion>, i: nat) {
    forall j :: i <= j < |regions| ==> UnpackBox(regions[j].box2d).Some?
  }

  predicate BlocksUnpack(blocks: seq<TextBlock>, i: nat) {
    forall j :: i <= j < |blocks| ==> UnpackBox(blocks[j].box2d).Some?
  }

  /** A picture of a region crop with positive width and height. */
  predicate CroppedPicture(s: Shape) {
    s.Picture? && s.source.Crop? &&
    s.source.rect.right > s.source.rect.left && s.source.rect.bottom > s.source.rect.top
  }

  // ---------------------------------------------------------------------
  // Image regions

  /** The region loop runs to the end exactly when every remaining region
      has a four-number box; it adds at most one picture per region, and
      only pictures of crops with positive extent. */
  lemma {:induction false} EmitRegionsFacts(img: Image, regions: seq<ImageRegion>, i: nat, sw: int, sh: int, failing: set<nat>)
    requires i <= |regions|
    ensures var e := EmitRegions(img, regions, i, sw, sh, failing);
      (e.ok <==> RegionsUnpack(regions, i)) &&
      |e.shapes| <= |regions| - i &&
      forall k :: 0 <= k < |e.shapes| ==> CroppedPicture(e.shapes[k])
    decreases |regions| - i
  {
    if i < |regions| {
      match UnpackBox(regions[i].box2d)
      case None =>
        assert !RegionsUnpack(regions, i);
      case Some(b) =>
        EmitRegionsFacts(img, regions, i + 1, sw, sh, failing);
        var pic := RegionPicture(img, b, sw, sh, i in failing);
        var rest := EmitRegions(img, regions, i + 1, sw, sh, failing);
        assert EmitRegions(img, regions, i, sw, sh, failing).shapes == pic + rest.shapes;
        assert RegionsUnpack(regions, i) <==> RegionsUnpack(regions, i + 1);
    }
  }

  /** Region j is placed: its box unpacks, its unclamped pixel box has
      positive width and height, and its insertion does not fail. */
  predicate Placed(img: Image, region: ImageRegion, j: nat, failing: set<nat>) {
    UnpackBox(region.box2d).Some? && j !in failing &&
    !PixelBox(UnpackBox(region.box2d).value, img.width, img.height).IsEmpty()
  }

  /** Every region from i on is placed. */
  predicate AllPlaced(img: Image, regions: seq<ImageRegion>, i: nat, failing: set<nat>) {
    forall j :: i <= j < |regions| ==> Placed(img, regions[j], j, failing)
  }

  /** The picture region j gets: its unclamped pixel box as the crop, its
      box scaled to the slide as the frame. */
  function RegionShape(img: Image, region: ImageRegion, sw: int, sh: int): Shape
    requires UnpackBox(region.box2d).Some?
  {
    var b := UnpackBox(region.box2d).value;
    Picture(CanvasFrame(b, sw, sh), Crop(PixelBox(b, img.width, img.height)))
  }

  /** When every region from i on is placed, the loop completes and adds
      one picture per region. */
  lemma {:induction false} PlacedRegionsLength(img: Image, regions: seq<ImageRegion>, i: nat, sw: int, sh: int, failing: set<nat>)
    requires i <= |regions| && AllPlaced(img, regions, i, failing)
    ensures var e := EmitRegions(img, regions, i, sw, sh, failing);
      e.ok && |e.shapes| == |regions| - i
    decreases |regions| - i
  {
    if i < |regions| {
      PlacedRegionsLength(img, regions, i + 1, sw, sh, failing);
    }
  }

  /** ... and region j's picture sits at offset j - i. */
  lemma {:induction false} PlacedRegionAt(img: Image, regions: seq<ImageRegion>, i: nat, j: nat, sw: int, sh: int, failing: set<nat>)
    requires i <= j < |regions| && AllPlaced(img, regions, i, failing)
    ensures var e := EmitRegions(img, regions, i, sw, sh, failing);
      j - i < |e.shapes| && e.shapes[j - i] == RegionShape(img, regions[j], sw, sh)
    decreases j - i
  {
    var rest := EmitRegions(img, regions, i + 1, sw, sh, failing);
    assert EmitRegions(img, regions, i, sw, sh, failing).shapes == [RegionShape(img, regions[i], sw, sh)] + rest.shapes;
    if j > i {
      PlacedRegionAt(img, regions, i + 1, j, sw, sh, failing);
    }
  }

  /** The indices of the placed regions from i on, in increasing order. */
  function PlacedIndices(img: Image, regions: seq<ImageRegion>, i: nat, failing: set<nat>): seq<nat>
    decreases |regions| - i
  {
    if i >= |regions| then []
    else (if Placed(img, regions[i], i, failing) then [i] else []) + PlacedIndices(img, regions, i + 1, failing)
  }

  /** One step of the region loop, for a region whose box unpacks: its
      picture when it is placed, nothing otherwise. */
  lemma RegionStep(img: Image, regions: seq<ImageRegion>, i: nat, sw: int, sh: int, failing: set<nat>)
    requires i < |regions| && UnpackBox(regions[i].box2d).Some?
    ensures var e, rest := EmitRegions(img, regions, i, sw, sh, failing), EmitRegions(img, regions, i + 1, sw, sh, failing);
      e.ok == rest.ok &&
      e.shapes == (if Placed(img, regions[i], i, failing) then [RegionShape(img, regions[i], sw, sh)] else []) + rest.shapes
  {
    EmitRegionsStep(img, regions, i, sw, sh, failing);
  }

  /** Every index PlacedIndices lists from i on lies in i .. |regions| - 1. */
  lemma {:induction false} PlacedIndexBounds(img: Image, regions: seq<ImageRegion>, i: nat, failing: set<nat>, k: nat)
    requires k < |PlacedIndices(img, regions, i, failing)|
    ensures i <= PlacedIndices(img, regions, i, failing)[k] < |regions|
    decreases |regions| - i
  {
    var ps, tail := PlacedIndices(img, regions, i, failing), PlacedIndices(img, regions, i + 1, failing);
    if Placed(img, regions[i], i, failing) {
      assert ps == [i] + tail;
      if k > 0 {
        PlacedIndexBounds(img, regions, i + 1, failing, k - 1);
        assert ps[k] == tail[k - 1];
      }
    } else {
      assert ps == tail;
      PlacedIndexBounds(img, regions, i + 1, failing, k);
    }
  }

  /** PlacedIndices is strictly increasing. */
  lemma {:induction false} PlacedIndicesIncreasing(img: Image, regions: seq<ImageRegion>, i: nat, failing: set<nat>, k: nat, l: nat)
    requires k < l < |PlacedIndices(img, regions, i, failing)|
    ensures PlacedIndices(img, regions, i, failing)[k] < PlacedIndices(img, regions, i, failing)[l]
    decreases |regions| - i
  {
    var ps, tail := PlacedIndices(img, regions, i, failing), PlacedIndices(img, regions, i + 1, failing);
    if Placed(img, regions[i], i, failing) {
      assert ps == [i] + tail;
      assert ps[l] == tail[l - 1];
      if k == 0 {
        PlacedIndexBounds(img, regions, i + 1, failing, l - 1);
      } else {
        PlacedIndicesIncreasing(img, regions, i + 1, failing, k - 1, l - 1);
        assert ps[k] == tail[k - 1];
      }
    } else {
      assert ps == tail;
      PlacedIndicesIncreasing(img, regions, i + 1, failing, k, l);
    }
  }

  /** A region from i on is listed exactly when it is placed. */
  lemma {:induction false} PlacedIndexMember(img: Image, regions: seq<ImageRegion>, i: nat, failing: set<nat>, j: nat)
    requires i <= j < |regions|
    ensures j in PlacedIndices(img, regions, i, failing) <==> Placed(img, regions[j], j, failing)
    decreases |regions| - i
  {
    var ps, tail := PlacedIndices(img, regions, i, failing), PlacedIndices(img, regions, i + 1, failing);
    assert ps == (if Placed(img, regions[i], i, failing) then [i] else []) + tail;
    if j == i {
      forall k | 0 <= k < |tail| ensures tail[k] != i {
        PlacedIndexBounds(img, regions, i + 1, failing, k);
      }
    } else {
      PlacedIndexMember(img, regions, i + 1, failing, j);
    }
  }

  /** With every box from i on well formed, the loop completes and adds one
      picture per placed region ... */
  lemma {:induction false} MixedRegionsLength(img: Image, regions: seq<ImageRegion>, i: nat, sw: int, sh: int, failing: set<nat>)
    requires RegionsUnpack(regions, i)
    ensures var e := EmitRegions(img, regions, i, sw, sh, failing);
      e.ok && |e.shapes| == |PlacedIndices(img, regions, i, failing)|
    decreases |regions| - i
  {
    if i < |regions| {
      RegionStep(img, regions, i, sw, sh, failing);
      MixedRegionsLength(img, regions, i + 1, sw, sh, failing);
    }
  }

  /** ... and the k-th picture is that of the k-th placed region. */
  lemma {:induction false} MixedRegionAt(img: Image, regions: seq<ImageRegion>, i: nat, k: nat, sw: int, sh: int, failing: set<nat>)
    requires RegionsUnpack(regions, i) && k < |PlacedIndices(img, regions, i, failing)|
    ensures var e, ps := EmitRegions(img, regions, i, sw, sh, failing), PlacedIndices(img, regions, i, failing);
      i <= ps[k] < |regions| && k < |e.shapes| && e.shapes[k] == RegionShape(img, regions[ps[k]], sw, sh)
    decreases |regions| - i
  {
    PlacedIndexBounds(img, regions, i, failing, k);
    MixedRegionsLength(img, regions, i, sw, sh, failing);
    RegionStep(img, regions, i, sw, sh, failing);
    var rest := EmitRegions(img, regions, i + 1, sw, sh, failing);
    var ps, tail := PlacedIndices(img, regions, i, failing), PlacedIndices(img, regions, i + 1, failing);
    if Placed(img, regions[i], i, failing) {
      assert ps == [i] + tail;
      if k > 0 {
        MixedRegionAt(img, regions, i + 1, k - 1, sw, sh, failing);
        assert ps[k] == tail[k - 1];
      }
    } else {
      assert ps == tail;
      MixedRegionAt(img, regions, i + 1, k, sw, sh, failing);
    }
  }

  /** The region pictures of a layout whose region boxes are all well
      formed, placed or not: the k-th picture belongs to the k-th placed
      region, in layout order, and every placed region has its picture.  A
      degenerate crop or a failing insertion is skipped without stopping
      the loop. */
  lemma RegionPictures(img: Image, regions: seq<ImageRegion>, sw: int, sh: int, failing: set<nat>)
    requires RegionsUnpack(regions, 0)
    ensures var ps := PlacedIndices(img, regions, 0, failing);
      (forall k :: 0 <= k < |ps| ==> ps[k] < |regions|) &&
      (forall k, l :: 0 <= k < l < |ps| ==> ps[k] < ps[l]) &&
      (forall j :: 0 <= j < |regions| ==> (j in ps <==> Placed(img, regions[j], j, failing)))
    ensures var e, ps := EmitRegions(img, regions, 0, sw, sh, failing), PlacedIndices(img, regions, 0, failing);
      e.ok && |e.shapes| == |ps| &&
      forall k :: 0 <= k < |ps| ==> ps[k] < |regions| && e.shapes[k] == RegionShape(img, regions[ps[k]], sw, sh)
  {
    MixedRegionsLength(img, regions, 0, sw, sh, failing);
    var ps := PlacedIndices(img, regions, 0, failing);
    forall k | 0 <= k < |ps| ensures ps[k] < |regions| {
      PlacedIndexBounds(img, regions, 0, failing, k);
    }
    forall k, l | 0 <= k < l < |ps| ensures ps[k] < ps[l] {
      PlacedIndicesIncreasing(img, regions, 0, failing, k, l);
    }
    forall j | 0 <= j < |regions| ensures j in ps <==> Placed(img, regions[j], j, failing) {
      PlacedIndexMember(img, regions, 0, failing, j);
    }
    forall k | 0 <= k < |ps|
      ensures EmitRegions(img, regions, 0, sw, sh, failing).shapes[k] == RegionShape(img, regions[ps[k]], sw, sh)
    {
      MixedRegionAt(img, regions, 0, k, sw, sh, failing);
    }
  }

  /** An all-zero box gives an empty crop, so its region is skipped and
      the loop goes on. */
  lemma ZeroBoxSkipped(img: Image, d: Option<string>, sw: int, sh: int, failing: set<nat>)
    ensures EmitRegions(img, [ImageRegion(Some([0, 0, 0, 0]), d)], 0, sw, sh, failing) == Emitted([], true)
  {
    var r := ImageRegion(Some([0, 0, 0, 0]), d);
    assert UnpackBox(r.box2d) == Some(NormBox(0, 0, 0, 0));
    assert PixelBox(NormBox(0, 0, 0, 0), img.width, img.height).IsEmpty();
  }

  // ---------------------------------------------------------------------
  // Text blocks

  /** The text-block loop runs to the end exactly when every remaining
      block has a four-number box. */
  lemma {:induction false} EmitBlocksOk(img: Image, blocks: seq<TextBlock>, i: nat, mode: string, sw: int, sh: int, scale: real)
    requires img.Valid() && i <= |blocks|
    ensures EmitBlocks(img, blocks, i, mode, sw, sh, scale).ok <==> BlocksUnpack(blocks, i)
    decreases |blocks| - i
  {
    if i < |blocks| {
      match UnpackBox(blocks[i].box2d)
      case None =>
        assert !BlocksUnpack(blocks, i);
      case Some(b) =>
        EmitBlocksOk(img, blocks, i + 1, mode, sw, sh, scale);
        assert BlocksUnpack(blocks, i) <==> BlocksUnpack(blocks, i + 1);
    }
  }

  /** Shapes k and k + 1 are a text-focus block's pair: the mask over the
      inflated box, filled with the edge colour of the tight box, then the
      zero-inset, wrapping text box on the tight box. */
  predicate FocusPairAt(img: Image, shapes: seq<Shape>, k: int, block: TextBlock, sw: int, sh: int, scale: real)
    requires img.Valid() && UnpackBox(block.box2d).Some?
  {
    var b := UnpackBox(block.box2d).value;
    0 <= k && k + 1 < |shapes| &&
    shapes[k] == Mask(CanvasFrame(Inflate(b), sw, sh), EdgeColor(img, b)) &&
    shapes[k + 1] == TextBox(CanvasFrame(b, sw, sh), ZeroInsets, true, BlockParagraphs(block, TEXT_FOCUS, scale))
  }

  lemma FocusPairShift(img: Image, pre: seq<Shape>, shapes: seq<Shape>, k: int, block: TextBlock, sw: int, sh: int, scale: real)
    requires img.Valid() && UnpackBox(block.box2d).Some?
    requires FocusPairAt(img, shapes, k, block, sw, sh, scale)
    ensures FocusPairAt(img, pre + shapes, |pre| + k, block, sw, sh, scale)
  {
    assert (pre + shapes)[|pre| + k] == shapes[k];
    assert (pre + shapes)[|pre| + k + 1] == shapes[k + 1];
  }

  lemma FocusPairHead(img: Image, block: TextBlock, pre: seq<Shape>, rest: seq<Shape>, sw: int, sh: int, scale: real)
    requires img.Valid() && UnpackBox(block.box2d).Some?
    requires pre == BlockShapes(img, block, UnpackBox(block.box2d).value, TEXT_FOCUS, sw, sh, scale)
    ensures |pre| == 2 && FocusPairAt(img, pre + rest, 0, block, sw, sh, scale)
  {
  }

  /** In text-focus mode the text-block loop over well-formed blocks runs
      to the end and gives two shapes per block. */
  lemma {:induction false} TextFocusBlocksLength(img: Image, blocks: seq<TextBlock>, i: nat, sw: int, sh: int, scale: real)
    requires img.Valid() && i <= |blocks| && BlocksUnpack(blocks, i)
    ensures var e := EmitBlocks(img, blocks, i, TEXT_FOCUS, sw, sh, scale);
      e.ok && |e.shapes| == 2 * (|blocks| - i)
    decreases |blocks| - i
  {
    if i < |blocks| {
      TextFocusBlocksLength(img, blocks, i + 1, sw, sh, scale);
      EmitBlocksStep(img, blocks, i, TEXT_FOCUS, sw, sh, scale);
    }
  }

  /** In text-focus mode, block j's pair sits at offset 2 * (j - i) of the
      shapes for blocks i.. (FocusPairAt). */
  lemma {:induction false} TextFocusBlockPair(img: Image, blocks: seq<TextBlock>, i: nat, j: nat, sw: int, sh: int, scale: real)
    requires img.Valid() && i <= j < |blocks| && BlocksUnpack(blocks, i)
    ensures FocusPairAt(img, EmitBlocks(img, blocks, i, TEXT_FOCUS, sw, sh, scale).shapes, 2 * (j - i), blocks[j], sw, sh, scale)
    decreases j - i
  {
    EmitBlocksStep(img, blocks, i, TEXT_FOCUS, sw, sh, scale);
    var rest := EmitBlocks(img, blocks, i + 1, TEXT_FOCUS, sw, sh, scale);
    var pre := BlockShapes(img, blocks[i], UnpackBox(blocks[i].box2d).value, TEXT_FOCUS, sw, sh, scale);
    if j == i {
      FocusPairHead(img, blocks[i], pre, rest.shapes, sw, sh, scale);
    } else {
      TextFocusBlockPair(img, blocks, i + 1, j, sw, sh, scale);
      FocusPairShift(img, pre, rest.shapes, 2 * (j - (i + 1)), blocks[j], sw, sh, scale);
      assert |pre| == 2;
    }
  }

  /** The text box a block gets outside text-focus mode. */
  function PlainBox(block: TextBlock, mode: string, sw: int, sh: int, scale: real): Shape
    requires UnpackBox(block.box2d).Some?
  {
    TextBox(CanvasFrame(UnpackBox(block.box2d).value, sw, sh), DefaultInsets, true, BlockParagraphs(block, mode, scale))
  }

  /** Outside text-focus mode the loop over well-formed blocks completes and
      gives one shape per block ... */
  lemma {:induction false} PlainBlocksLength(img: Image, blocks: seq<TextBlock>, i: nat, mode: string, sw: int, sh: int, scale: real)
    requires img.Valid() && mode != TEXT_FOCUS && i <= |blocks| && BlocksUnpack(blocks, i)
    ensures var e := EmitBlocks(img, blocks, i, mode, sw, sh, scale);
      e.ok && |e.shapes| == |blocks| - i
    decreases |blocks| - i
  {
    if i < |blocks| {
      PlainBlocksLength(img, blocks, i + 1, mode, sw, sh, scale);
      EmitBlocksStep(img, blocks, i, mode, sw, sh, scale);
    }
  }

  /** ... and block j's shape, at offset j - i, is its wrapping text box
      with default insets. */
  lemma {:induction false} PlainBlockAt(img: Image, blocks: seq<TextBlock>, i: nat, j: nat, mode: string, sw: int, sh: int, scale: real)
    requires img.Valid() && mode != TEXT_FOCUS && i <= j < |blocks| && BlocksUnpack(blocks, i)
    ensures var e := EmitBlocks(img, blocks, i, mode, sw, sh, scale);
      j - i < |e.shapes| && e.shapes[j - i] == PlainBox(blocks[j], mode, sw, sh, scale)
    decreases j - i
  {
    EmitBlocksStep(img, blocks, i, mode, sw, sh, scale);
    var rest := EmitBlocks(img, blocks, i + 1, mode, sw, sh, scale);
    assert EmitBlocks(img, blocks, i, mode, sw, sh, scale).shapes == [PlainBox(blocks[i], mode, sw, sh, scale)] + rest.shapes;
    if j > i {
      PlainBlockAt(img, blocks, i + 1, j, mode, sw, sh, scale);
    }
  }

  predicate PlainTextBoxes(shapes: seq<Shape>) {
    forall k :: 0 <= k < |shapes| ==> shapes[k].TextBox? && shapes[k].insets == DefaultInsets && shapes[k].wordWrap
  }

  /** Outside text-focus mode the text-block loop, even when it aborts, adds
      only wrapping text boxes with default insets. */
  lemma {:induction false} PlainBlocksAreTextBoxes(img: Image, blocks: seq<TextBlock>, i: nat, mode: string, sw: int, sh: int, scale: real)
    requires img.Valid() && mode != TEXT_FOCUS
    ensures PlainTextBoxes(EmitBlocks(img, blocks, i, mode, sw, sh, scale).shapes)
    decreases |blocks| - i
  {
    if i < |blocks| && UnpackBox(blocks[i].box2d).Some? {
      PlainBlocksAreTextBoxes(img, blocks, i + 1, mode, sw, sh, scale);
      EmitBlocksStep(img, blocks, i, mode, sw, sh, scale);
    }
  }

  // ---------------------------------------------------------------------
  // Whole slides

  /** A slide is composed to the end exactly when every image region (read
      only in standard mode) and every text block has a four-number box. */
  lemma SlideOk(img: Image, layout: PageLayout, mode: string, sw: int, sh: int, scale: real, failing: set<nat>)
    requires img.Valid()
    ensures SlideShapes(img, layout, mode, sw, sh, scale, failing).ok <==>
      (mode == STANDARD && layout.imageRegions.Some? ==> RegionsUnpack(layout.imageRegions.value, 0)) &&
      (layout.textBlocks.Some? ==> BlocksUnpack(layout.textBlocks.value, 0))
  {
    if mode == STANDARD && layout.imageRegions.Some? {
      EmitRegionsFacts(img, layout.imageRegions.value, 0, sw, sh, failing);
    }
    if layout.textBlocks.Some? {
      EmitBlocksOk(img, layout.textBlocks.value, 0, mode, sw, sh, scale);
    }
  }

  /** A text-focus slide is the page picture over the whole slide, then a
      mask and a text box per block; image regions and failing insertions
      play no part. */
  lemma TextFocusSlide(img: Image, layout: PageLayout, sw: int, sh: int, scale: real, failing: set<nat>)
    requires img.Valid() && layout.textBlocks.Some? && BlocksUnpack(layout.textBlocks.value, 0)
    ensures var e, blocks := SlideShapes(img, layout, TEXT_FOCUS, sw, sh, scale, failing), layout.textBlocks.value;
      e.ok && |e.shapes| == 1 + 2 * |blocks| &&
      e.shapes[0] == Picture(Frame(0, 0, sw, sh), WholePage) &&
      forall j :: 0 <= j < |blocks| ==> FocusPairAt(img, e.shapes, 1 + 2 * j, blocks[j], sw, sh, scale)
    ensures SlideShapes(img, layout, TEXT_FOCUS, sw, sh, scale, failing)
         == SlideShapes(img, layout.(imageRegions := None), TEXT_FOCUS, sw, sh, scale, {})
  {
    var blocks := layout.textBlocks.value;
    TextFocusBlocksLength(img, blocks, 0, sw, sh, scale);
    var e := SlideShapes(img, layout, TEXT_FOCUS, sw, sh, scale, failing);
    var pre := [Picture(Frame(0, 0, sw, sh), WholePage)];
    var tail := EmitBlocks(img, blocks, 0, TEXT_FOCUS, sw, sh, scale);
    assert e.shapes == pre + tail.shapes;
    forall j | 0 <= j < |blocks|
      ensures FocusPairAt(img, e.shapes, 1 + 2 * j, blocks[j], sw, sh, scale)
    {
      TextFocusBlockPair(img, blocks, 0, j, sw, sh, scale);
      FocusPairShift(img, pre, tail.shapes, 2 * (j - 0), blocks[j], sw, sh, scale);
    }
  }

  /** A shape a slide outside text-focus mode may hold: a picture of a
      non-empty crop (standard mode only), or a wrapping text box with
      default insets. */
  predicate PlainShape(sh: Shape, mode: string) {
    (CroppedPicture(sh) && mode == STANDARD) ||
    (sh.TextBox? && sh.insets == DefaultInsets && sh.wordWrap)
  }

  lemma PlainPictureStage(img: Image, layout: PageLayout, mode: string, sw: int, sh: int, failing: set<nat>)
    requires mode != TEXT_FOCUS
    ensures var pics := PictureStage(img, layout, mode, sw, sh, failing);
      forall k :: 0 <= k < |pics.shapes| ==> PlainShape(pics.shapes[k], mode)
  {
    if mode == STANDARD && layout.imageRegions.Some? {
      EmitRegionsFacts(img, layout.imageRegions.value, 0, sw, sh, failing);
      assert PictureStage(img, layout, mode, sw, sh, failing).shapes
          == EmitRegions(img, layout.imageRegions.value, 0, sw, sh, failing).shapes;
    }
  }

  lemma PlainConcat(a: seq<Shape>, b: seq<Shape>, mode: string)
    requires forall k :: 0 <= k < |a| ==> PlainShape(a[k], mode)
    requires PlainTextBoxes(b)
    ensures forall k :: 0 <= k < |a + b| ==> PlainShape((a + b)[k], mode)
  {
    forall k | 0 <= k < |a + b|
      ensures PlainShape((a + b)[k], mode)
    {
      if k < |a| {
        assert (a + b)[k] == a[k];
      } else {
        assert (a + b)[k] == b[k - |a|];
      }
    }
  }

  /** Outside text-focus mode a slide holds no mask and no page picture:
      only region pictures of non-empty crops (in standard mode) followed by
      wrapping text boxes with default insets. */
  lemma PlainSlide(img: Image, layout: PageLayout, mode: string, sw: int, sh: int, scale: real, failing: set<nat>)
    requires img.Valid() && mode != TEXT_FOCUS
    ensures var e := SlideShapes(img, layout, mode, sw, sh, scale, failing);
      forall k :: 0 <= k < |e.shapes| ==> PlainShape(e.shapes[k], mode)
  {
    var pics := PictureStage(img, layout, mode, sw, sh, failing);
    PlainPictureStage(img, layout, mode, sw, sh, failing);
    if pics.ok && layout.textBlocks.Some? {
      var tail := EmitBlocks(img, layout.textBlocks.value, 0, mode, sw, sh, scale);
      PlainBlocksAreTextBoxes(img, layout.textBlocks.value, 0, mode, sw, sh, scale);
      PlainConcat(pics.shapes, tail.shapes, mode);
    }
  }

  /** In a standard slide whose regions are all placed and whose blocks
      are all well formed, the shapes are one picture per region, then one
      text box per block, in layout order. */
  lemma StandardSlide(img: Image, regions: seq<ImageRegion>, blocks: seq<TextBlock>, sw: int, sh: int, scale: real, failing: set<nat>)
    requires img.Valid() && AllPlaced(img, regions, 0, failing) && BlocksUnpack(blocks, 0)
    ensures var e := SlideShapes(img, PageLayout(Some(blocks), Some(regions)), STANDARD, sw, sh, scale, failing);
      e.ok && |e.shapes| == |regions| + |blocks| &&
      (forall j :: 0 <= j < |regions| ==> e.shapes[j] == RegionShape(img, regions[j], sw, sh)) &&
      (forall j :: 0 <= j < |blocks| ==> e.shapes[|regions| + j] == PlainBox(blocks[j], STANDARD, sw, sh, scale))
  {
    var pics := EmitRegions(img, regions, 0, sw, sh, failing);
    var rest := EmitBlocks(img, blocks, 0, STANDARD, sw, sh, scale);
    PlacedRegionPictures(img, regions, sw, sh, failing);
    PlainBlockBoxes(img, blocks, STANDARD, sw, sh, scale);
    StandardStages(img, regions, blocks, sw, sh, scale, failing);
    var e := SlideShapes(img, PageLayout(Some(blocks), Some(regions)), STANDARD, sw, sh, scale, failing);
    assert e.ok && e.shapes == pics.shapes + rest.shapes;
    forall j | 0 <= j < |blocks|
      ensures e.shapes[|regions| + j] == PlainBox(blocks[j], STANDARD, sw, sh, scale)
    {
      assert e.shapes[|regions| + j] == rest.shapes[j];
    }
  }

  /** When every region is placed, the pictures are the regions', one each,
      in layout order. */
  lemma PlacedRegionPictures(img: Image, regions: seq<ImageRegion>, sw: int, sh: int, failing: set<nat>)
    requires AllPlaced(img, regions, 0, failing)
    ensures var pics := EmitRegions(img, regions, 0, sw, sh, failing);
      pics.ok && |pics.shapes| == |regions| &&
      forall j :: 0 <= j < |regions| ==> pics.shapes[j] == RegionShape(img, regions[j], sw, sh)
  {
    PlacedRegionsLength(img, regions, 0, sw, sh, failing);
    forall j | 0 <= j < |regions|
      ensures EmitRegions(img, regions, 0, sw, sh, failing).shapes[j] == RegionShape(img, regions[j], sw, sh)
    {
      PlacedRegionAt(img, regions, 0, j, sw, sh, failing);
    }
  }

  /** Outside text-focus mode, well-formed blocks give their plain text
      boxes, one each, in layout order. */
  lemma PlainBlockBoxes(img: Image, blocks: seq<TextBlock>, mode: string, sw: int, sh: int, scale: real)
    requires img.Valid() && mode != TEXT_FOCUS && BlocksUnpack(blocks, 0)
    ensures var rest := EmitBlocks(img, blocks, 0, mode, sw, sh, scale);
      rest.ok && |rest.shapes| == |blocks| &&
      forall j :: 0 <= j < |blocks| ==> rest.shapes[j] == PlainBox(blocks[j], mode, sw, sh, scale)
  {
    PlainBlocksLength(img, blocks, 0, mode, sw, sh, scale);
    forall j | 0 <= j < |blocks|
      ensures EmitBlocks(img, blocks, 0, mode, sw, sh, scale).shapes[j] == PlainBox(blocks[j], mode, sw, sh, scale)
    {
      PlainBlockAt(img, blocks, 0, j, mode, sw, sh, scale);
    }
  }

  /** A standard slide whose region loop completes is the region pictures
      followed by the text-block shapes. */
  lemma StandardStages(img: Image, regions: seq<ImageRegion>, blocks: seq<TextBlock>, sw: int, sh: int, scale: real, failing: set<nat>)
    requires img.Valid() && EmitRegions(img, regions, 0, sw, sh, failing).ok
    ensures SlideShapes(img, PageLayout(Some(blocks), Some(regions)), STANDARD, sw, sh, scale, failing)
         == Then(EmitRegions(img, regions, 0, sw, sh, failing).shapes, EmitBlocks(img, blocks, 0, STANDARD, sw, sh, scale))
  {
    assert Background(STANDARD, sw, sh) == [];
  }

  /** The mask never starts right of or below its text box, and reaches
      past the text box's far edges up to one EMU of rounding, when the box
      lies inside the grid. */
  lemma MaskCoversText(b: NormBox, sw: nat, sh: nat)
    requires InGrid(b)
    ensures var m, t := CanvasFrame(Inflate(b), sw, sh), CanvasFrame(b, sw, sh);
      m.left <= t.left && m.top <= t.top &&
      t.left + t.width <= m.left + m.width + 1 && t.top + t.height <= m.top + m.height + 1
  {
    var m := Inflate(b);
    MulMonotone(m.xmin, b.xmin, sw);
    MulMonotone(m.ymin, b.ymin, sh);
    TruncDivMonotone(m.xmin * sw, b.xmin * sw, GRID);
    TruncDivMonotone(m.ymin * sh, b.ymin * sh, GRID);
    FarEdge(b.xmin, b.xmax, m.xmin, m.xmax, sw);
    FarEdge(b.ymin, b.ymax, m.ymin, m.ymax, sh);
  }

  /** One axis of MaskCoversText's far edge: the text's end is at most
      trunc(hi * s), and the mask's end is at least trunc(mhi * s) - 1. */
  lemma FarEdge(lo: int, hi: int, mlo: int, mhi: int, s: nat)
    requires 0 <= mlo <= lo <= hi <= mhi
    ensures TruncDiv(lo * s, GRID) + TruncDiv((hi - lo) * s, GRID)
         <= TruncDiv(mlo * s, GRID) + TruncDiv((mhi - mlo) * s, GRID) + 1
  {
    MulMonotone(0, mlo, s);
    MulMonotone(0, hi - lo, s);
    MulMonotone(0, mhi - mlo, s);
    MulMonotone(hi, mhi, s);
    assert lo * s + (hi - lo) * s == hi * s;
    assert mlo * s + (mhi - mlo) * s == mhi * s;
    TruncDivSuperadditive(lo * s, (hi - lo) * s, GRID);
    TruncDivMonotone(hi * s, mhi * s, GRID);
    TruncDivNearlyAdditive(mlo * s, (mhi - mlo) * s, GRID);
  }

  // ---------------------------------------------------------------------
  // Paragraphs of a text block

  function Texts(ps: seq<Paragraph>): (ts: seq<string>)
    ensures |ts| == |ps|
  {
    seq(|ps|, i requires 0 <= i < |ps| => ps[i].text)
  }

  /** A block's paragraphs are its text's lines: joined with '\n' they give
      the text back, none holds a line break, and all share one font whose
      size is always set, whose bold is never set to false, whose typeface
      is set exactly in text-focus mode, to the substitute for the block's
      family, and whose colour is the parsed
      colour string (black when the key is missing). */
  lemma BlockParagraphsFacts(block: TextBlock, mode: string, scale: real)
    ensures var ps := BlockParagraphs(block, mode, scale);
      |ps| >= 1 && JoinLines(Texts(ps)) == BlockText(block) &&
      forall i :: 0 <= i < |ps| ==>
        NoNewline(ps[i].text) && ps[i].font == ps[0].font &&
        ps[i].font.size == Some(ScaledFontSize(block.fontSizePt, scale)) &&
        ps[i].font.bold != Some(false) &&
        (ps[i].font.bold == Some(true) <==> block.isBold == Some(true)) &&
        (ps[i].font.name.Some? <==> mode == TEXT_FOCUS) &&
        (mode == TEXT_FOCUS ==> ps[i].font.name == Some(FontName(block.fontFamily))) &&
        ps[i].font.color == ParseColor(if block.fontColorHex.Some? then block.fontColorHex.value else DEFAULT_COLOR_HEX)
  {
    var t := BlockText(block);
    var ps := BlockParagraphs(block, mode, scale);
    SplitJoin(t);
    assert Texts(ps) == SplitLines(t);
  }

  /** A block "Hello" of 18 pt, bold, colour "#FF0000", in standard mode at
      the default scale: one paragraph of 19.8 pt, bold, red, with the
      typeface left to the template. */
  lemma HelloParagraph()
    ensures BlockParagraphs(TextBlock(Some([100, 100, 200, 900]), Some("Hello"), Some(18.0), Some("#FF0000"), None, Some(true), None),
                            STANDARD, DEFAULT_FONT_SCALE)
         == [Paragraph("Hello", Font(Some(19.8), Some(true), None, Some(RGB(255, 0, 0))))]
  {
    RedParses();
    assert NoNewline("Hello");
    OneLine("Hello");
  }
}
