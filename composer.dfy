/** The slide composer: the builder that owns the presentation, samples
    background colours, and turns one page image plus its layout into one
    slide of shapes. */
module Composer {
  import opened Layout
  import opened Geometry
  import opened Sampler
  import opened Styling

  const STANDARD: string := "standard"
  const TEXT_FOCUS: string := "text_focus"
  const DEFAULT_FONT_SCALE: real := 1.1

  /** The default template's slide size in EMU: 10 x 7.5 inches. */
  const DEFAULT_SLIDE_WIDTH: int := 9144000
  const DEFAULT_SLIDE_HEIGHT: int := 6858000

  /** The slide sizes the presentation library accepts, in EMU: 1 to 56
      inches; assigning any other size raises. */
  const MIN_SLIDE_SIZE: int := 914400
  const MAX_SLIDE_SIZE: int := 51206400

  predicate ValidSlideSize(emu: int) {
    MIN_SLIDE_SIZE <= emu <= MAX_SLIDE_SIZE
  }

  /** EMU per point (12700) and points per inch (72). */
  const EMU_PER_POINT: real := 12700.0
  const POINTS_PER_INCH: real := 72.0

  /** Text-frame insets: the library's defaults, or all four set to 0. */
  datatype Insets = DefaultInsets | ZeroInsets

  /** What a picture shows: the whole page image, or a crop of it given by
      an (unclamped) pixel rectangle. */
  datatype PictureSource = WholePage | Crop(rect: PixelRect)

  /** A shape on a slide.  A mask is always a solid-filled rectangle with
      no outline and no shadow; a text box has no fill. */
  datatype Shape =
    | Picture(frame: Frame, source: PictureSource)
    | Mask(frame: Frame, fill: RGB)
    | TextBox(frame: Frame, insets: Insets, wordWrap: bool, paragraphs: seq<Paragraph>)

  /** Shapes emitted so far, and whether composition ran to the end
      (`false`: an exception left the slide with these shapes only). */
  datatype Emitted = Emitted(shapes: seq<Shape>, ok: bool)

  function Then(prefix: seq<Shape>, e: Emitted): Emitted {
    Emitted(prefix + e.shapes, e.ok)
  }

  // ---------------------------------------------------------------------
  // Specification of one slide

  /** In text-focus mode, the whole page stretched over the slide. */
  function Background(mode: string, sw: int, sh: int): seq<Shape> {
    if mode == TEXT_FOCUS then [Picture(Frame(0, 0, sw, sh), WholePage)] else []
  }

  /** The picture for one image region: placed only when its unclamped pixel
      box has positive extent, and dropped when adding it fails. */
  function RegionPicture(img: Image, b: NormBox, sw: int, sh: int, fails: bool): seq<Shape> {
    var r := PixelBox(b, img.width, img.height);
    if r.right > r.left && r.bottom > r.top && !fails then [Picture(CanvasFrame(b, sw, sh), Crop(r))]
    else []
  }

  /** The pictures for regions i.. in order; a region without a four-number
      box aborts the slide.  `failing` holds the indices of the regions whose
      insertion raises (and is caught). */
  function EmitRegions(img: Image, regions: seq<ImageRegion>, i: nat, sw: int, sh: int, failing: set<nat>): Emitted
    decreases |regions| - i
  {
    if i >= |regions| then Emitted([], true)
    else match UnpackBox(regions[i].box2d)
      case None => Emitted([], false)
      case Some(b) => Then(RegionPicture(img, b, sw, sh, i in failing), EmitRegions(img, regions, i + 1, sw, sh, failing))
  }

  /** Every paragraph restyled with one block style, text untouched. */
  function Styled(ps: seq<Paragraph>, st: BlockStyle): (out: seq<Paragraph>)
    ensures |out| == |ps|
  {
    seq(|ps|, i requires 0 <= i < |ps| => Paragraph(ps[i].text, Restyle(ps[i].font, st)))
  }

  function BlockText(block: TextBlock): string {
    match block.text case Some(t) => t case None => ""
  }

  function BlockParagraphs(block: TextBlock, mode: string, scale: real): seq<Paragraph> {
    Styled(FrameParagraphs(BlockText(block)), StyleOf(block, mode == TEXT_FOCUS, scale))
  }

  /** The shapes for one text block with box b: in text-focus mode a mask
      over the inflated box, filled with the edge colour of the tight box,
      then a zero-inset text box on the tight box; otherwise one text box. */
  function BlockShapes(img: Image, block: TextBlock, b: NormBox, mode: string, sw: int, sh: int, scale: real): seq<Shape>
    requires img.Valid()
  {
    var paras := BlockParagraphs(block, mode, scale);
    if mode == TEXT_FOCUS then
      [Mask(CanvasFrame(Inflate(b), sw, sh), EdgeColor(img, b)), TextBox(CanvasFrame(b, sw, sh), ZeroInsets, true, paras)]
    else
      [TextBox(CanvasFrame(b, sw, sh), DefaultInsets, true, paras)]
  }

  /** The shapes for text blocks i.. in layout order; a block without a
      four-number box aborts the slide. */
  function EmitBlocks(img: Image, blocks: seq<TextBlock>, i: nat, mode: string, sw: int, sh: int, scale: real): Emitted
    requires img.Valid()
    decreases |blocks| - i
  {
    if i >= |blocks| then Emitted([], true)
    else match UnpackBox(blocks[i].box2d)
      case None => Emitted([], false)
      case Some(b) => Then(BlockShapes(img, blocks[i], b, mode, sw, sh, scale), EmitBlocks(img, blocks, i + 1, mode, sw, sh, scale))
  }

  /** Background and region pictures: what the slide holds before the text. */
  function PictureStage(img: Image, layout: PageLayout, mode: string, sw: int, sh: int, failing: set<nat>): Emitted {
    var bg := Background(mode, sw, sh);
    if mode == STANDARD && layout.imageRegions.Some? then
      Then(bg, EmitRegions(img, layout.imageRegions.value, 0, sw, sh, failing))
    else Emitted(bg, true)
  }

  /** The whole slide: background (text-focus), region pictures (standard),
      then the text blocks' shapes. */
  function SlideShapes(img: Image, layout: PageLayout, mode: string, sw: int, sh: int, scale: real, failing: set<nat>): Emitted
    requires img.Valid()
  {
    var pics := PictureStage(img, layout, mode, sw, sh, failing);
    if !pics.ok || layout.textBlocks.None? then pics
    else Then(pics.shapes, EmitBlocks(img, layout.textBlocks.value, 0, mode, sw, sh, scale))
  }

  lemma ThenAssoc(before: seq<Shape>, added: seq<Shape>, e: Emitted)
    ensures Then(before + added, e) == Then(before, Then(added, e))
  {
    assert (before + added) + e.shapes == before + (added + e.shapes);
  }

  lemma EmitRegionsStep(img: Image, regions: seq<ImageRegion>, i: nat, sw: int, sh: int, failing: set<nat>)
    requires i < |regions| && UnpackBox(regions[i].box2d).Some?
    ensures EmitRegions(img, regions, i, sw, sh, failing)
         == Then(RegionPicture(img, UnpackBox(regions[i].box2d).value, sw, sh, i in failing),
                 EmitRegions(img, regions, i + 1, sw, sh, failing))
  {
  }

  lemma EmitBlocksStep(img: Image, blocks: seq<TextBlock>, i: nat, mode: string, sw: int, sh: int, scale: real)
    requires img.Valid() && i < |blocks| && UnpackBox(blocks[i].box2d).Some?
    ensures EmitBlocks(img, blocks, i, mode, sw, sh, scale)
         == Then(BlockShapes(img, blocks[i], UnpackBox(blocks[i].box2d).value, mode, sw, sh, scale),
                 EmitBlocks(img, blocks, i + 1, mode, sw, sh, scale))
  {
  }

  /** One pass of the sampler's inner loop over columns, for border row y:
      each column's pixel in row y, then in row ch - 1 - y. */
  method SampleRowPair(img: Image, crop: PixelRect, cw: nat, ch: nat, y: nat, ghost done: seq<Point>, pixels0: seq<RGB>)
    returns (pixels: seq<RGB>)
    requires img.Valid() && CropInImage(img, crop)
    requires cw == crop.right - crop.left && ch == crop.bottom - crop.top && y < ch
    requires pixels0 == Pixels(img, crop, done)
    ensures pixels == Pixels(img, crop, done + RowPairs(ch, y, cw))
  {
    pixels := pixels0;
    var x := 0;
    assert done + RowPairs(ch, y, 0) == done;
    while x < cw
      invariant 0 <= x <= cw
      invariant pixels == Pixels(img, crop, done + RowPairs(ch, y, x))
    {
      ghost var sofar := done + RowPairs(ch, y, x);
      PixelsPair(img, crop, sofar, Point(x, y), Point(x, ch - 1 - y));
      assert done + RowPairs(ch, y, x + 1) == sofar + [Point(x, y), Point(x, ch - 1 - y)];
      pixels := pixels + [img.At(crop.left + x, crop.top + y)];
      pixels := pixels + [img.At(crop.left + x, crop.top + (ch - 1 - y))];
      x := x + 1;
    }
  }

  /** One pass of the sampler's inner loop over rows, for border column x:
      each row's pixel in column x, then in column cw - 1 - x. */
  method SampleColumnPair(img: Image, crop: PixelRect, cw: nat, ch: nat, x: nat, ghost done: seq<Point>, pixels0: seq<RGB>)
    returns (pixels: seq<RGB>)
    requires img.Valid() && CropInImage(img, crop)
    requires cw == crop.right - crop.left && ch == crop.bottom - crop.top && x < cw
    requires pixels0 == Pixels(img, crop, done)
    ensures pixels == Pixels(img, crop, done + ColPairs(cw, x, ch))
  {
    pixels := pixels0;
    var y := 0;
    assert done + ColPairs(cw, x, 0) == done;
    while y < ch
      invariant 0 <= y <= ch
      invariant pixels == Pixels(img, crop, done + ColPairs(cw, x, y))
    {
      ghost var sofar := done + ColPairs(cw, x, y);
      PixelsPair(img, crop, sofar, Point(x, y), Point(cw - 1 - x, y));
      assert done + ColPairs(cw, x, y + 1) == sofar + [Point(x, y), Point(cw - 1 - x, y)];
      pixels := pixels + [img.At(crop.left + x, crop.top + y)];
      pixels := pixels + [img.At(crop.left + (cw - 1 - x), crop.top + y)];
      y := y + 1;
    }
  }

  /** The edge sampler's first loop nest: the top and bottom border rows,
      min(2, ch) of each. */
  method SampleTopBottom(img: Image, crop: PixelRect, cw: nat, ch: nat) returns (pixels: seq<RGB>)
    requires img.Valid() && CropInImage(img, crop)
    requires cw == crop.right - crop.left && ch == crop.bottom - crop.top
    ensures pixels == Pixels(img, crop, TopBottom(cw, ch, Min(DEPTH, ch)))
  {
    pixels := [];
    var y := 0;
    while y < Min(DEPTH, ch)
      invariant 0 <= y <= Min(DEPTH, ch)
      invariant pixels == Pixels(img, crop, TopBottom(cw, ch, y))
    {
      pixels := SampleRowPair(img, crop, cw, ch, y, TopBottom(cw, ch, y), pixels);
      y := y + 1;
    }
  }

  /** The edge sampler's second loop nest: the left and right border
      columns, min(2, cw) of each, appended after the samples `done`. */
  method SampleLeftRight(img: Image, crop: PixelRect, cw: nat, ch: nat, ghost done: seq<Point>, pixels0: seq<RGB>)
    returns (pixels: seq<RGB>)
    requires img.Valid() && CropInImage(img, crop)
    requires cw == crop.right - crop.left && ch == crop.bottom - crop.top
    requires pixels0 == Pixels(img, crop, done)
    ensures pixels == Pixels(img, crop, done + LeftRight(cw, ch, Min(DEPTH, cw)))
  {
    pixels := pixels0;
    assert done + LeftRight(cw, ch, 0) == done;
    var x := 0;
    while x < Min(DEPTH, cw)
      invariant 0 <= x <= Min(DEPTH, cw)
      invariant pixels == Pixels(img, crop, done + LeftRight(cw, ch, x))
    {
      pixels := SampleColumnPair(img, crop, cw, ch, x, done + LeftRight(cw, ch, x), pixels);
      LeftRightStep(done, cw, ch, x);
      x := x + 1;
    }
  }

  lemma LeftRightStep(done: seq<Point>, cw: nat, ch: nat, x: nat)
    ensures done + LeftRight(cw, ch, x) + ColPairs(cw, x, ch) == done + LeftRight(cw, ch, x + 1)
  {
    assert LeftRight(cw, ch, x + 1) == LeftRight(cw, ch, x) + ColPairs(cw, x, ch);
  }

  /** Both loop nests of the edge sampler, in order. */
  method SampleBorder(img: Image, crop: PixelRect, cw: nat, ch: nat) returns (pixels: seq<RGB>)
    requires img.Valid() && CropInImage(img, crop)
    requires cw == crop.right - crop.left && ch == crop.bottom - crop.top
    ensures pixels == Pixels(img, crop, SamplePoints(cw, ch))
  {
    pixels := SampleTopBottom(img, crop, cw, ch);
    pixels := SampleLeftRight(img, crop, cw, ch, TopBottom(cw, ch, Min(DEPTH, ch)), pixels);
  }

  /** A page of `p` points set through the inch-based setter (`p / 72`
      inches) gets the same size as the direct `int(p * 12700)`, which is
      exactly p * 12700 EMU for a whole number of points; ten by seven and a
      half inches is the default template's size. */
  lemma SlideSizeFromPoints(p: real)
    requires 0.0 <= p
    ensures TruncReal(p / POINTS_PER_INCH * POINTS_PER_INCH * EMU_PER_POINT) == TruncReal(p * EMU_PER_POINT)
    ensures p == p.Floor as real ==> TruncReal(p * EMU_PER_POINT) == p.Floor * 12700
    ensures TruncReal(10.0 * POINTS_PER_INCH * EMU_PER_POINT) == DEFAULT_SLIDE_WIDTH
    ensures TruncReal(7.5 * POINTS_PER_INCH * EMU_PER_POINT) == DEFAULT_SLIDE_HEIGHT
  {
    assert p / POINTS_PER_INCH * POINTS_PER_INCH == p;
    if p == p.Floor as real {
      assert p * EMU_PER_POINT == (p.Floor * 12700) as real;
    }
  }

  /** The inch-based setter accepts a size exactly when it is at least one
      inch and its EMU value truncates to at most 56 inches. */
  lemma SlideSizeAccepted(inches: real)
    ensures ValidSlideSize(TruncReal(inches * POINTS_PER_INCH * EMU_PER_POINT)) <==>
      1.0 <= inches && inches * POINTS_PER_INCH * EMU_PER_POINT < MAX_SLIDE_SIZE as real + 1.0
  {
    var x := inches * POINTS_PER_INCH * EMU_PER_POINT;
    assert x == inches * 914400.0;
  }

  // ---------------------------------------------------------------------
  // The builder

  /** A slide of the presentation; shapes are appended to it in place. */
  class Slide {
    var shapes: seq<Shape>

    constructor ()
      ensures shapes == []
    {
      shapes := [];
    }
  }

  class PptxBuilder {
    var outputPath: string
    var mode: string
    var fontScale: real
    var slideWidth: int
    var slideHeight: int
    var slides: seq<Slide>

    /** A new, empty presentation with the default template's slide size;
      the mode defaults to standard and the font scale to 1.1. */
    constructor (outputPath: string, mode: string := STANDARD, fontScale: real := DEFAULT_FONT_SCALE)
      ensures this.outputPath == outputPath && this.mode == mode && this.fontScale == fontScale
      ensures slideWidth == DEFAULT_SLIDE_WIDTH && slideHeight == DEFAULT_SLIDE_HEIGHT
      ensures slides == []
    {
      this.outputPath := outputPath;
      this.mode := mode;
      this.fontScale := fontScale;
      slideWidth := DEFAULT_SLIDE_WIDTH;
      slideHeight := DEFAULT_SLIDE_HEIGHT;
      slides := [];
    }

    /** Slide size from a size in inches: `int(inches * 72 * 12700)`, width
      first.  A size the library refuses raises (`ok` false) and leaves
      that dimension, and for a refused width the height too, as it was. */
    method SetSlideSize(width: real, height: real) returns (ok: bool)
      modifies this
      ensures var w, h := TruncReal(width * POINTS_PER_INCH * EMU_PER_POINT), TruncReal(height * POINTS_PER_INCH * EMU_PER_POINT);
        ok == (ValidSlideSize(w) && ValidSlideSize(h)) &&
        slideWidth == (if ValidSlideSize(w) then w else old(slideWidth)) &&
        slideHeight == (if ok then h else old(slideHeight))
      ensures outputPath == old(outputPath) && mode == old(mode) && fontScale == old(fontScale)
      ensures slides == old(slides)
    {
      var w := TruncReal(width * POINTS_PER_INCH * EMU_PER_POINT);
      if !ValidSlideSize(w) {
        return false;
      }
      slideWidth := w;
      var h := TruncReal(height * POINTS_PER_INCH * EMU_PER_POINT);
      if !ValidSlideSize(h) {
        return false;
      }
      slideHeight := h;
      ok := true;
    }

    /** The background colour behind a box: clamp its pixel rectangle, read
      the crop's border band, and return the most common colour. */
    method GetEdgeColor(img: Image, b: NormBox) returns (color: RGB)
      requires img.Valid()
      ensures color == EdgeColor(img, b)
    {
      var w, h := img.width, img.height;
      var left := ToPixel(b.xmin, w);
      var top := ToPixel(b.ymin, h);
      var right := ToPixel(b.xmax, w);
      var bottom := ToPixel(b.ymax, h);
      left := Max(0, left);
      top := Max(0, top);
      right := Min(w, right);
      bottom := Min(h, bottom);
      if right <= left || bottom <= top {
        return WHITE;
      }
      var crop := PixelRect(left, top, right, bottom);
      assert crop == EdgeCrop(img, b);
      var cw, ch := right - left, bottom - top;
      var pixels := SampleBorder(img, crop, cw, ch);
      assert pixels == BorderPixels(img, crop);
      if pixels == [] {
        return WHITE;
      }
      color := pixels[MostCommonIndex(pixels)];
    }

    /** The paragraph loop: every paragraph gets the block's one style. */
    method StyleParagraphs(ps: seq<Paragraph>, st: BlockStyle) returns (out: seq<Paragraph>)
      ensures out == Styled(ps, st)
    {
      out := ps;
      var i := 0;
      while i < |out|
        invariant 0 <= i <= |out| == |ps|
        invariant forall j :: 0 <= j < i ==> out[j] == Paragraph(ps[j].text, Restyle(ps[j].font, st))
        invariant forall j :: i <= j < |ps| ==> out[j] == ps[j]
      {
        out := out[i := out[i].(font := Restyle(out[i].font, st))];
        i := i + 1;
      }
    }

    /** The image-region loop: a picture per region whose pixel box has
      positive extent, skipping those whose insertion fails; `ok` is false
      when a region's box is missing or malformed, which aborts the slide. */
    method AddRegionPictures(slide: Slide, img: Image, regions: seq<ImageRegion>, failing: set<nat>)
      returns (ok: bool)
      modifies slide
      ensures var e := EmitRegions(img, regions, 0, slideWidth, slideHeight, failing);
        slide.shapes == old(slide.shapes) + e.shapes && ok == e.ok
    {
      var sw, sh := slideWidth, slideHeight;
      var i := 0;
      while i < |regions|
        invariant 0 <= i <= |regions|
        invariant Then(slide.shapes, EmitRegions(img, regions, i, sw, sh, failing))
               == Then(old(slide.shapes), EmitRegions(img, regions, 0, sw, sh, failing))
      {
        var box := UnpackBox(regions[i].box2d);
        if box.None? {
          return false;
        }
        var b := box.value;
        ghost var before := slide.shapes;
        ghost var added := RegionPicture(img, b, sw, sh, i in failing);
        EmitRegionsStep(img, regions, i, sw, sh, failing);
        var w, h := img.width, img.height;
        var left := ToPixel(b.xmin, w);
        var top := ToPixel(b.ymin, h);
        var right := ToPixel(b.xmax, w);
        var bottom := ToPixel(b.ymax, h);
        if right > left && bottom > top {
          var frame := CanvasFrame(b, sw, sh);
          if i !in failing {
            slide.shapes := slide.shapes + [Picture(frame, Crop(PixelRect(left, top, right, bottom)))];
          }
        }
        assert slide.shapes == before + added;
        ThenAssoc(before, added, EmitRegions(img, regions, i + 1, sw, sh, failing));
        i := i + 1;
      }
      ok := true;
    }

    /** The text-block loop, in layout order; `ok` is false when a block's
      box is missing or malformed, which aborts the slide. */
    method AddTextBlocks(slide: Slide, img: Image, blocks: seq<TextBlock>) returns (ok: bool)
      requires img.Valid()
      modifies slide
      ensures var e := EmitBlocks(img, blocks, 0, mode, slideWidth, slideHeight, fontScale);
        slide.shapes == old(slide.shapes) + e.shapes && ok == e.ok
    {
      var sw, sh, md, scale := slideWidth, slideHeight, mode, fontScale;
      var i := 0;
      while i < |blocks|
        invariant 0 <= i <= |blocks|
        invariant Then(slide.shapes, EmitBlocks(img, blocks, i, md, sw, sh, scale))
               == Then(old(slide.shapes), EmitBlocks(img, blocks, 0, md, sw, sh, scale))
      {
        var box := UnpackBox(blocks[i].box2d);
        if box.None? {
          return false;
        }
        var b := box.value;
        ghost var before := slide.shapes;
        ghost var added := BlockShapes(img, blocks[i], b, md, sw, sh, scale);
        EmitBlocksStep(img, blocks, i, md, sw, sh, scale);
        AddBlockShapes(slide, img, blocks[i], b);
        ThenAssoc(before, added, EmitBlocks(img, blocks, i + 1, md, sw, sh, scale));
        i := i + 1;
      }
      ok := true;
    }

    /** The body of the text-block loop for one block with box b. */
    method AddBlockShapes(slide: Slide, img: Image, block: TextBlock, b: NormBox)
      requires img.Valid()
      modifies slide
      ensures slide.shapes == old(slide.shapes) + BlockShapes(img, block, b, mode, slideWidth, slideHeight, fontScale)
    {
      var sw, sh, md, scale := slideWidth, slideHeight, mode, fontScale;
      var frame := CanvasFrame(b, sw, sh);
      var paras := FrameParagraphs(BlockText(block));
      var style := StyleOf(block, md == TEXT_FOCUS, scale);
      if md == TEXT_FOCUS {
        var bgColor := GetEdgeColor(img, b);
        var mask := Inflate(b);
        slide.shapes := slide.shapes + [Mask(CanvasFrame(mask, sw, sh), bgColor)];
        paras := StyleParagraphs(paras, style);
        slide.shapes := slide.shapes + [TextBox(frame, ZeroInsets, true, paras)];
      } else {
        paras := StyleParagraphs(paras, style);
        slide.shapes := slide.shapes + [TextBox(frame, DefaultInsets, true, paras)];
      }
    }

    /** Append one slide and fill it from the page image and its layout.
      `ok` is false when a box is missing or malformed: the source raises
      there, and the slide keeps the shapes added before that point.  The
      page size in points is accepted and not used. */
    method AddSlide(img: Image, layout: PageLayout, pdfWidth: real, pdfHeight: real, failing: set<nat>)
      returns (ok: bool)
      requires img.Valid()
      modifies this
      ensures |slides| == |old(slides)| + 1 && slides[..|old(slides)|] == old(slides)
      ensures fresh(slides[|old(slides)|])
      ensures var e := SlideShapes(img, layout, mode, slideWidth, slideHeight, fontScale, failing);
        slides[|old(slides)|].shapes == e.shapes && ok == e.ok
      ensures outputPath == old(outputPath) && mode == old(mode) && fontScale == old(fontScale)
      ensures slideWidth == old(slideWidth) && slideHeight == old(slideHeight)
    {
      var slide := new Slide();
      slides := slides + [slide];
      var sw, sh, md := slideWidth, slideHeight, mode;
      ghost var pics := PictureStage(img, layout, md, sw, sh, failing);
      if md == TEXT_FOCUS {
        slide.shapes := slide.shapes + [Picture(Frame(0, 0, sw, sh), WholePage)];
      }
      assert slide.shapes == Background(md, sw, sh);
      if md == STANDARD && layout.imageRegions.Some? {
        ok := AddRegionPictures(slide, img, layout.imageRegions.value, failing);
        if !ok {
          return;
        }
      }
      assert pics.ok && slide.shapes == pics.shapes;
      if layout.textBlocks.Some? {
        ok := AddTextBlocks(slide, img, layout.textBlocks.value);
        if !ok {
          return;
        }
      }
      ok := true;
    }
  }
}
