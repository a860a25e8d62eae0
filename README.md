# pdf2pptx slide composer, in Dafny

pdf2pptx turns every page of a PDF into a PowerPoint slide. Each page image is
sent to a vision model, which returns a JSON layout. The layout holds text
blocks and image regions, each with a bounding box on a 0..1000 grid given as
`[ymin, xmin, ymax, xmax]`. The `PPTXBuilder` class then rebuilds the page as
editable shapes.

This project models that builder:

- its construction and `set_slide_size`;
- the background-colour sampler `get_edge_color`;
- `add_slide`, in both modes:
  - "standard": cropped region pictures, then plain text boxes;
  - "text_focus": the page picture as background, then for every text block a
    solid mask filled with the sampled colour and a tight, zero-margin text box.

The files:

- `layout.dfy` (module `Layout`): the layout as received, with every key
  optional, and the unpacking of a `box_2d` entry.
- `geometry.dfy` (module `Geometry`): the coordinate arithmetic. This covers
  the truncation `int()` performs, box-to-pixel and box-to-EMU mapping, the
  clamp, and mask inflation.
- `sampler.dfy` (module `Sampler`): the specification of the edge sampler.
  This covers which crop positions it reads and in which order, and the
  `Counter.most_common` choice.
- `styling.dfy` (module `Styling`): the font logic. This covers the scaled
  size, the typeface substitution, Python's `int(s, 16)` and the `#RRGGBB`
  parse, and the text frame's split of text into paragraphs.
- `composer.dfy` (module `Composer`):
  - the shapes a slide receives, as specification functions;
  - the `Slide` and `PptxBuilder` classes, whose methods mutate the
    presentation and are proved against those functions;
  - the sampler's loops as methods.
- `composer_facts.dfy` (module `ComposerFacts`): what a composed slide looks
  like, stated as lemmas.

Conventions:

- Coordinates are exact integers and rationals. `int(x)` is truncation toward
  zero.
- Font sizes are `real`.
- A missing `box_2d` key, or one that is not a list of four numbers, raises in
  the source. Here it makes composition return `ok == false`. The slide stays
  in the presentation with the shapes added before that point.
- `failing` is the set of image-region indices whose `add_picture` raises.
  That exception is caught per region.

## Model

| member | source | states |
|---|---|---|
| Layout.UnpackBox | pdf2pptx.py:250 | a box unpacks exactly when the key is present with four numbers, and its fields are those numbers in `[ymin, xmin, ymax, xmax]` order |
| Geometry.TruncDivBounds | pdf2pptx.py:151-154 | the quotient is the one truncated toward zero: within one divisor below the numerator for non-negative numerators, above it for negative ones |
| Geometry.PixelBoxTruncates | pdf2pptx.py:226-229 | `PixelBox`: each side of the pixel rectangle is coordinate × image size / 1000 truncated toward zero (the same computation as lines 151-154) |
| Geometry.CanvasFrameTruncates | pdf2pptx.py:258-261 | `CanvasFrame`: the origin is coordinate × slide size / 1000 and the extent (max − min) × slide size / 1000, each truncated toward zero (the same computation as lines 237-240) |
| Geometry.TruncDivMonotone | pdf2pptx.py:151-154 | a larger numerator never gives a smaller truncated quotient |
| Geometry.TruncReal | pdf2pptx.py:136-137 | the real truncated toward zero, for both signs |
| Geometry.Clamp | pdf2pptx.py:157-160 | the clamped crop lies inside the image and inside the unclamped one; it is unchanged when already inside; when non-empty, its bounds are ordered |
| Geometry.ClampKeepsVisible | pdf2pptx.py:157-160 | a pixel lies in the clamped crop exactly when it lies in the unclamped box and in the image: the clamp drops nothing visible |
| Geometry.Inflate | pdf2pptx.py:274-278 | each side of the mask box is the text box's side pushed out by 5 units, or the grid edge when that push would leave the grid; the mask lies in the grid; it contains the text box exactly when the box does not stick out of the grid; a box in the grid gives a box in the grid |
| Geometry.PixelBoxWithinImage | pdf2pptx.py:151-154 | a box inside the grid maps to an ordered pixel rectangle inside the image |
| Geometry.PixelSpanWithin | pdf2pptx.py:151-154 | one axis of that: two ordered grid coordinates map to ordered pixel coordinates between 0 and the image size |
| Geometry.CanvasFrameWithinSlide | pdf2pptx.py:258-261 | a box inside the grid gets a frame of non-negative extent that ends within the slide |
| Geometry.SpanWithin | pdf2pptx.py:258-261 | one axis of that: origin and extent are non-negative and their sum is at most the slide size |
| Geometry.InvertedBoxExtent | pdf2pptx.py:260 | an inverted box gets a non-positive width, negative once the span is a whole EMU |
| Geometry.TruncDivSuperadditive | pdf2pptx.py:258-261 | origin plus extent never exceeds the truncated far edge |
| Geometry.TruncDivNearlyAdditive | pdf2pptx.py:280-283 | origin plus extent falls short of the truncated far edge by at most one EMU |
| Sampler.RowPairsFacts | pdf2pptx.py:181-183 | one row pass reads 2n positions, all inside the crop |
| Sampler.ColPairsFacts | pdf2pptx.py:187-189 | one column pass reads 2n positions, all inside the crop |
| Sampler.TopBottomFacts | pdf2pptx.py:180-183 | the top-and-bottom loops read 2·k·cw positions inside the crop |
| Sampler.LeftRightFacts | pdf2pptx.py:186-189 | the left-and-right loops read 2·k·ch positions inside the crop |
| Sampler.SamplePointsInCrop | pdf2pptx.py:173-189 | every sampled position lies in the crop; there are 2·min(2,ch)·cw + 2·min(2,cw)·ch of them |
| Sampler.RowPairsMember | pdf2pptx.py:181-183 | one row pass reads exactly the positions (x, y) and (x, ch − 1 − y) for x below n |
| Sampler.ColPairsMember | pdf2pptx.py:187-189 | one column pass reads exactly the positions (x, y) and (cw − 1 − x, y) for y below n |
| Sampler.TopBottomMember | pdf2pptx.py:180-183 | the first loop nest reads exactly the positions of the crop in its top k or bottom k rows |
| Sampler.LeftRightMember | pdf2pptx.py:186-189 | the second loop nest reads exactly the positions of the crop in its left k or right k columns |
| Sampler.SamplePointsBand | pdf2pptx.py:173-189 | a position is sampled iff it lies in the crop within min(2, size) of one of its four edges: the whole border band is read and nothing inside it |
| Sampler.SamplesNonEmpty | pdf2pptx.py:191-192 | a non-empty crop yields at least 2·cw + 2·ch samples, so the "no pixels" return is unreachable there |
| Sampler.BorderPixelsRead | pdf2pptx.py:165-189 | every sample is the image pixel at its position offset by the crop origin, and that position is inside the crop |
| Sampler.BorderPixelRead | pdf2pptx.py:165-189 | the same for one sample index i |
| Sampler.MostCommonIndex | pdf2pptx.py:195-196 | the chosen sample has a maximal count, and every earlier sample has a strictly smaller count (first-seen wins ties) |
| Sampler.EmptyCropIsWhite | pdf2pptx.py:162-163 | an empty clamped crop gives white |
| Sampler.EdgeColorIsMode | pdf2pptx.py:139-197 | `EdgeColor`: for a non-empty crop: the crop is inside the image, and the colour is a sampled pixel with maximal count, appearing no later than any other colour with that count |
| Sampler.SolidImageColor | pdf2pptx.py:139-197 | a single-colour image gives that colour for any box with a non-empty crop |
| Styling.ScaledFontSize | pdf2pptx.py:252-320 | a missing size gives 12 × scale, a zero size 12 (unscaled), any other size × scale; non-negative inputs give a non-negative size |
| Styling.FontName | pdf2pptx.py:327-331 | the typeface is one of the two substitutes, the serif one exactly when the family is "serif" |
| Styling.StyleOfFacts | pdf2pptx.py:251-341 | `StyleOf`: the block style carries the scaled size, sets bold iff `is_bold` is true, names a typeface iff text-focus, and then the substitute for the block's `font_family`, and takes its colour from the colour string, black when it is missing |
| Styling.Restyle | pdf2pptx.py:317-341 | a paragraph always gets the size; bold is set to true when the style asks for it and kept otherwise; the style's typeface and colour replace the paragraph's when present and the paragraph's are kept when absent |
| Styling.StripLeftDrops | pdf2pptx.py:336-338 | `int()`'s left strip keeps a suffix and drops only white space, meaning `\t \n \v \f \r`, space and non-ASCII white space, but not U+001C..U+001F (with StripLeft's own contract: exactly the leading run) |
| Styling.StripRightDrops | pdf2pptx.py:336-338 | the right strip keeps a prefix and drops only that same white space (with StripRight's own contract: exactly the trailing run) |
| Styling.StripLeftSpaces | pdf2pptx.py:336-338 | white space before a string that does not start with white space is removed entirely |
| Styling.StripRightSpaces | pdf2pptx.py:336-338 | white space after a string that does not end with white space is removed entirely |
| Styling.ParseHexIntPadded | pdf2pptx.py:336-338 | `int(s, 16)` gives the same result with white space (`\t \n \v \f \r`, space, non-ASCII white space) around the number |
| Styling.SeparatorIsNotPadding | pdf2pptx.py:333-341 | U+001C is not skipped by `int()`: a slice holding it does not parse, and the bare `except` leaves the colour unset |
| Styling.ParseHexIntSigned | pdf2pptx.py:336-338 | a run of hex digits parses to its value, also after '+', and to minus its value after '-' |
| Styling.SplitLines | pdf2pptx.py:314 | a text frame always has at least one paragraph, even for empty text |
| Styling.SplitJoin | pdf2pptx.py:314 | joining the frame's paragraphs with '\n' gives the text back, and no paragraph holds a line break |
| Styling.JoinSplit | pdf2pptx.py:314 | splitting the join of break-free lines gives the lines back |
| Styling.HexValueBound | pdf2pptx.py:336-338 | n hex digits have a value below 16^n |
| Styling.HexPairParses | pdf2pptx.py:336-338 | two hex digits parse to 16·first + second |
| Styling.HexDigitParses | pdf2pptx.py:338 | a single hex digit parses to its value |
| Styling.HexByteParses | pdf2pptx.py:336-338 | a channel's two-digit spelling parses back to it |
| Styling.ColorRoundTrip | pdf2pptx.py:334-339 | parsing the `#RRGGBB` spelling of any colour gives that colour |
| Styling.ShortSliceFitsChannel | pdf2pptx.py:336-339 | a slice of at most two characters that parses non-negative is a valid channel |
| Styling.ParseColorCases | pdf2pptx.py:334-341 | `ParseColor`: a colour is set iff the string starts with '#' and all three slices parse non-negative; its channels are those values |
| Styling.DefaultColorIsBlack | pdf2pptx.py:253 | the default colour string gives black |
| Styling.NegativeChannelIsUnset | pdf2pptx.py:336-341 | a slice "-1" is refused by RGBColor, leaving the colour unset |
| Styling.RedParses | pdf2pptx.py:334-339 | "#FF0000" sets pure red |
| Styling.FullByteParses | pdf2pptx.py:338 | "FF" parses to 255 |
| Styling.OneLine | pdf2pptx.py:314 | a text without a line break becomes a single paragraph holding all of it, with an inherited font |
| Styling.ShortHexParses | pdf2pptx.py:336-339 | "#12345" sets RGB(0x12, 0x34, 0x5), because the last slice is one digit |
| Styling.NotAColorIsUnset | pdf2pptx.py:335 | a string not starting with '#' leaves the colour unset |
| Composer.SampleRowPair | pdf2pptx.py:181-183 | the inner column loop appends exactly the pixels of its row pair, in order |
| Composer.SampleColumnPair | pdf2pptx.py:187-189 | the inner row loop appends exactly the pixels of its column pair, in order |
| Composer.SampleTopBottom | pdf2pptx.py:180-183 | the first loop nest reads the pixels of the top/bottom positions |
| Composer.SampleLeftRight | pdf2pptx.py:186-189 | the second loop nest appends the pixels of the left/right positions |
| Composer.SampleBorder | pdf2pptx.py:168-189 | the sampled list is the pixels at all sample positions, in order |
| Composer.SlideSizeFromPoints | pdf2pptx.py:135-137 | in exact arithmetic, a size of p/72 inches equals the direct `int(p·12700)`, exactly p·12700 for whole points; 10 × 7.5 inches is the default size |
| Composer.SlideSizeAccepted | pdf2pptx.py:135-137 | the inch-based setter's size is accepted iff it is at least one inch and truncates to at most 56 inches |
| Composer.Slide.constructor | pdf2pptx.py:204-205 | a slide added from the blank layout starts with no shapes |
| Composer.PptxBuilder.constructor | pdf2pptx.py:129-133 | the fields are stored (mode "standard" and font scale 1.1 by default), the slide size is the default template's, and there are no slides |
| Composer.PptxBuilder.SetSlideSize | pdf2pptx.py:135-137 | each dimension becomes the truncated inches × 72 × 12700, width first; a size outside 1..56 inches raises (`ok` false) and leaves that dimension, and after a refused width also the height, unchanged; nothing else changes |
| Composer.PptxBuilder.GetEdgeColor | pdf2pptx.py:139-200 | returns `EdgeColor`, whose properties are EdgeColorIsMode, EmptyCropIsWhite and SolidImageColor |
| Composer.PptxBuilder.StyleParagraphs | pdf2pptx.py:317-341 | every paragraph keeps its text and gets the block style applied to its font |
| Composer.PptxBuilder.AddRegionPictures | pdf2pptx.py:220-245 | the slide gains exactly the region pictures of `EmitRegions`, aborting on a malformed box |
| Composer.PptxBuilder.AddTextBlocks | pdf2pptx.py:248-341 | the slide gains exactly the block shapes of `EmitBlocks`, aborting on a malformed box |
| Composer.PptxBuilder.AddBlockShapes | pdf2pptx.py:251-341 | one block with a well-formed box appends exactly `BlockShapes`: mask then tight text box in text-focus mode, one text box otherwise |
| Composer.PptxBuilder.AddSlide | pdf2pptx.py:202-341 | one fresh slide is appended, holding `SlideShapes`; no other builder field changes |
| ComposerFacts.EmitRegionsFacts | pdf2pptx.py:220-245 | the region loop completes iff every box is well formed; it adds at most one picture per region, each of a crop with positive extent |
| ComposerFacts.PlacedRegionsLength | pdf2pptx.py:220-243 | with well-formed, non-degenerate, non-failing regions, the region loop completes with exactly one picture per region |
| ComposerFacts.PlacedRegionPictures | pdf2pptx.py:220-243 | with every region placed, the loop completes and picture j is region j's, for every j |
| ComposerFacts.PlacedRegionAt | pdf2pptx.py:220-243 | ... and the picture for region j is at position j: its unclamped crop, at its box scaled to the slide |
| ComposerFacts.RegionStep | pdf2pptx.py:221-245 | `RegionPicture`: a region with a well-formed box adds its picture (unclamped crop, frame scaled to the slide) exactly when its crop has positive extent and its insertion does not fail, nothing otherwise, and the loop goes on |
| ComposerFacts.PlacedIndexBounds | pdf2pptx.py:221 | every listed placed index lies between the loop start and the number of regions |
| ComposerFacts.PlacedIndicesIncreasing | pdf2pptx.py:221 | the placed regions are listed in layout order |
| ComposerFacts.PlacedIndexMember | pdf2pptx.py:231-245 | a region is listed exactly when it is placed |
| ComposerFacts.MixedRegionsLength | pdf2pptx.py:220-245 | with every region box well formed, the loop completes with one picture per placed region |
| ComposerFacts.MixedRegionAt | pdf2pptx.py:220-245 | ... and the k-th picture is the k-th placed region's |
| ComposerFacts.RegionPictures | pdf2pptx.py:220-245 | `EmitRegions` on any layout with well-formed boxes: the pictures are those of the placed regions, one each, in layout order, and every placed region has its picture; degenerate crops and failing insertions are skipped |
| ComposerFacts.ZeroBoxSkipped | pdf2pptx.py:231 | a region with box [0, 0, 0, 0] adds no shape and does not stop the loop |
| ComposerFacts.EmitBlocksOk | pdf2pptx.py:248-250 | the text loop completes iff every block's box is well formed |
| ComposerFacts.TextFocusBlocksLength | pdf2pptx.py:248-306 | in text-focus mode, well-formed blocks give a completed loop with exactly two shapes per block |
| ComposerFacts.TextFocusBlockPair | pdf2pptx.py:263-306 | `EmitBlocks`/`BlockShapes` in text-focus mode: block j's shapes are at positions 2j and 2j+1: a mask over its inflated box filled with its edge colour, then a zero-inset wrapping text box on its tight box |
| ComposerFacts.PlainBlocksLength | pdf2pptx.py:248-312 | in any other mode, well-formed blocks give a completed loop with exactly one shape per block |
| ComposerFacts.PlainBlockBoxes | pdf2pptx.py:248-312 | in any other mode, well-formed blocks give a completed loop whose shape j is block j's wrapping text box, for every j |
| ComposerFacts.PlainBlockAt | pdf2pptx.py:308-312 | `EmitBlocks`/`BlockShapes` in any other mode: block j's shape, at position j, is a wrapping text box with default insets on its box |
| ComposerFacts.PlainBlocksAreTextBoxes | pdf2pptx.py:308-312 | outside text-focus mode, even an aborted text loop adds only wrapping default-inset text boxes |
| ComposerFacts.SlideOk | pdf2pptx.py:220-250 | `SlideShapes`: a slide completes iff every region box (standard mode only) and every block box is well formed |
| ComposerFacts.TextFocusSlide | pdf2pptx.py:211-306 | a text-focus slide is the full-slide page picture, then a mask/text pair per block; regions and failing insertions play no part |
| ComposerFacts.PlainSlide | pdf2pptx.py:220-312 | outside text-focus mode there is no mask and no page picture: only non-empty region crops (standard mode only) and default-inset wrapping text boxes |
| ComposerFacts.StandardSlide | pdf2pptx.py:220-312 | a standard slide with well-formed, non-degenerate, non-failing regions and well-formed blocks completes, and holds region j's picture at position j and block j's default-inset text box after all the pictures |
| ComposerFacts.StandardStages | pdf2pptx.py:211-250 | a standard slide whose region loop completes is the region pictures followed by the text loop's shapes, with no background picture |
| ComposerFacts.MaskCoversText | pdf2pptx.py:258-283 | for a box in the grid, the mask starts at or before the text box and ends no more than one EMU before the text box's end |
| ComposerFacts.BlockParagraphsFacts | pdf2pptx.py:314-341 | the paragraphs joined give the block text back; all share one font with the size always set, bold never false and true iff `is_bold`, a typeface iff text-focus, and then the substitute for `font_family`, and the colour parsed from the string (default black) |
| ComposerFacts.HelloParagraph | pdf2pptx.py:251-341 | "Hello" at 18 pt, bold, "#FF0000", standard mode, scale 1.1 gives one paragraph of 19.8 pt, bold, red |

## Left out

- `DocumentProcessor`: PDF rendering with PyMuPDF is not part of this model. The page image arrives as an `Image` value.
- `GeminiAnalyzer`: the network call and JSON extraction are not part of this model. The layout arrives as a `PageLayout` value.
- `save`: the library writes the file. The model stops at the in-memory slides.
- `main`: the per-page driver is not modelled. It sets the slide size from page 0 only by direct assignment, `int(w * 12700)`; it never calls `set_slide_size`. The GUI (gui_app.py:241-244) calls `set_slide_size(w/72, h/72)` and then makes the same direct assignment inside a `try`, so the second size wins. `SlideSizeFromPoints` relates the two paths.
- Composer.SlideSizeFromPoints: the two slide-size paths agree only in exact arithmetic. With double-precision floats, `int(w/72*72*12700)` can be one EMU below `int(w*12700)` (183.35 pt is one such width).
- Composer.PptxBuilder.SetSlideSize: the 1..56 inch range is the presentation library's check on the assigned size. The direct assignments outside the builder that the same check guards are not modelled.
- The GUI (`gui_app.py`) is not part of this model.
- Floating point: every `int(float)` is modelled as exact truncation of the rational value. For coordinates where a float product lands just below an integer, the source can be one unit closer to zero.
- Font sizes are reals, and `Pt()`'s conversion to EMU is not modelled. The font-size range check in python-pptx is not modelled.
- JSON `null` values and values of unexpected types are not modelled. Examples: a string for `is_bold`, a non-list `text_blocks`, a `null` `font_size_pt` (which the source would treat like 0).
- `int(s, 16)` also accepts non-ASCII digits, which are not modelled. An underscore between digits or a `0x` prefix needs at least three characters, so no two-character slice can use either.
- `getpixel` out of range and `convert("RGB")` failures: the `try/except` in `get_edge_color` is not modelled. The crop is proved to be inside the image, so no read can fail for a valid RGB image.
- PIL's crop of a region box that sticks out of the page (padding with black) is not modelled. The picture records the unclamped rectangle.
- PNG encoding of the pictures and the slide layout chosen (`slide_layouts[6]`) are not modelled. A picture records its source: the whole page, or a crop rectangle.
- `pdf_width` and `pdf_height` are accepted by `AddSlide` and, as in the source, unused.
- Composer.PptxBuilder.AddTextBlocks: the text box is appended before its paragraphs are styled in the source. The model appends the finished text box. The resulting slide is the same.
- Composer.PptxBuilder.AddRegionPictures: an `add_picture` failure is a parameter (`failing`). The library's reasons for failing are not modelled.
