/** The page layout returned by the inference collaborator, as the slide
    builder receives it: a JSON object whose keys may be absent.  A key that
    is missing is `None`; the defaults the builder substitutes are applied by
    the builder, not here.  The colour type the page image and the slide
    share is declared here too. */
module Layout {

  datatype Option<+T> = None | Some(value: T)

  /** One 8-bit colour channel, as `RGBColor` and the page image hold it. */
  type Channel = x: int | 0 <= x < 256

  /** A colour: of a page pixel, a mask fill or a paragraph's text. */
  datatype RGB = RGB(r: Channel, g: Channel, b: Channel)

  /** A normalised bounding box `[ymin, xmin, ymax, xmax]` on the 0..1000
      grid (y before x).  Nothing guarantees the producer keeps the bounds
      ordered or inside the grid. */
  datatype NormBox = NormBox(ymin: int, xmin: int, ymax: int, xmax: int)

  datatype TextBlock = TextBlock(
    box2d: Option<seq<int>>,
    text: Option<string>,
    fontSizePt: Option<real>,
    fontColorHex: Option<string>,
    fontFamily: Option<string>,
    isBold: Option<bool>,
    isTitle: Option<bool>)   // accepted, never used when composing

  datatype ImageRegion = ImageRegion(box2d: Option<seq<int>>, description: Option<string>)

  datatype PageLayout = PageLayout(
    textBlocks: Option<seq<TextBlock>>,
    imageRegions: Option<seq<ImageRegion>>)

  /** `ymin, xmin, ymax, xmax = entry["box_2d"]`: a missing key raises
      `KeyError` and a list of any length but four raises `ValueError`;
      both are `None` here. */
  function UnpackBox(b: Option<seq<int>>): (r: Option<NormBox>)
    ensures r.Some? <==> b.Some? && |b.value| == 4
    ensures r.Some? ==> [r.value.ymin, r.value.xmin, r.value.ymax, r.value.xmax] == b.value
  {
    match b
    case Some(s) => if |s| == 4 then Some(NormBox(s[0], s[1], s[2], s[3])) else None
    case None => None
  }
}
