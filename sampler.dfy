/** The background sampler's specification: which pixels of a crop the
    edge sampler reads, in which order, and which colour it then returns. */
module Sampler {
  import opened Layout
  import opened Geometry

  const WHITE: RGB := RGB(255, 255, 255)

  /** How many rows (and columns) of the crop's border are sampled. */
  const DEPTH: nat := 2

  /** A page image after conversion to RGB: `rows[y][x]` is the pixel at
      column x of row y. */
  datatype Image = Image(width: nat, height: nat, rows: seq<seq<RGB>>)
  {
    ghost predicate Valid() {
      |rows| == height && forall y :: 0 <= y < height ==> |rows[y]| == width
    }

    function At(x: int, y: int): RGB
      requires Valid() && 0 <= x < width && 0 <= y < height
    {
      rows[y][x]
    }
  }

  /** A sampled position, relative to the crop's top-left corner. */
  datatype Point = Point(x: int, y: int)

  /** The positions read by the inner loop over columns for border row `y`:
      for each x below n, first (x, y) then (x, ch - 1 - y). */
  function RowPairs(ch: nat, y: nat, n: nat): seq<Point> {
    if n == 0 then [] else RowPairs(ch, y, n - 1) + [Point(n - 1, y), Point(n - 1, ch - 1 - y)]
  }

  /** The positions read by the top-and-bottom loop for the first k rows. */
  function TopBottom(cw: nat, ch: nat, k: nat): seq<Point> {
    if k == 0 then [] else TopBottom(cw, ch, k - 1) + RowPairs(ch, k - 1, cw)
  }

  /** The positions read by the inner loop over rows for border column `x`:
      for each y below n, first (x, y) then (cw - 1 - x, y). */
  function ColPairs(cw: nat, x: nat, n: nat): seq<Point> {
    if n == 0 then [] else ColPairs(cw, x, n - 1) + [Point(x, n - 1), Point(cw - 1 - x, n - 1)]
  }

  /** The positions read by the left-and-right loop for the first k columns. */
  function LeftRight(cw: nat, ch: nat, k: nat): seq<Point> {
    if k == 0 then [] else LeftRight(cw, ch, k - 1) + ColPairs(cw, k - 1, ch)
  }

  /** Every position the edge sampler reads in a `cw` x `ch` crop, in order. */
  function SamplePoints(cw: nat, ch: nat): seq<Point> {
    TopBottom(cw, ch, Min(DEPTH, ch)) + LeftRight(cw, ch, Min(DEPTH, cw))
  }

  predicate InCrop(p: Point, cw: int, ch: int) {
    0 <= p.x < cw && 0 <= p.y < ch
  }

  predicate AllInCrop(ps: seq<Point>, cw: int, ch: int) {
    forall i :: 0 <= i < |ps| ==> InCrop(ps[i], cw, ch)
  }

  /** A crop rectangle that lies inside the image. */
  predicate CropInImage(img: Image, r: PixelRect) {
    0 <= r.left <= r.right <= img.width && 0 <= r.top <= r.bottom <= img.height
  }

  /** The pixel at a crop-relative position.  Every position the sampler
      reads lies inside the crop (SamplePointsInCrop), so the white for an
      outside position is never produced. */
  function PixelAt(img: Image, r: PixelRect, p: Point): RGB
    requires img.Valid() && CropInImage(img, r)
  {
    if InCrop(p, r.right - r.left, r.bottom - r.top) then img.At(r.left + p.x, r.top + p.y) else WHITE
  }

  /** The pixels at crop-relative positions, in the same order. */
  function Pixels(img: Image, r: PixelRect, ps: seq<Point>): (s: seq<RGB>)
    requires img.Valid() && CropInImage(img, r)
    ensures |s| == |ps|
  {
    seq(|ps|, i requires 0 <= i < |ps| => PixelAt(img, r, ps[i]))
  }

  function Count(s: seq<RGB>, c: RGB): nat {
    multiset(s)[c]
  }

  /** The scan `max(counter.items(), key=count)` performs over the distinct
      colours in order of first appearance: `best` is the winner among the
      first `i` samples; a later colour replaces it only with a strictly
      larger count. */
  function BestFrom(s: seq<RGB>, i: nat, best: nat): (k: nat)
    requires best < i <= |s|
    requires forall j :: 0 <= j < i ==> Count(s, s[j]) <= Count(s, s[best])
    requires forall j :: 0 <= j < best ==> Count(s, s[j]) < Count(s, s[best])
    ensures k < |s|
    ensures forall j :: 0 <= j < |s| ==> Count(s, s[j]) <= Count(s, s[k])
    ensures forall j :: 0 <= j < k ==> Count(s, s[j]) < Count(s, s[k])
    decreases |s| - i
  {
    if i == |s| then best
    else if Count(s, s[best]) < Count(s, s[i]) then BestFrom(s, i + 1, i)
    else BestFrom(s, i + 1, best)
  }

  /** The index whose colour `Counter(s).most_common(1)` returns: its count
      is maximal, and every earlier sample has a strictly smaller count, so
      among colours tied for the maximum the one that appears first wins. */
  function MostCommonIndex(s: seq<RGB>): (k: nat)
    requires |s| > 0
    ensures k < |s|
    ensures forall j :: 0 <= j < |s| ==> Count(s, s[j]) <= Count(s, s[k])
    ensures forall j :: 0 <= j < k ==> Count(s, s[j]) < Count(s, s[k])
  {
    BestFrom(s, 1, 0)
  }

  /** The sampled border pixels of a non-empty, in-image crop. */
  function BorderPixels(img: Image, r: PixelRect): (s: seq<RGB>)
    requires img.Valid() && CropInImage(img, r)
  {
    Pixels(img, r, SamplePoints(r.right - r.left, r.bottom - r.top))
  }

  /** The crop the edge sampler reads for a normalised box. */
  function EdgeCrop(img: Image, b: NormBox): PixelRect {
    Clamp(PixelBox(b, img.width, img.height), img.width, img.height)
  }

  /** The colour `get_edge_color` returns: white for an empty crop,
      otherwise the most common sampled border pixel (white if there were no
      samples). */
  function EdgeColor(img: Image, b: NormBox): RGB
    requires img.Valid()
  {
    var r := EdgeCrop(img, b);
    if r.IsEmpty() then WHITE
    else
      var s := BorderPixels(img, r);
      if s == [] then WHITE else s[MostCommonIndex(s)]
  }

  // ---------------------------------------------------------------------
  // Properties of the sample positions

  lemma {:induction false} RowPairsFacts(cw: nat, ch: nat, y: nat, n: nat)
    requires y < ch && n <= cw
    ensures |RowPairs(ch, y, n)| == 2 * n
    ensures AllInCrop(RowPairs(ch, y, n), cw, ch)
  {
    if n > 0 {
      RowPairsFacts(cw, ch, y, n - 1);
    }
  }

  lemma {:induction false} ColPairsFacts(cw: nat, ch: nat, x: nat, n: nat)
    requires x < cw && n <= ch
    ensures |ColPairs(cw, x, n)| == 2 * n
    ensures AllInCrop(ColPairs(cw, x, n), cw, ch)
  {
    if n > 0 {
      ColPairsFacts(cw, ch, x, n - 1);
    }
  }

  lemma {:induction false} TopBottomFacts(cw: nat, ch: nat, k: nat)
    requires k <= ch
    ensures |TopBottom(cw, ch, k)| == 2 * k * cw
    ensures AllInCrop(TopBottom(cw, ch, k), cw, ch)
  {
    if k > 0 {
      TopBottomFacts(cw, ch, k - 1);
      RowPairsFacts(cw, ch, k - 1, cw);
      assert 2 * k * cw == 2 * (k - 1) * cw + 2 * cw;
    }
  }

  lemma {:induction false} LeftRightFacts(cw: nat, ch: nat, k: nat)
    requires k <= cw
    ensures |LeftRight(cw, ch, k)| == 2 * k * ch
    ensures AllInCrop(LeftRight(cw, ch, k), cw, ch)
  {
    if k > 0 {
      LeftRightFacts(cw, ch, k - 1);
      ColPairsFacts(cw, ch, k - 1, ch);
      assert 2 * k * ch == 2 * (k - 1) * ch + 2 * ch;
    }
  }

  /** Every sampled position lies inside the crop, and there are exactly
      2*min(2,ch)*cw + 2*min(2,cw)*ch of them. */
  lemma SamplePointsInCrop(cw: nat, ch: nat)
    ensures AllInCrop(SamplePoints(cw, ch), cw, ch)
    ensures |SamplePoints(cw, ch)| == 2 * Min(DEPTH, ch) * cw + 2 * Min(DEPTH, cw) * ch
  {
    TopBottomFacts(cw, ch, Min(DEPTH, ch));
    LeftRightFacts(cw, ch, Min(DEPTH, cw));
  }

  lemma InConcat(a: seq<Point>, b: seq<Point>, p: Point)
    ensures p in a + b <==> p in a || p in b
  {
  }

  lemma {:induction false} RowPairsMember(ch: nat, y: nat, n: nat, p: Point)
    ensures p in RowPairs(ch, y, n) <==> 0 <= p.x < n && (p.y == y || p.y == ch - 1 - y)
  {
    if n > 0 {
      RowPairsMember(ch, y, n - 1, p);
    }
  }

  lemma {:induction false} TopBottomMember(cw: nat, ch: nat, k: nat, p: Point)
    requires k <= ch
    ensures p in TopBottom(cw, ch, k) <==> 0 <= p.x < cw && (0 <= p.y < k || ch - k <= p.y < ch)
  {
    if k > 0 {
      TopBottomMember(cw, ch, k - 1, p);
      RowPairsMember(ch, k - 1, cw, p);
      InConcat(TopBottom(cw, ch, k - 1), RowPairs(ch, k - 1, cw), p);
    }
  }

  lemma {:induction false} ColPairsMember(cw: nat, x: nat, n: nat, p: Point)
    ensures p in ColPairs(cw, x, n) <==> 0 <= p.y < n && (p.x == x || p.x == cw - 1 - x)
  {
    if n > 0 {
      ColPairsMember(cw, x, n - 1, p);
    }
  }

  lemma {:induction false} LeftRightMember(cw: nat, ch: nat, k: nat, p: Point)
    requires k <= cw
    ensures p in LeftRight(cw, ch, k) <==> 0 <= p.y < ch && (0 <= p.x < k || cw - k <= p.x < cw)
  {
    if k > 0 {
      LeftRightMember(cw, ch, k - 1, p);
      ColPairsMember(cw, k - 1, ch, p);
      InConcat(LeftRight(cw, ch, k - 1), ColPairs(cw, k - 1, ch), p);
    }
  }

  /** The sampler reads exactly the crop's border band, DEPTH pixels deep
      on each side (the whole crop when it is thinner): a position is read
      iff it lies in the crop and within DEPTH of one of its edges, so the
      interior, where the glyphs are, is never sampled. */
  lemma SamplePointsBand(cw: nat, ch: nat, p: Point)
    ensures p in SamplePoints(cw, ch) <==>
      InCrop(p, cw, ch) &&
      (p.y < Min(DEPTH, ch) || ch - Min(DEPTH, ch) <= p.y || p.x < Min(DEPTH, cw) || cw - Min(DEPTH, cw) <= p.x)
  {
    TopBottomMember(cw, ch, Min(DEPTH, ch), p);
    LeftRightMember(cw, ch, Min(DEPTH, cw), p);
  }

  /** A non-empty crop always yields samples, so the "no pixels" fallback
      is never taken there. */
  lemma SamplesNonEmpty(cw: nat, ch: nat)
    requires 0 < cw && 0 < ch
    ensures |SamplePoints(cw, ch)| >= 2 * cw + 2 * ch > 0
  {
    SamplePointsInCrop(cw, ch);
    MulMonotone(1, Min(DEPTH, ch), cw);
    MulMonotone(1, Min(DEPTH, cw), ch);
  }

  /** Reading two more positions appends their two pixels. */
  lemma PixelsPair(img: Image, r: PixelRect, a: seq<Point>, p: Point, q: Point)
    requires img.Valid() && CropInImage(img, r)
    ensures Pixels(img, r, a + [p, q]) == Pixels(img, r, a) + [PixelAt(img, r, p)] + [PixelAt(img, r, q)]
  {
  }

  /** The i-th sampled pixel is the image pixel at the i-th sampled
      position, shifted by the crop's origin: the sampler never reads
      outside the crop. */
  lemma BorderPixelsRead(img: Image, r: PixelRect)
    requires img.Valid() && CropInImage(img, r)
    ensures var ps, s := SamplePoints(r.right - r.left, r.bottom - r.top), BorderPixels(img, r);
      |s| == |ps| &&
      forall i :: 0 <= i < |ps| ==>
        InCrop(ps[i], r.right - r.left, r.bottom - r.top) && s[i] == img.At(r.left + ps[i].x, r.top + ps[i].y)
  {
    var ps := SamplePoints(r.right - r.left, r.bottom - r.top);
    forall i | 0 <= i < |ps|
      ensures InCrop(ps[i], r.right - r.left, r.bottom - r.top)
      ensures BorderPixels(img, r)[i] == img.At(r.left + ps[i].x, r.top + ps[i].y)
    {
      BorderPixelRead(img, r, i);
    }
  }

  /** One sample of BorderPixelsRead. */
  lemma BorderPixelRead(img: Image, r: PixelRect, i: nat)
    requires img.Valid() && CropInImage(img, r)
    requires i < |SamplePoints(r.right - r.left, r.bottom - r.top)|
    ensures var p := SamplePoints(r.right - r.left, r.bottom - r.top)[i];
      InCrop(p, r.right - r.left, r.bottom - r.top) && BorderPixels(img, r)[i] == img.At(r.left + p.x, r.top + p.y)
  {
    SamplePointsInCrop(r.right - r.left, r.bottom - r.top);
  }

  // ---------------------------------------------------------------------
  // Properties of the sampled colour

  /** An empty clamped crop gives white. */
  lemma EmptyCropIsWhite(img: Image, b: NormBox)
    requires img.Valid()
    requires EdgeCrop(img, b).IsEmpty()
    ensures EdgeColor(img, b) == WHITE
  {
  }

  /** For a non-empty crop, the crop lies inside the image and the returned
      colour is a sampled border pixel whose count is maximal among the
      samples; in a tie, it appears no later than any other colour with the
      maximal count. */
  lemma EdgeColorIsMode(img: Image, b: NormBox)
    requires img.Valid()
    requires !EdgeCrop(img, b).IsEmpty()
    ensures var r := EdgeCrop(img, b);
      0 <= r.left < r.right <= img.width && 0 <= r.top < r.bottom <= img.height
    ensures var s, c := BorderPixels(img, EdgeCrop(img, b)), EdgeColor(img, b);
      c in s &&
      (forall j :: 0 <= j < |s| ==> Count(s, s[j]) <= Count(s, c)) &&
      (forall j :: 0 <= j < |s| && Count(s, s[j]) == Count(s, c) ==> c in s[..j + 1])
  {
    var r := EdgeCrop(img, b);
    SamplesNonEmpty(r.right - r.left, r.bottom - r.top);
    var s := BorderPixels(img, r);
    var k := MostCommonIndex(s);
    assert EdgeColor(img, b) == s[k];
    forall j | 0 <= j < |s| && Count(s, s[j]) == Count(s, s[k])
      ensures s[k] in s[..j + 1]
    {
      assert k <= j;
      assert s[..j + 1][k] == s[k];
    }
  }

  predicate SolidImage(img: Image, c: RGB) {
    forall y :: 0 <= y < |img.rows| ==> forall x :: 0 <= x < |img.rows[y]| ==> img.rows[y][x] == c
  }

  /** An image of one solid colour yields exactly that colour for every box
      with a non-empty crop. */
  lemma SolidImageColor(img: Image, b: NormBox, c: RGB)
    requires img.Valid() && SolidImage(img, c)
    requires !EdgeCrop(img, b).IsEmpty()
    ensures EdgeColor(img, b) == c
  {
    var r := EdgeCrop(img, b);
    SamplesNonEmpty(r.right - r.left, r.bottom - r.top);
    var s := BorderPixels(img, r);
    var k := MostCommonIndex(s);
    BorderPixelRead(img, r, k);
  }
}
