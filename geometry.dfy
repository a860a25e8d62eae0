/** Mapping normalised boxes to source-image pixels and to slide units.
    Every coordinate the builder computes is `int(<float product>)`; the
    model takes the exact rational value and truncates it toward zero, as
    Python's `int` does. */
module Geometry {
  import opened Layout

  /** The normalised grid is 1000 units on each axis. */
  const GRID: int := 1000
  /** Normalised units added on every side of a text box to get its mask. */
  const INFLATION: int := 5

  /** Python's `int(n / d)` for an exact quotient: truncation toward zero. */
  function TruncDiv(n: int, d: int): (q: int)
    requires d > 0
  {
    if n >= 0 then n / d else -((-n) / d)
  }

  /** Python's `int(x)` on a real: truncation toward zero. */
  function TruncReal(x: real): (q: int)
    ensures 0.0 <= x ==> 0 <= q && q as real <= x < q as real + 1.0
    ensures x < 0.0 ==> q <= 0 && q as real - 1.0 < x <= q as real
  {
    if x >= 0.0 then x.Floor else -((-x).Floor)
  }

  /** A rectangle in source-image pixels, right and bottom exclusive. */
  datatype PixelRect = PixelRect(left: int, top: int, right: int, bottom: int)
  {
    predicate IsEmpty() { right <= left || bottom <= top }

    /** Pixel (x, y) lies in the rectangle. */
    predicate Has(x: int, y: int) { left <= x < right && top <= y < bottom }
  }

  /** A placement on the slide in EMU: origin and extent. */
  datatype Frame = Frame(left: int, top: int, width: int, height: int)

  /** `int((coord / 1000.0) * dim)` for one coordinate. */
  function ToPixel(coord: int, dim: nat): int {
    TruncDiv(coord * dim, GRID)
  }

  /** The unclamped pixel rectangle of a box in a `w` x `h` image. */
  function PixelBox(b: NormBox, w: nat, h: nat): PixelRect {
    PixelRect(ToPixel(b.xmin, w), ToPixel(b.ymin, h), ToPixel(b.xmax, w), ToPixel(b.ymax, h))
  }

  /** The edge sampler's clamp: lower bounds raised to 0, upper bounds
      lowered to the image size.  A lower bound past the image edge is NOT
      lowered, so the result is then empty. */
  function Clamp(r: PixelRect, w: nat, h: nat): (c: PixelRect)
    ensures 0 <= c.left && 0 <= c.top && c.right <= w && c.bottom <= h
    ensures !c.IsEmpty() ==> 0 <= c.left < c.right <= w && 0 <= c.top < c.bottom <= h
    ensures r.left <= c.left && c.right <= r.right && r.top <= c.top && c.bottom <= r.bottom
    ensures (0 <= r.left && r.right <= w && 0 <= r.top && r.bottom <= h) ==> c == r
  {
    PixelRect(Max(0, r.left), Max(0, r.top), Min(w, r.right), Min(h, r.bottom))
  }

  /** The clamp keeps exactly the pixels of the rectangle that lie in the
      image: none is lost and none is added. */
  lemma ClampKeepsVisible(r: PixelRect, w: nat, h: nat, x: int, y: int)
    ensures Clamp(r, w, h).Has(x, y) <==> r.Has(x, y) && 0 <= x < w && 0 <= y < h
  {
  }

  /** The slide placement of a box: `int(xmin * scale_x)` for the origin and
      `int((xmax - xmin) * scale_x)` for the extent, with
      `scale_x = slide_width / 1000.0`.  Nothing is clamped. */
  function CanvasFrame(b: NormBox, slideWidth: int, slideHeight: int): Frame {
    Frame(TruncDiv(b.xmin * slideWidth, GRID), TruncDiv(b.ymin * slideHeight, GRID),
          TruncDiv((b.xmax - b.xmin) * slideWidth, GRID), TruncDiv((b.ymax - b.ymin) * slideHeight, GRID))
  }

  predicate InGrid(b: NormBox) {
    0 <= b.ymin <= b.ymax <= GRID && 0 <= b.xmin <= b.xmax <= GRID
  }

  predicate Contains(outer: NormBox, inner: NormBox) {
    outer.xmin <= inner.xmin && outer.ymin <= inner.ymin &&
    inner.xmax <= outer.xmax && inner.ymax <= outer.ymax
  }

  /** The mask box: every side pushed out by INFLATION units, lower bounds
      clamped with max(0, .) and upper bounds with min(1000, .), so each side
      is either the pushed side or the grid edge, whichever is inside.  It
      contains the original box exactly when the box does not stick out of
      the grid. */
  function Inflate(b: NormBox): (m: NormBox)
    ensures 0 <= m.ymin && 0 <= m.xmin && m.ymax <= GRID && m.xmax <= GRID
    ensures Contains(m, b) <==> 0 <= b.ymin && 0 <= b.xmin && b.ymax <= GRID && b.xmax <= GRID
    ensures InGrid(b) ==> InGrid(m)
    ensures b.ymin - INFLATION <= m.ymin && (m.ymin == 0 || m.ymin == b.ymin - INFLATION)
    ensures b.xmin - INFLATION <= m.xmin && (m.xmin == 0 || m.xmin == b.xmin - INFLATION)
    ensures m.ymax <= b.ymax + INFLATION && (m.ymax == GRID || m.ymax == b.ymax + INFLATION)
    ensures m.xmax <= b.xmax + INFLATION && (m.xmax == GRID || m.xmax == b.xmax + INFLATION)
  {
    NormBox(Max(0, b.ymin - INFLATION), Max(0, b.xmin - INFLATION),
            Min(GRID, b.ymax + INFLATION), Min(GRID, b.xmax + INFLATION))
  }

  function Max(a: int, b: int): int { if a < b then b else a }
  function Min(a: int, b: int): int { if a < b then a else b }

  /** q is n / d truncated toward zero: below n by less than one divisor
      when n is not negative, above it by less than one divisor otherwise. */
  predicate IsTruncation(q: int, n: int, d: int) {
    (0 <= n ==> 0 <= q && q * d <= n < q * d + d) &&
    (n < 0 ==> q <= 0 && q * d - d < n <= q * d)
  }

  /** The quotient TruncDiv gives is the one truncated toward zero. */
  lemma TruncDivBounds(n: int, d: int)
    requires d > 0
    ensures IsTruncation(TruncDiv(n, d), n, d)
  {
    var m := if n < 0 then -n else n;
    var p, r := m / d, m % d;
    assert m == p * d + r && 0 <= r < d;
    assert 0 <= p by {
      if p < 0 { MulMonotone(p, -1, d); }
    }
    if n < 0 {
      assert TruncDiv(n, d) * d == -(p * d);
    }
  }

  /** Each side of a box's pixel rectangle is `int(coord / 1000 * dim)`,
      i.e. coord * dim / 1000 truncated toward zero. */
  lemma PixelBoxTruncates(b: NormBox, w: nat, h: nat)
    ensures var r := PixelBox(b, w, h);
      IsTruncation(r.left, b.xmin * w, GRID) && IsTruncation(r.top, b.ymin * h, GRID) &&
      IsTruncation(r.right, b.xmax * w, GRID) && IsTruncation(r.bottom, b.ymax * h, GRID)
  {
    TruncDivBounds(b.xmin * w, GRID);
    TruncDivBounds(b.ymin * h, GRID);
    TruncDivBounds(b.xmax * w, GRID);
    TruncDivBounds(b.ymax * h, GRID);
  }

  /** A box's frame on the slide: the origin is coord * size / 1000 and the
      extent (max - min) * size / 1000, each truncated toward zero. */
  lemma CanvasFrameTruncates(b: NormBox, sw: int, sh: int)
    ensures var f := CanvasFrame(b, sw, sh);
      IsTruncation(f.left, b.xmin * sw, GRID) && IsTruncation(f.top, b.ymin * sh, GRID) &&
      IsTruncation(f.width, (b.xmax - b.xmin) * sw, GRID) && IsTruncation(f.height, (b.ymax - b.ymin) * sh, GRID)
  {
    TruncDivBounds(b.xmin * sw, GRID);
    TruncDivBounds(b.ymin * sh, GRID);
    TruncDivBounds((b.xmax - b.xmin) * sw, GRID);
    TruncDivBounds((b.ymax - b.ymin) * sh, GRID);
  }

  /** Truncating division is monotone in the numerator. */
  lemma TruncDivMonotone(m: int, n: int, d: int)
    requires d > 0 && m <= n
    ensures TruncDiv(m, d) <= TruncDiv(n, d)
  {
    if 0 <= m {
      DivMonotone(m, n, d);
    } else if n < 0 {
      DivMonotone(-n, -m, d);
    } else {
      DivMonotone(0, -m, d);
      DivMonotone(0, n, d);
    }
  }

  lemma DivMonotone(m: nat, n: nat, d: int)
    requires d > 0 && m <= n
    ensures m / d <= n / d
  {
    var q, p := m / d, n / d;
    assert q * d <= m && n < p * d + d;
    assert (p + 1) * d == p * d + d;
    MulCancel(q, p + 1, d);
  }

  lemma MulCancel(a: int, b: int, d: int)
    requires d > 0 && a * d < b * d
    ensures a < b
  {
    if b <= a {
      MulMonotone(b, a, d);
    }
  }

  lemma MulMonotone(a: int, b: int, d: nat)
    requires a <= b
    ensures a * d <= b * d
  {
    assert b * d - a * d == (b - a) * d;
  }

  /** Two non-negative truncations never add up to more than the truncation
      of the sum. */
  lemma TruncDivSuperadditive(m: nat, n: nat, d: int)
    requires d > 0
    ensures TruncDiv(m, d) + TruncDiv(n, d) <= TruncDiv(m + n, d)
  {
    var a, b, c := m / d, n / d, (m + n) / d;
    assert a * d <= m && b * d <= n && m + n < c * d + d;
    assert (a + b) * d == a * d + b * d && (c + 1) * d == c * d + d;
    MulCancel(a + b, c + 1, d);
  }

  /** ... and they fall short of it by at most one. */
  lemma TruncDivNearlyAdditive(m: nat, n: nat, d: int)
    requires d > 0
    ensures TruncDiv(m + n, d) <= TruncDiv(m, d) + TruncDiv(n, d) + 1
  {
    var a, b, c := m / d, n / d, (m + n) / d;
    assert m < a * d + d && n < b * d + d && c * d <= m + n;
    assert (a + b + 2) * d == (a * d + d) + (b * d + d);
    MulCancel(c, a + b + 2, d);
  }

  /** For a box inside the grid, the pixel rectangle lies inside the image
      and keeps its orientation. */
  lemma PixelBoxWithinImage(b: NormBox, w: nat, h: nat)
    requires InGrid(b)
    ensures var r := PixelBox(b, w, h);
      0 <= r.left <= r.right <= w && 0 <= r.top <= r.bottom <= h
  {
    PixelSpanWithin(b.xmin, b.xmax, w);
    PixelSpanWithin(b.ymin, b.ymax, h);
  }

  /** One axis of PixelBoxWithinImage. */
  lemma PixelSpanWithin(lo: int, hi: int, dim: nat)
    requires 0 <= lo <= hi <= GRID
    ensures 0 <= ToPixel(lo, dim) <= ToPixel(hi, dim) <= dim
  {
    assert 0 <= lo * dim by { MulMonotone(0, lo, dim); }
    assert lo * dim <= hi * dim by { MulMonotone(lo, hi, dim); }
    assert hi * dim <= GRID * dim by { MulMonotone(hi, GRID, dim); }
    TruncDivMonotone(lo * dim, hi * dim, GRID);
    TruncDivMonotone(hi * dim, GRID * dim, GRID);
    assert TruncDiv(GRID * dim, GRID) == dim;
  }

  /** For a box inside the grid on a slide of non-negative size, the frame
      has a non-negative extent and does not reach past the slide's edge. */
  lemma CanvasFrameWithinSlide(b: NormBox, sw: nat, sh: nat)
    requires InGrid(b)
    ensures var f := CanvasFrame(b, sw, sh);
      0 <= f.left && 0 <= f.width && f.left + f.width <= sw &&
      0 <= f.top && 0 <= f.height && f.top + f.height <= sh
  {
    SpanWithin(b.xmin, b.xmax, sw);
    SpanWithin(b.ymin, b.ymax, sh);
  }

  /** One axis of CanvasFrameWithinSlide. */
  lemma SpanWithin(lo: int, hi: int, s: nat)
    requires 0 <= lo <= hi <= GRID
    ensures 0 <= TruncDiv(lo * s, GRID) && 0 <= TruncDiv((hi - lo) * s, GRID)
    ensures TruncDiv(lo * s, GRID) + TruncDiv((hi - lo) * s, GRID) <= s
  {
    var a, w := lo * s, (hi - lo) * s;
    assert 0 <= a by { MulMonotone(0, lo, s); }
    assert 0 <= w by { MulMonotone(0, hi - lo, s); }
    assert a + w == hi * s;
    assert hi * s <= GRID * s by { MulMonotone(hi, GRID, s); }
    TruncDivSuperadditive(a, w, GRID);
    TruncDivMonotone(a + w, GRID * s, GRID);
    assert TruncDiv(GRID * s, GRID) == s;
  }

  /** An inverted box (max below min) gets a non-positive extent, negative
      as soon as the span covers at least one whole unit. */
  lemma InvertedBoxExtent(b: NormBox, sw: nat, sh: nat)
    requires b.xmax < b.xmin
    ensures var f := CanvasFrame(b, sw, sh);
      f.width <= 0 && (GRID <= (b.xmin - b.xmax) * sw ==> f.width < 0)
  {
    MulMonotone(b.xmax - b.xmin, 0, sw);
    if GRID <= (b.xmin - b.xmax) * sw {
      assert (b.xmax - b.xmin) * sw == -((b.xmin - b.xmax) * sw);
    }
  }
}
