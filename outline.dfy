/**
 * The sticker outline: the content box of a picture, cut out onto a canvas
 * that is t pixels larger on every side, with every empty canvas pixel
 * within Euclidean distance t of the content painted in the border colour.
 */
module Outline {
  import opened Raster
  import opened ContentBounds

  /**
   * n * n, built up from the sum of the first |n| odd numbers. SquareIsProduct
   * states that this is the product; keeping it recursive leaves the
   * distance comparisons below free of multiplication.
   */
  function Square(n: int): (s: nat)
    decreases if n < 0 then 1 - n else n
  {
    if n < 0 then Square(-n) else if n == 0 then 0 else Square(n - 1) + 2 * n - 1
  }

  /** Squared length of the offset (dx, dy). */
  function Dist2(dx: int, dy: int): nat {
    Square(dx) + Square(dy)
  }

  /**
   * Some content pixel lies within Euclidean distance t of position (ox, oy)
   * of the source picture. Over all positions this is the silhouette dilated
   * by a disc of radius t.
   */
  ghost predicate InStrokeBand(src: Image, ox: int, oy: int, t: nat) {
    exists sx, sy :: IsObject(src, sx, sy) && Dist2(sx - ox, sy - oy) <= Square(t)
  }

  function CanvasWidth(box: Box, t: nat): int {
    box.Width() + 2 * t
  }

  function CanvasHeight(box: Box, t: nat): int {
    box.Height() + 2 * t
  }

  /**
   * What the outline pass paints at canvas pixel (x, y), which shows source
   * pixel (x - t + minX, y - t + minY): the source pixel itself if it is
   * content, else the border colour at full opacity if content lies within
   * distance t, else nothing.
   */
  ghost function OutlinePixel(src: Image, box: Box, t: nat, border: Rgb, x: int, y: int): (p: Rgba)
    ensures p.a == 0 || p.a > VisibilityThreshold
  {
    var ox, oy := x - t + box.minX, y - t + box.minY;
    if IsObject(src, ox, oy) then PixelAt(src, ox, oy)
    else if InStrokeBand(src, ox, oy, t) then Rgba(border.r, border.g, border.b, 255)
    else Transparent
  }

  /** The canvas that the outline pass produces: OutlinePixel at every position. */
  ghost function OutlineCanvas(src: Image, box: Box, t: nat, border: Rgb): (out: Image)
    requires box.minX <= box.maxX && box.minY <= box.maxY
    ensures out.Valid() && out.width == CanvasWidth(box, t) && out.height == CanvasHeight(box, t)
    ensures forall x, y :: out.InBounds(x, y) ==> PixelAt(out, x, y) == OutlinePixel(src, box, t, border, x, y)
  {
    var w, h, f := CanvasWidth(box, t), CanvasHeight(box, t), (x, y) => OutlinePixel(src, box, t, border, x, y);
    PicturePixels(w, h, f);
    Picture(w, h, f)
  }

  /** Square is the product n * n. */
  lemma {:induction false} SquareIsProduct(n: int)
    ensures Square(n) == n * n
    decreases if n < 0 then 1 - n else n
  {
    if n < 0 {
      SquareIsProduct(-n);
      assert (-n) * (-n) == n * n;
    } else if n > 0 {
      SquareIsProduct(n - 1);
      assert (n - 1) * (n - 1) == n * n - 2 * n + 1;
    }
  }

  /** Square grows strictly on the naturals. */
  lemma {:induction false} SquareIncreasing(a: nat, b: nat)
    requires a < b
    ensures Square(a) < Square(b)
    decreases b
  {
    if a < b - 1 {
      SquareIncreasing(a, b - 1);
    }
  }

  /** A square no larger than Square(t) has a root between -t and t. */
  lemma SquareBound(d: int, t: int)
    requires t >= 0 && Square(d) <= Square(t)
    ensures -t <= d <= t
  {
    if d > t {
      SquareIncreasing(t, d);
    } else if d < -t {
      SquareIncreasing(t, -d);
    }
  }

  /** A pixel within distance t of (ox, oy) lies in the (2t+1)-square centred on it. */
  lemma DiscInSquare(ox: int, oy: int, t: nat, sx: int, sy: int)
    requires Dist2(sx - ox, sy - oy) <= Square(t)
    ensures ox - t <= sx <= ox + t && oy - t <= sy <= oy + t
  {
    SquareBound(sx - ox, t);
    SquareBound(sy - oy, t);
  }

  /**
   * A position of the band has a content pixel in the (2t+1)-square around
   * it, so searching that square finds the band.
   */
  lemma NearContent(src: Image, ox: int, oy: int, t: nat) returns (sx: int, sy: int)
    requires InStrokeBand(src, ox, oy, t)
    ensures IsObject(src, sx, sy) && ox - t <= sx <= ox + t && oy - t <= sy <= oy + t
  {
    sx, sy :| IsObject(src, sx, sy) && Dist2(sx - ox, sy - oy) <= Square(t);
    DiscInSquare(ox, oy, t, sx, sy);
  }

  /**
   * The search for a stroke at source position (ox, oy): offsets (dx, dy) of
   * the (2t+1)-square, row by row, stopping at the first one inside the disc
   * that lands on a content pixel.
   */
  method SearchStroke(src: Image, ox: int, oy: int, t: nat) returns (hasStroke: bool)
    requires src.Valid()
    ensures hasStroke == InStrokeBand(src, ox, oy, t)
  {
    var r: int := t;
    hasStroke := false;
    var dy := -r;
    while dy <= r && !hasStroke
      invariant -r <= dy <= r + 1
      invariant hasStroke ==> InStrokeBand(src, ox, oy, t)
      invariant !hasStroke ==> forall sx, sy ::
                  oy - r <= sy < oy + dy && ox - r <= sx <= ox + r && IsObject(src, sx, sy) ==>
                    Dist2(sx - ox, sy - oy) > Square(t)
    {
      var dx := -r;
      while dx <= r && !hasStroke
        invariant -r <= dx <= r + 1
        invariant hasStroke ==> InStrokeBand(src, ox, oy, t)
        invariant !hasStroke ==> forall sx, sy ::
                    ((oy - r <= sy < oy + dy && ox - r <= sx <= ox + r) ||
                     (sy == oy + dy && ox - r <= sx < ox + dx)) && IsObject(src, sx, sy) ==>
                      Dist2(sx - ox, sy - oy) > Square(t)
      {
        if Dist2(dx, dy) <= Square(r) {
          var checkX, checkY := ox + dx, oy + dy;
          if 0 <= checkX < src.width && 0 <= checkY < src.height {
            OffsetInRange(src.width, src.height, checkX, checkY);
            if src.data[Offset(src.width, checkX, checkY) + 3] > VisibilityThreshold {
              assert IsObject(src, checkX, checkY);
              hasStroke := true;
            }
          }
        }
        dx := dx + 1;
      }
      dy := dy + 1;
    }
    if !hasStroke {
      forall sx, sy | IsObject(src, sx, sy) ensures Dist2(sx - ox, sy - oy) > Square(t) {
        if Dist2(sx - ox, sy - oy) <= Square(t) {
          DiscInSquare(ox, oy, t, sx, sy);
        }
      }
    }
  }

  /** Writes the four channels of p at byte i of the buffer. */
  method PutPixel(buf: array<byte>, i: int, p: Rgba)
    requires 0 <= i && i + 4 <= buf.Length
    modifies buf
    ensures buf[..] == old(buf[..])[i := p.r][i + 1 := p.g][i + 2 := p.b][i + 3 := p.a]
  {
    buf[i] := p.r;
    buf[i + 1] := p.g;
    buf[i + 2] := p.b;
    buf[i + 3] := p.a;
  }

  /**
   * One canvas pixel of the outline pass: object if the source pixel it shows
   * is content, else stroke if the search finds content nearby, else empty.
   */
  method ClassifyPixel(src: Image, box: Box, t: nat, border: Rgb, x: int, y: int) returns (pixel: Rgba)
    requires src.Valid()
    ensures pixel == OutlinePixel(src, box, t, border, x, y)
  {
    var origX, origY := x - t + box.minX, y - t + box.minY;
    var hasObject, hasStroke := false, false;
    if 0 <= origX < src.width && 0 <= origY < src.height {
      OffsetInRange(src.width, src.height, origX, origY);
      if src.data[Offset(src.width, origX, origY) + 3] > VisibilityThreshold {
        hasObject := true;
      }
    }
    if !hasObject {
      hasStroke := SearchStroke(src, origX, origY, t);
    }
    if hasObject {
      var origIndex := Offset(src.width, origX, origY);
      pixel := Rgba(src.data[origIndex], src.data[origIndex + 1], src.data[origIndex + 2], src.data[origIndex + 3]);
    } else if hasStroke {
      pixel := Rgba(border.r, border.g, border.b, 255);
    } else {
      pixel := Transparent;
    }
  }

  /** Rows 0 to y - 1 fill the first Offset(w, 0, y) bytes of a w-by-h buffer. */
  lemma RowStartInRange(w: nat, h: nat, y: int)
    requires 0 <= y <= h
    ensures 0 <= Offset(w, 0, y) <= Mul(w, h) * 4
    ensures y == h ==> Offset(w, 0, y) == Mul(w, h) * 4
  {
    MulIsProduct(y, w);
    MulIsProduct(w, h);
    MulAtLeast(1, 0);
    assert y * w <= h * w by {
      if y < h {
        assert (h - y) * w >= 0;
        assert h * w - y * w == (h - y) * w;
      }
    }
  }

  /** The pixel after the last of row y is the first of row y + 1. */
  lemma NextRow(w: int, y: int)
    requires y >= 0
    ensures Offset(w, w, y) == Offset(w, 0, y + 1)
  {
    MulIsProduct(y, w);
    MulIsProduct(y + 1, w);
    assert y * w + w == (y + 1) * w;
  }

  /** The first n bytes of cur are those of target, which has the same length. */
  ghost predicate AgreesUpTo(cur: seq<byte>, target: seq<byte>, n: int) {
    |cur| == |target| && forall j :: 0 <= j < n && j < |cur| ==> cur[j] == target[j]
  }

  /** Writing target's next four bytes right after an agreeing prefix extends it by four. */
  lemma AgreesStep(cur: seq<byte>, target: seq<byte>, i: int, p: Rgba)
    requires AgreesUpTo(cur, target, i) && 0 <= i && i + 4 <= |cur|
    requires target[i] == p.r && target[i + 1] == p.g && target[i + 2] == p.b && target[i + 3] == p.a
    ensures AgreesUpTo(cur[i := p.r][i + 1 := p.g][i + 2 := p.b][i + 3 := p.a], target, i + 4)
  {
  }

  /** Bytes i to i + 3 of d are the channels of p. */
  predicate HoldsPixel(d: seq<byte>, i: int, p: Rgba) {
    0 <= i && i + 4 <= |d| && d[i] == p.r && d[i + 1] == p.g && d[i + 2] == p.b && d[i + 3] == p.a
  }

  /** target is the byte buffer of the outline canvas: OutlinePixel at every pixel's offset. */
  ghost predicate IsOutlineBytes(target: seq<byte>, src: Image, box: Box, t: nat, border: Rgb) {
    && |target| == Mul(CanvasWidth(box, t), CanvasHeight(box, t)) * 4
    && forall x, y :: 0 <= x < CanvasWidth(box, t) && 0 <= y < CanvasHeight(box, t) ==>
         HoldsPixel(target, Offset(CanvasWidth(box, t), x, y), OutlinePixel(src, box, t, border, x, y))
  }

  /** The outline canvas's buffer is such a buffer. */
  lemma OutlineBytes(src: Image, box: Box, t: nat, border: Rgb) returns (target: seq<byte>)
    requires box.minX <= box.maxX && box.minY <= box.maxY
    ensures IsOutlineBytes(target, src, box, t, border)
  {
    var canvas := OutlineCanvas(src, box, t, border);
    target := canvas.data;
    forall x, y | 0 <= x < CanvasWidth(box, t) && 0 <= y < CanvasHeight(box, t)
      ensures HoldsPixel(target, Offset(CanvasWidth(box, t), x, y), OutlinePixel(src, box, t, border, x, y))
    {
      assert PixelAt(canvas, x, y) == OutlinePixel(src, box, t, border, x, y);
    }
  }

  /** Read back as a picture, such a buffer shows OutlinePixel at every pixel. */
  lemma OutlineBytesPixels(target: seq<byte>, src: Image, box: Box, t: nat, border: Rgb)
    requires box.minX <= box.maxX && box.minY <= box.maxY
    requires IsOutlineBytes(target, src, box, t, border)
    ensures var out := Image(CanvasWidth(box, t), CanvasHeight(box, t), target);
            out.Valid() && forall x, y :: out.InBounds(x, y) ==> PixelAt(out, x, y) == OutlinePixel(src, box, t, border, x, y)
  {
    var out := Image(CanvasWidth(box, t), CanvasHeight(box, t), target);
    forall x, y | out.InBounds(x, y) ensures PixelAt(out, x, y) == OutlinePixel(src, box, t, border, x, y) {
      assert HoldsPixel(target, Offset(CanvasWidth(box, t), x, y), OutlinePixel(src, box, t, border, x, y));
    }
  }

  /**
   * Row y of the outline pass: canvas pixels (0, y) to (w - 1, y), each
   * written with what ClassifyPixel finds for it.
   */
  method FillRow(stroke: array<byte>, src: Image, box: Box, t: nat, border: Rgb, y: int, ghost target: seq<byte>)
    requires src.Valid() && box.minX <= box.maxX && box.minY <= box.maxY
    requires 0 <= y < CanvasHeight(box, t)
    requires IsOutlineBytes(target, src, box, t, border)
    requires AgreesUpTo(stroke[..], target, Offset(CanvasWidth(box, t), 0, y))
    modifies stroke
    ensures AgreesUpTo(stroke[..], target, Offset(CanvasWidth(box, t), 0, y + 1))
    ensures forall j :: Offset(CanvasWidth(box, t), 0, y + 1) <= j < stroke.Length ==> stroke[j] == old(stroke[j])
  {
    var w := CanvasWidth(box, t);
    NextRow(w, y);
    var x := 0;
    while x < w
      invariant 0 <= x <= w
      invariant AgreesUpTo(stroke[..], target, Offset(w, x, y))
      invariant forall j :: Offset(w, x, y) <= j < stroke.Length ==> stroke[j] == old(stroke[j])
    {
      assert HoldsPixel(target, Offset(w, x, y), OutlinePixel(src, box, t, border, x, y));
      AgreesStep(stroke[..], target, Offset(w, x, y), OutlinePixel(src, box, t, border, x, y));
      FillPixel(stroke, src, box, t, border, x, y);
      x := x + 1;
    }
  }

  /** Canvas pixel (x, y): classified, then written as four bytes at its offset. */
  method FillPixel(stroke: array<byte>, src: Image, box: Box, t: nat, border: Rgb, x: int, y: int)
    requires src.Valid()
    requires 0 <= x < CanvasWidth(box, t) && 0 <= y < CanvasHeight(box, t)
    requires stroke.Length == Mul(CanvasWidth(box, t), CanvasHeight(box, t)) * 4
    modifies stroke
    ensures 0 <= Offset(CanvasWidth(box, t), x, y) && Offset(CanvasWidth(box, t), x, y) + 4 <= stroke.Length
    ensures var i, p := Offset(CanvasWidth(box, t), x, y), OutlinePixel(src, box, t, border, x, y);
            stroke[..] == old(stroke[..])[i := p.r][i + 1 := p.g][i + 2 := p.b][i + 3 := p.a]
  {
    OffsetInRange(CanvasWidth(box, t), CanvasHeight(box, t), x, y);
    var destIndex := Offset(CanvasWidth(box, t), x, y);
    var pixel := ClassifyPixel(src, box, t, border, x, y);
    PutPixel(stroke, destIndex, pixel);
  }

  /**
   * The outline pass: a fresh transparent canvas, filled pixel by pixel, row
   * by row, with what OutlinePixel prescribes.
   */
  method DrawOutline(src: Image, box: Box, t: nat, border: Rgb) returns (out: Image)
    requires src.Valid() && box.minX <= box.maxX && box.minY <= box.maxY
    ensures out.Valid()
    ensures out.width == CanvasWidth(box, t) && out.height == CanvasHeight(box, t)
    ensures forall x, y :: out.InBounds(x, y) ==> PixelAt(out, x, y) == OutlinePixel(src, box, t, border, x, y)
  {
    var w, h := CanvasWidth(box, t), CanvasHeight(box, t);
    var stroke := new byte[Mul(w, h) * 4](_ => 0);
    ghost var target := OutlineBytes(src, box, t, border);
    FillCanvas(stroke, src, box, t, border, target);
    out := Image(w, h, stroke[..]);
    OutlineBytesPixels(target, src, box, t, border);
  }

  /** The rows of the outline pass, top to bottom. */
  method FillCanvas(stroke: array<byte>, src: Image, box: Box, t: nat, border: Rgb, ghost target: seq<byte>)
    requires src.Valid() && box.minX <= box.maxX && box.minY <= box.maxY
    requires IsOutlineBytes(target, src, box, t, border) && stroke.Length == |target|
    modifies stroke
    ensures stroke[..] == target
  {
    var w, h := CanvasWidth(box, t), CanvasHeight(box, t);
    var y := 0;
    while y < h
      invariant 0 <= y <= h
      invariant AgreesUpTo(stroke[..], target, Offset(w, 0, y))
    {
      FillRow(stroke, src, box, t, border, y, target);
      y := y + 1;
    }
    RowStartInRange(w, h, h);
  }

  /** The canvas shows every content pixel of the source, unchanged, t pixels in from the box's corner. */
  lemma OutlineKeepsContent(src: Image, box: Box, t: nat, border: Rgb, sx: int, sy: int)
    requires IsContentBox(src, box) && IsObject(src, sx, sy)
    ensures var x, y := sx - box.minX + t, sy - box.minY + t;
            0 <= x < CanvasWidth(box, t) && 0 <= y < CanvasHeight(box, t) &&
            OutlinePixel(src, box, t, border, x, y) == PixelAt(src, sx, sy)
  {
    assert box.Contains(sx, sy);
  }

  /**
   * The canvas is large enough for the whole band: every position within
   * distance t of content lands inside it.
   */
  lemma BandFitsCanvas(src: Image, box: Box, t: nat, ox: int, oy: int)
    requires IsContentBox(src, box) && InStrokeBand(src, ox, oy, t)
    ensures 0 <= ox - box.minX + t < CanvasWidth(box, t)
    ensures 0 <= oy - box.minY + t < CanvasHeight(box, t)
  {
    var sx, sy := NearContent(src, ox, oy, t);
    assert box.Contains(sx, sy);
  }

  /** A content pixel lies in its own band, at distance 0. */
  lemma ContentIsInBand(src: Image, ox: int, oy: int, t: nat)
    requires IsObject(src, ox, oy)
    ensures InStrokeBand(src, ox, oy, t)
  {
    assert Dist2(ox - ox, oy - oy) == 0;
  }

  /** A painted canvas pixel shows a position of the band. */
  lemma PaintedIsInBand(src: Image, box: Box, t: nat, border: Rgb, x: int, y: int)
    ensures var ox, oy := x - t + box.minX, y - t + box.minY;
            OutlinePixel(src, box, t, border, x, y).a > 0 ==> InStrokeBand(src, ox, oy, t)
  {
    var ox, oy := x - t + box.minX, y - t + box.minY;
    if IsObject(src, ox, oy) {
      ContentIsInBand(src, ox, oy, t);
    } else if !InStrokeBand(src, ox, oy, t) {
      assert OutlinePixel(src, box, t, border, x, y) == Transparent;
    }
  }

  /**
   * A canvas pixel is painted (alpha above 0) exactly when the source position
   * it shows lies within distance t of content: the painted region is the
   * silhouette dilated by a disc of radius t.
   */
  lemma PaintedIffInBand(src: Image, box: Box, t: nat, border: Rgb, x: int, y: int)
    ensures OutlinePixel(src, box, t, border, x, y).a > 0 <==> InStrokeBand(src, x - t + box.minX, y - t + box.minY, t)
  {
    if OutlinePixel(src, box, t, border, x, y).a > 0 {
      PaintedIsInBand(src, box, t, border, x, y);
    }
  }

  /** With thickness 0 the band is the silhouette itself. */
  lemma ZeroBandIsSilhouette(src: Image, ox: int, oy: int)
    ensures InStrokeBand(src, ox, oy, 0) <==> IsObject(src, ox, oy)
  {
    if InStrokeBand(src, ox, oy, 0) {
      var sx, sy := NearContent(src, ox, oy, 0);
      assert sx == ox && sy == oy;
    }
    if IsObject(src, ox, oy) {
      ContentIsInBand(src, ox, oy, 0);
    }
  }

  /**
   * The plain crop used when the thickness is 0: the content box copied onto
   * a canvas of the box's size.
   */
  function Crop(src: Image, box: Box): (out: Image)
    requires box.Inside(src)
    ensures out.Valid() && out.width == box.Width() && out.height == box.Height()
  {
    Picture(box.Width(), box.Height(), CropSource(src, box))
  }

  /** Crop pixel (x, y) shows source pixel (minX + x, minY + y), where the source has one. */
  function CropSource(src: Image, box: Box): (int, int) -> Rgba {
    (x: int, y: int) =>
      if src.Valid() && src.InBounds(box.minX + x, box.minY + y) then PixelAt(src, box.minX + x, box.minY + y)
      else Transparent
  }

  /** The crop shows the content box of the source, pixel for pixel. */
  lemma CropPixel(src: Image, box: Box, x: int, y: int)
    requires box.Inside(src) && 0 <= x < box.Width() && 0 <= y < box.Height()
    ensures src.InBounds(box.minX + x, box.minY + y)
    ensures PixelAt(Crop(src, box), x, y) == PixelAt(src, box.minX + x, box.minY + y)
  {
    PicturePixels(box.Width(), box.Height(), CropSource(src, box));
  }

  /**
   * The crop and the outline pass at thickness 0 agree on every content
   * pixel; elsewhere the outline pass leaves the pixel transparent while the
   * crop keeps the source's faint pixel, whose alpha is at most 10.
   */
  lemma CropVersusZeroOutline(src: Image, box: Box, border: Rgb, x: int, y: int)
    requires IsContentBox(src, box)
    requires 0 <= x < box.Width() && 0 <= y < box.Height()
    ensures var sx, sy := box.minX + x, box.minY + y;
            if IsObject(src, sx, sy) then PixelAt(Crop(src, box), x, y) == OutlinePixel(src, box, 0, border, x, y)
            else OutlinePixel(src, box, 0, border, x, y) == Transparent &&
                 PixelAt(Crop(src, box), x, y).a <= VisibilityThreshold
  {
    CropPixel(src, box, x, y);
    ZeroOutlinePixel(src, box, border, x, y);
  }

  /** At thickness 0 the outline pass keeps the content pixels and clears all others. */
  lemma ZeroOutlinePixel(src: Image, box: Box, border: Rgb, x: int, y: int)
    ensures var sx, sy := box.minX + x, box.minY + y;
            OutlinePixel(src, box, 0, border, x, y) == if IsObject(src, sx, sy) then PixelAt(src, sx, sy) else Transparent
  {
    var ox, oy := x - 0 + box.minX, y - 0 + box.minY;
    if IsObject(src, ox, oy) {
      ShowsContent(src, box, 0, border, x, y);
    } else {
      ZeroBandIsSilhouette(src, ox, oy);
      ShowsNothing(src, box, 0, border, x, y);
    }
  }

  /** A canvas pixel over a content pixel shows it. */
  lemma ShowsContent(src: Image, box: Box, t: nat, border: Rgb, x: int, y: int)
    requires IsObject(src, x - t + box.minX, y - t + box.minY)
    ensures OutlinePixel(src, box, t, border, x, y) == PixelAt(src, x - t + box.minX, y - t + box.minY)
  {
  }

  /** A canvas pixel outside the band stays transparent. */
  lemma ShowsNothing(src: Image, box: Box, t: nat, border: Rgb, x: int, y: int)
    requires !IsObject(src, x - t + box.minX, y - t + box.minY)
    requires !InStrokeBand(src, x - t + box.minX, y - t + box.minY, t)
    ensures OutlinePixel(src, box, t, border, x, y) == Transparent
  {
  }
}
