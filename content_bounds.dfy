/**
 * The content bounding box: the smallest rectangle holding every pixel whose
 * alpha exceeds the visibility threshold, found in one row-by-row scan.
 */
module ContentBounds {
  import opened Raster

  /** Inclusive pixel bounds. */
  datatype Box = Box(minX: int, minY: int, maxX: int, maxY: int) {
    function Width(): int { maxX - minX + 1 }
    function Height(): int { maxY - minY + 1 }
    predicate Contains(x: int, y: int) { minX <= x <= maxX && minY <= y <= maxY }

    /** A non-empty box that lies inside the picture. */
    predicate Inside(img: Image) {
      img.Valid() && 0 <= minX <= maxX < img.width && 0 <= minY <= maxY < img.height
    }
  }

  /** Some pixel of the picture is content. */
  ghost predicate HasContent(img: Image) {
    exists x, y :: IsObject(img, x, y)
  }

  /**
   * The box lies inside the picture, holds every content pixel, and each of
   * its four edges passes through a content pixel.
   */
  ghost predicate IsContentBox(img: Image, box: Box) {
    && box.Inside(img)
    && (forall x, y :: IsObject(img, x, y) ==> box.Contains(x, y))
    && (exists y :: IsObject(img, box.minX, y))
    && (exists y :: IsObject(img, box.maxX, y))
    && (exists x :: IsObject(img, x, box.minY))
    && (exists x :: IsObject(img, x, box.maxY))
  }

  /** A picture has at most one content box. */
  lemma ContentBoxUnique(img: Image, a: Box, b: Box)
    requires IsContentBox(img, a) && IsContentBox(img, b)
    ensures a == b
  {
    ColumnEdgesAgree(img, a, b);
    ColumnEdgesAgree(img, b, a);
    RowEdgesAgree(img, a, b);
    RowEdgesAgree(img, b, a);
  }

  /** Each of a's left and right edges passes through content, which b holds. */
  lemma ColumnEdgesAgree(img: Image, a: Box, b: Box)
    requires IsContentBox(img, a) && IsContentBox(img, b)
    ensures b.minX <= a.minX && a.maxX <= b.maxX
  {
    var y0 :| IsObject(img, a.minX, y0);
    var y1 :| IsObject(img, a.maxX, y1);
    assert b.Contains(a.minX, y0) && b.Contains(a.maxX, y1);
  }

  /** Each of a's top and bottom edges passes through content, which b holds. */
  lemma RowEdgesAgree(img: Image, a: Box, b: Box)
    requires IsContentBox(img, a) && IsContentBox(img, b)
    ensures b.minY <= a.minY && a.maxY <= b.maxY
  {
    var x0 :| IsObject(img, x0, a.minY);
    var x1 :| IsObject(img, x1, a.maxY);
    assert b.Contains(x0, a.minY) && b.Contains(x1, a.maxY);
  }

  function Min(a: int, b: int): int { if a <= b then a else b }

  function Max(a: int, b: int): int { if a >= b then a else b }

  /** Pixel (sx, sy) comes before (x, y) in row-by-row order. */
  predicate ScannedBefore(sx: int, sy: int, x: int, y: int) {
    sy < y || (sy == y && sx < x)
  }

  /**
   * What the scan knows once every pixel before (x, y) in row order has been
   * read: without content the bounds still hold their starting values; with
   * content they lie inside the picture, each passes through a content pixel
   * (column yMinX of edge minX, and so on), and together they hold every
   * content pixel read so far.
   */
  ghost predicate Scanned(img: Image, box: Box, hasContent: bool,
                          yOfMinX: int, yOfMaxX: int, xOfMinY: int, xOfMaxY: int, x: int, y: int)
  {
    && img.Valid()
    && (!hasContent ==> box == Box(img.width, img.height, 0, 0))
    && (hasContent ==> box.Inside(img))
    && (hasContent ==> IsObject(img, box.minX, yOfMinX) && IsObject(img, box.maxX, yOfMaxX))
    && (hasContent ==> IsObject(img, xOfMinY, box.minY) && IsObject(img, xOfMaxY, box.maxY))
    && (forall sx, sy :: ScannedBefore(sx, sy, x, y) && IsObject(img, sx, sy) ==> hasContent && box.Contains(sx, sy))
  }

  /**
   * The scan of the picture. When there is no content the bounds keep their
   * starting values (width, height, 0, 0).
   */
  method FindContentBounds(img: Image) returns (box: Box, hasContent: bool)
    requires img.Valid()
    ensures hasContent <==> HasContent(img)
    ensures hasContent ==> IsContentBox(img, box)
    ensures !hasContent ==> box == Box(img.width, img.height, 0, 0)
  {
    box, hasContent := Box(img.width, img.height, 0, 0), false;
    // the content pixels on which each bound currently lies
    ghost var yOfMinX, yOfMaxX, xOfMinY, xOfMaxY := 0, 0, 0, 0;
    var y := 0;
    while y < img.height
      invariant 0 <= y <= img.height
      invariant Scanned(img, box, hasContent, yOfMinX, yOfMaxX, xOfMinY, xOfMaxY, 0, y)
    {
      box, hasContent, yOfMinX, yOfMaxX, xOfMinY, xOfMaxY :=
        ScanRow(img, y, box, hasContent, yOfMinX, yOfMaxX, xOfMinY, xOfMaxY);
      y := y + 1;
    }
    assert forall sx, sy :: IsObject(img, sx, sy) ==> ScannedBefore(sx, sy, 0, img.height);
  }

  /** Row y of the scan: pixels (0, y) to (width - 1, y), widening the bounds to each content pixel. */
  method ScanRow(img: Image, y: int, box0: Box, has0: bool,
                 ghost yOfMinX0: int, ghost yOfMaxX0: int, ghost xOfMinY0: int, ghost xOfMaxY0: int)
    returns (box: Box, hasContent: bool,
             ghost yOfMinX: int, ghost yOfMaxX: int, ghost xOfMinY: int, ghost xOfMaxY: int)
    requires 0 <= y < img.height
    requires Scanned(img, box0, has0, yOfMinX0, yOfMaxX0, xOfMinY0, xOfMaxY0, 0, y)
    ensures Scanned(img, box, hasContent, yOfMinX, yOfMaxX, xOfMinY, xOfMaxY, 0, y + 1)
  {
    var w := img.width;
    box, hasContent := box0, has0;
    yOfMinX, yOfMaxX, xOfMinY, xOfMaxY := yOfMinX0, yOfMaxX0, xOfMinY0, xOfMaxY0;
    var x := 0;
    while x < w
      invariant 0 <= x <= w
      invariant Scanned(img, box, hasContent, yOfMinX, yOfMaxX, xOfMinY, xOfMaxY, x, y)
    {
      box, hasContent, yOfMinX, yOfMaxX, xOfMinY, xOfMaxY :=
        ScanPixel(img, x, y, box, hasContent, yOfMinX, yOfMaxX, xOfMinY, xOfMaxY);
      x := x + 1;
    }
    assert forall sx, sy :: ScannedBefore(sx, sy, 0, y + 1) && IsObject(img, sx, sy) ==> ScannedBefore(sx, sy, w, y);
  }

  /**
   * Pixel (x, y) of the scan: if its alpha exceeds the threshold, the bounds
   * are widened to take it in (Math.min and Math.max) and content is noted.
   */
  method ScanPixel(img: Image, x: int, y: int, box0: Box, has0: bool,
                   ghost yOfMinX0: int, ghost yOfMaxX0: int, ghost xOfMinY0: int, ghost xOfMaxY0: int)
    returns (box: Box, hasContent: bool,
             ghost yOfMinX: int, ghost yOfMaxX: int, ghost xOfMinY: int, ghost xOfMaxY: int)
    requires img.InBounds(x, y)
    requires Scanned(img, box0, has0, yOfMinX0, yOfMaxX0, xOfMinY0, xOfMaxY0, x, y)
    ensures Scanned(img, box, hasContent, yOfMinX, yOfMaxX, xOfMinY, xOfMaxY, x + 1, y)
  {
    box, hasContent := box0, has0;
    yOfMinX, yOfMaxX, xOfMinY, xOfMaxY := yOfMinX0, yOfMaxX0, xOfMinY0, xOfMaxY0;
    OffsetInRange(img.width, img.height, x, y);
    var alpha := img.data[Offset(img.width, x, y) + 3];
    if alpha > VisibilityThreshold {
      assert IsObject(img, x, y);
      if x <= box.minX { yOfMinX := y; }
      if y <= box.minY { xOfMinY := x; }
      if x >= box.maxX { yOfMaxX := y; }
      if y >= box.maxY { xOfMaxY := x; }
      box := Box(Min(box.minX, x), Min(box.minY, y), Max(box.maxX, x), Max(box.maxY, y));
      hasContent := true;
    } else {
      assert !IsObject(img, x, y);
    }
    assert forall sx, sy :: ScannedBefore(sx, sy, x + 1, y) ==> ScannedBefore(sx, sy, x, y) || (sx == x && sy == y);
  }
}
