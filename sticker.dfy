/**
 * The sticker renderer end to end: find the content box, then either draw
 * the outlined sticker (border thickness above zero) or cut the content box
 * out unchanged (thickness zero); a picture without content is handed back
 * as it is.
 */
module Sticker {
  import opened Raster
  import opened ContentBounds
  import opened Outline
  import opened HexColor

  /**
   * `out` is the sticker of `src` for content box `box`: a canvas t pixels
   * larger than the box on every side, showing the outline when t > 0 and
   * exactly the box's pixels when t == 0.
   */
  ghost predicate IsSticker(src: Image, box: Box, border: Rgb, t: nat, out: Image)
    requires box.minX <= box.maxX && box.minY <= box.maxY
  {
    && out.Valid()
    && out.width == CanvasWidth(box, t) && out.height == CanvasHeight(box, t)
    && (t > 0 ==> forall x, y :: out.InBounds(x, y) ==> PixelAt(out, x, y) == OutlinePixel(src, box, t, border, x, y))
    && (t == 0 ==> box.Inside(src) && out == Crop(src, box))
  }

  /**
   * The render step for a decoded picture, border colour string and border
   * thickness t.
   */
  method GenerateSticker(src: Image, borderColor: string, t: nat) returns (out: Image)
    requires src.Valid()
    ensures !HasContent(src) ==> out == src
    ensures HasContent(src) ==> exists box :: IsContentBox(src, box)
    ensures forall box :: IsContentBox(src, box) ==> IsSticker(src, box, HexToRgb(borderColor), t, out)
  {
    var box, hasContent := FindContentBounds(src);
    if !hasContent {
      return src;
    }
    if t > 0 {
      out := DrawOutline(src, box, t, HexToRgb(borderColor));
    } else {
      out := Crop(src, box);
    }
    forall other | IsContentBox(src, other) ensures IsSticker(src, other, HexToRgb(borderColor), t, out) {
      ContentBoxUnique(src, box, other);
    }
  }

  /**
   * Whatever the thickness, every content pixel of the source appears
   * unchanged on the sticker, shifted by the box corner and the border.
   */
  lemma StickerShowsContent(src: Image, box: Box, border: Rgb, t: nat, out: Image, sx: int, sy: int)
    requires IsContentBox(src, box) && IsSticker(src, box, border, t, out) && IsObject(src, sx, sy)
    ensures out.InBounds(sx - box.minX + t, sy - box.minY + t)
    ensures PixelAt(out, sx - box.minX + t, sy - box.minY + t) == PixelAt(src, sx, sy)
  {
    assert box.Contains(sx, sy);
    if t > 0 {
      OutlineKeepsContent(src, box, t, border, sx, sy);
    } else {
      CropPixel(src, box, sx - box.minX, sy - box.minY);
    }
  }

  /**
   * On an outlined sticker a pixel is painted exactly when its source
   * position lies within distance t of the content, and a painted pixel is
   * always visible: no alpha in 1 to 10 survives the outline pass.
   */
  lemma OutlinedStickerAlpha(src: Image, box: Box, border: Rgb, t: nat, out: Image, x: int, y: int)
    requires IsContentBox(src, box) && IsSticker(src, box, border, t, out) && t > 0 && out.InBounds(x, y)
    ensures PixelAt(out, x, y).a > 0 <==> InStrokeBand(src, x - t + box.minX, y - t + box.minY, t)
    ensures PixelAt(out, x, y).a == 0 || PixelAt(out, x, y).a > VisibilityThreshold
  {
    PaintedIffInBand(src, box, t, border, x, y);
  }
}
