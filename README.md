# stickerly raster core in Dafny

stickerly turns a picture into a sticker. It finds the bounding box of the
picture's visible content: every pixel whose alpha exceeds 10. It cuts that
box out onto a canvas that is `borderThickness` pixels larger on every side.
Then it paints an outline in the border colour around the content's
silhouette. A separate "remove white background" button runs a chroma key
that lowers the alpha of near-white pixels.

This project models that raster core over decoded RGBA buffers. A picture is
`Raster.Image(width, height, data)`, where `data` holds four bytes per pixel,
row by row, exactly as a canvas `ImageData` does.

Each piece keeps the form of its source:

- **Content scan** (`ContentBounds`). The nested loops over the picture are
  the methods `FindContentBounds`, `ScanRow` and `ScanPixel`. They share the
  loop invariant `Scanned`. The result is specified by the predicate
  `IsContentBox`, and `ContentBoxUnique` proves that at most one box
  satisfies it.
- **Outline pass** (`Outline`). The source fills a fresh byte buffer in place.
  Here that buffer is an `array<byte>`, written by `DrawOutline`, `FillCanvas`,
  `FillRow`, `FillPixel` and `PutPixel`; `ClassifyPixel` computes each pixel
  before it is written. The early-stopping
  neighbourhood search is the method `SearchStroke`. The bytes these methods
  must produce are described by `IsOutlineBytes`: the four channels of
  `OutlinePixel` at every pixel's offset. The ghost function `OutlineCanvas`
  shows that such a buffer exists.
  The lemmas about `OutlinePixel` say that:
  - every content pixel is kept unchanged;
  - a pixel is painted exactly when its source position lies within
    Euclidean distance t of content, which is a circular dilation of the
    silhouette;
  - no painted pixel is faint;
  - the canvas is large enough to hold the whole band.
- **Crop at thickness 0** (`Outline.Crop`). The source makes this a single
  `drawImage` call, so the model is a function.
- **Whole render step** (`Sticker.GenerateSticker`). It ties the pieces
  together:
  - a picture without content is returned as it is;
  - otherwise the result is the outline canvas when t > 0, and the crop
    when t = 0.
- **`hexToRgb`** (`HexColor.HexToRgb`) is a pure function. It is proved
  against `ToHex`, the `#rrggbb` form a colour picker reports: every colour
  survives a round trip through the two.
- **Chroma key** (`BackgroundRemoval`). `RemoveWhiteBackground` strides over
  an `array<byte>` in place and is proved to produce `Keyed` of the old
  buffer. The lemmas about `Keyed` say that:
  - only the alpha bytes change;
  - alpha never rises;
  - a second pass changes nothing.

Two source computations are replaced by exact integer ones:

- **Distance test.** `Math.sqrt(dx*dx + dy*dy) <= T` becomes
  `Dist2(dx, dy) <= Square(T)`. `Square` is `n * n`, as `SquareIsProduct`
  states, and for integers the two tests agree.
- **Soft opacity.** In the chroma key, the opacity
  `max(0, 255 - (avg - 220) * 10)` is exactly `SoftOpacity3(r + g + b) / 3`.
  Storing a fraction into a `Uint8ClampedArray` rounds it to the nearest
  integer. The numerator is an integer, so the fraction never lies halfway
  between two integers, and the stored alpha is `(SoftOpacity3 + 1) / 3`.

`HardCutAverageHolds` proves that the inner `avgColor > threshold` test
(src/utils/backgroundRemoval.ts:33) always holds inside the branch where all
channels exceed 235; the model follows the code's nesting.

## Model

| member | source | states |
|---|---|---|
| ContentBounds.FindContentBounds | src/components/StickerEditor.tsx:47-62 | The scan reports content iff some pixel has alpha above 10. When it does, the box lies inside the picture, holds every content pixel, and each of its four edges passes through a content pixel. Without content the bounds keep their starting values (width, height, 0, 0). |
| ContentBounds.ScanRow | src/components/StickerEditor.tsx:51-61 | One row of the scan extends the scan invariant from the start of row y to the start of row y + 1. |
| ContentBounds.ScanPixel | src/components/StickerEditor.tsx:53-59 | Reading pixel (x, y) and widening the bounds with Math.min/Math.max keeps the scan invariant. The invariant covers: the bounds hold every content pixel read so far, each bound is attained, and the bounds stay inside the picture. |
| ContentBounds.ContentBoxUnique | src/components/StickerEditor.tsx:47-62 | A picture has at most one box with those properties, so the scan's result is determined by the picture alone. |
| Raster.PixelAt | src/components/StickerEditor.tsx:97-98 | Pixel (x, y) is the four bytes starting at (y * width + x) * 4, and they lie inside the buffer. |
| Outline.OutlinePixel | src/components/StickerEditor.tsx:123-139 | Every pixel the outline pass writes has alpha 0 or above 10. |
| Outline.SearchStroke | src/components/StickerEditor.tsx:103-121 | The early-stopping search over offsets in [-t, t] squared finds a stroke exactly when some content pixel lies within Euclidean distance t of the position. |
| Outline.NearContent | src/components/StickerEditor.tsx:104-107 | A content pixel within distance t lies in the (2t+1)-square around the position, so the bounded search cannot miss it. |
| Outline.DiscInSquare | src/components/StickerEditor.tsx:104-107 | The disc dx^2 + dy^2 <= t^2 lies inside the square [-t, t] squared. |
| Outline.SquareIsProduct | src/components/StickerEditor.tsx:106-107 | Square(n) is n * n, so the integer test is the source's distance test. |
| Outline.ClassifyPixel | src/components/StickerEditor.tsx:89-139 | The classification in priority order gives exactly OutlinePixel: the source pixel if it is content, else the border colour at alpha 255 if a stroke is found, else (0, 0, 0, 0). |
| Outline.PutPixel | src/components/StickerEditor.tsx:125-138 | The buffer afterwards is the old buffer with the four channels of the pixel written at destIndex to destIndex + 3, and nothing else changed. |
| Outline.FillPixel | src/components/StickerEditor.tsx:87-139 | Canvas pixel (x, y) is written at offset (y * width + x) * 4 with exactly OutlinePixel's four channels, and no other byte changes. |
| Outline.FillRow | src/components/StickerEditor.tsx:86-140 | Given a target buffer holding OutlinePixel at every pixel's offset: if the canvas agrees with it up to the start of row y, then after row y it agrees up to the start of row y + 1, and every byte after row y is unchanged. |
| Outline.FillCanvas | src/components/StickerEditor.tsx:85-141 | The nested loops leave the whole canvas equal to the target buffer that holds OutlinePixel at every pixel's offset. |
| Outline.OutlineBytes | src/components/StickerEditor.tsx:81-139 | A buffer exists holding, at every canvas pixel's offset, the four channels of OutlinePixel. |
| Outline.OutlineBytesPixels | src/components/StickerEditor.tsx:81-143 | Such a buffer, read back as a (width + 2t) by (height + 2t) picture, shows OutlinePixel at every pixel. |
| Outline.DrawOutline | src/components/StickerEditor.tsx:75-143 | The result is (contentWidth + 2t) by (contentHeight + 2t), and every pixel is what OutlinePixel prescribes for it. |
| Outline.OutlineKeepsContent | src/components/StickerEditor.tsx:89-128 | Every content pixel (sx, sy) of the source appears unchanged at canvas position (sx - minX + t, sy - minY + t), which lies on the canvas. |
| Outline.BandFitsCanvas | src/components/StickerEditor.tsx:72-76 | Every source position within distance t of content maps onto the canvas, so the canvas size never clips the outline. |
| Outline.ContentIsInBand | src/components/StickerEditor.tsx:103-121 | A content position is within distance t of content (itself). |
| Outline.PaintedIsInBand | src/components/StickerEditor.tsx:123-139 | A canvas pixel with alpha above 0 shows a position within distance t of content. |
| Outline.PaintedIffInBand | src/components/StickerEditor.tsx:89-139 | A canvas pixel is painted iff the source position it shows lies within distance t of content: the silhouette dilated by a disc of radius t. |
| Outline.ZeroBandIsSilhouette | src/components/StickerEditor.tsx:104-107 | With t = 0, the band is exactly the set of content pixels. |
| Outline.ZeroOutlinePixel | src/components/StickerEditor.tsx:89-139 | At t = 0 the outline rule keeps content pixels and clears every other pixel. |
| Outline.Crop | src/components/StickerEditor.tsx:151-156 | The cropped canvas is valid and has the content box's width and height. |
| Outline.CropPixel | src/components/StickerEditor.tsx:151-156 | Crop pixel (x, y) is source pixel (minX + x, minY + y). |
| Outline.CropVersusZeroOutline | src/components/StickerEditor.tsx:80-156 | The crop used at t = 0 agrees with the outline rule on content pixels. Elsewhere the outline rule would clear the pixel, while the crop keeps a faint pixel whose alpha is at most 10. |
| Sticker.GenerateSticker | src/components/StickerEditor.tsx:47-156 | Without content the picture comes back unchanged. With content the content box exists, and for it the result is a valid canvas of size (width + 2t) by (height + 2t). That canvas is the outline canvas when t > 0 and the crop when t = 0. |
| Sticker.StickerShowsContent | src/components/StickerEditor.tsx:123-156 | Whatever the thickness, every content pixel appears unchanged on the sticker, shifted by the box corner and the border. |
| Sticker.OutlinedStickerAlpha | src/components/StickerEditor.tsx:103-139 | On an outlined sticker a pixel is painted iff its source position lies within distance t of content, and its alpha is 0 or above 10. |
| HexColor.DigitValue | src/components/StickerEditor.tsx:175-177 | parseInt's value of one hexadecimal digit of either case, below 16. |
| HexColor.HexToRgb | src/components/StickerEditor.tsx:172-179 | A string matching an optional '#' then six hex digits gives the three two-digit groups as bytes. Any other string gives white (255, 255, 255). |
| HexColor.HexDigit | src/components/StickerEditor.tsx:173-177 | The lower-case digit written for a value below 16 is a hex digit that parses back to it. |
| HexColor.ByteToHex | src/components/StickerEditor.tsx:175-177 | The two digits written for a byte parse back to the byte. |
| HexColor.ToHex | src/components/StickerEditor.tsx:173 | A colour's `#rrggbb` form has seven characters and starts with '#'. |
| HexColor.HexRoundTrip | src/components/StickerEditor.tsx:172-179 | Every colour, written as `#rrggbb`, matches the pattern and parses back to itself. |
| HexColor.HashIsOptional | src/components/StickerEditor.tsx:173 | Six characters parse to the same colour with or without a leading '#'. |
| HexColor.UpperDigit | src/components/StickerEditor.tsx:173-177 | Upper-casing keeps a character a hex digit, or not one, and keeps its value. |
| HexColor.CaseInsensitive | src/components/StickerEditor.tsx:173 | An upper-cased string names the same colour, as the `i` flag promises. |
| BackgroundRemoval.SoftOpacity3 | src/utils/backgroundRemoval.ts:39-40 | Equals, as a real number, three times max(0, 255 - (avg - (threshold - tolerance)) * 10) with avg = s / 3 for the channel sum s; that is 7365 - 10s while s <= 736, and 0 from 737 on. |
| BackgroundRemoval.SoftAlpha | src/utils/backgroundRemoval.ts:39-41 | The stored Math.min(alpha, opacity) never exceeds alpha. It keeps alpha when alpha is at most the opacity, and otherwise is the integer nearest the opacity. |
| BackgroundRemoval.KeyAlpha | src/utils/backgroundRemoval.ts:31-42 | The new alpha never exceeds the old. It is 0 when all channels exceed 235, and unchanged when some channel is at most 220. In the band between, it is min(alpha, opacity) rounded as the byte store rounds. |
| BackgroundRemoval.HardCutAverageHolds | src/utils/backgroundRemoval.ts:31-36 | When all channels exceed 235, the inner average test always passes. |
| BackgroundRemoval.KeyedKeepsColour | src/utils/backgroundRemoval.ts:23-43 | The pass keeps the buffer's length and every red, green and blue byte. |
| BackgroundRemoval.KeyedNeverRaises | src/utils/backgroundRemoval.ts:23-43 | No byte of the buffer increases, alpha included. |
| BackgroundRemoval.KeyAlphaIdempotent | src/utils/backgroundRemoval.ts:31-42 | Keying a pixel's alpha a second time leaves it as the first keying left it. |
| BackgroundRemoval.KeyedIdempotent | src/utils/backgroundRemoval.ts:23-43 | Running the pass on its own output changes nothing. |
| BackgroundRemoval.KeyPixel | src/utils/backgroundRemoval.ts:24-42 | One step of the loop: the buffer afterwards is the old buffer with byte i + 3 replaced by KeyAlpha of the pixel's old bytes. |
| BackgroundRemoval.KeyedStep | src/utils/backgroundRemoval.ts:23-43 | If the pass has keyed every byte before i and left the rest as it was, then keying pixel i extends that by four bytes. |
| BackgroundRemoval.RemoveWhiteBackground | src/utils/backgroundRemoval.ts:23-43 | The in-place stride-4 loop leaves the array equal to Keyed of its old contents: each pixel visited once, only its alpha byte rewritten. |

## Left out

- Background fill (src/components/StickerEditor.tsx:145-150 and 158-163) is not modelled. It is canvas `destination-over` compositing with the browser's alpha blending. `GenerateSticker` is the sticker as it stands when `fillBackground` is false.
- Browser image I/O is not modelled. This covers `Image` decoding and `onload`, `drawImage` of the whole picture, `getImageData`, `putImageData` and `toDataURL`. The model takes the decoded buffer as input and returns a buffer.
- The `resolve(imageUrl)` fallback when no 2D context exists (src/utils/backgroundRemoval.ts:10-13) is not modelled, because it is an I/O failure path.
- The no-content path returns the source picture itself. This is what redrawing the decoded picture onto a same-sized canvas yields.
- Outline.Crop: the crop is an exact copy of the box's pixels. The model does not capture the precision lost when `drawImage` stores premultiplied alpha.
- Outline.Crop requires the box to lie inside the picture. The only caller passes the content box, which always does.
- `Math.sqrt` is not modelled. The stroke test uses the exact integer comparison `Dist2(dx, dy) <= Square(t)`, which agrees with it for integer offsets.
- The chroma key's floating-point average is not modelled. It is computed exactly from the channel sum, including the rounding of the byte store.
- React state, effects and the re-render trigger are not modelled. Neither are the download link, resetting the settings, or the async wrapper around background removal. These are UI orchestration.
- src/app/page.tsx and src/components/InfoPanel.tsx are not part of this model. They are presentation only.
