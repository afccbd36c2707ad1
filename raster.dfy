/**
 * RGBA raster buffers as the browser's canvas ImageData exposes them: a flat
 * sequence of bytes, four per pixel (red, green, blue, alpha), pixels stored
 * row by row from the top-left corner.
 */
module Raster {

  /** One element of a Uint8ClampedArray. */
  type byte = x: int | 0 <= x < 256

  datatype Rgb = Rgb(r: byte, g: byte, b: byte)

  datatype Rgba = Rgba(r: byte, g: byte, b: byte, a: byte)

  /** What a freshly created ImageData holds in every pixel. */
  const Transparent: Rgba := Rgba(0, 0, 0, 0)

  /** A pixel whose alpha exceeds this value is part of the picture's content. */
  const VisibilityThreshold: int := 10

  /**
   * a * b for a >= 0, as a sum of a copies of b. MulIsProduct states that
   * this is the product; buffer sizes and offsets are written with Mul so
   * that only the lemmas about offsets below reason about multiplication.
   */
  function Mul(a: int, b: int): int
    ensures a >= 0 && b >= 0 ==> Mul(a, b) >= 0
  {
    if a <= 0 then 0 else Mul(a - 1, b) + b
  }

  lemma {:induction false} MulIsProduct(a: int, b: int)
    requires a >= 0
    ensures Mul(a, b) == a * b
  {
    if a > 0 {
      MulIsProduct(a - 1, b);
    }
  }

  /** A decoded picture: width, height and the RGBA bytes. */
  datatype Image = Image(width: nat, height: nat, data: seq<byte>) {
    predicate Valid() {
      |data| == Mul(width, height) * 4
    }

    predicate InBounds(x: int, y: int) {
      0 <= x < width && 0 <= y < height
    }
  }

  /** Index of the red byte of pixel (x, y) in a buffer whose rows are w pixels long. */
  function Offset(w: int, x: int, y: int): int {
    (Mul(y, w) + x) * 4
  }

  /** Channel c (0 red, 1 green, 2 blue, 3 alpha) of a pixel. */
  function Channel(p: Rgba, c: int): byte
    requires 0 <= c < 4
  {
    match c
    case 0 => p.r
    case 1 => p.g
    case 2 => p.b
    case _ => p.a
  }

  /** The four bytes of pixel (x, y). */
  function PixelAt(img: Image, x: int, y: int): (p: Rgba)
    requires img.Valid() && img.InBounds(x, y)
    ensures 0 <= Offset(img.width, x, y) && Offset(img.width, x, y) + 4 <= |img.data|
    ensures p.r == img.data[Offset(img.width, x, y)] && p.g == img.data[Offset(img.width, x, y) + 1]
    ensures p.b == img.data[Offset(img.width, x, y) + 2] && p.a == img.data[Offset(img.width, x, y) + 3]
  {
    OffsetInRange(img.width, img.height, x, y);
    var i := Offset(img.width, x, y);
    Rgba(img.data[i], img.data[i + 1], img.data[i + 2], img.data[i + 3])
  }

  /** An in-bounds pixel whose alpha exceeds the visibility threshold. */
  predicate IsObject(img: Image, x: int, y: int) {
    img.Valid() && img.InBounds(x, y) && PixelAt(img, x, y).a > VisibilityThreshold
  }

  /** The w-by-h picture whose pixel (x, y) is f(x, y), laid out row by row. */
  function Picture(w: nat, h: nat, f: (int, int) -> Rgba): (img: Image)
    ensures img.Valid() && img.width == w && img.height == h
  {
    var data := seq<byte>(Mul(w, h) * 4, i requires 0 <= i < Mul(w, h) * 4 =>
      IndexInPicture(w, h, i);
      Channel(f(i / 4 % w, i / 4 / w), i % 4));
    Image(w, h, data)
  }

  /** Reading pixel (x, y) back from Picture(w, h, f) gives f(x, y). */
  lemma PicturePixels(w: nat, h: nat, f: (int, int) -> Rgba)
    ensures forall x, y :: 0 <= x < w && 0 <= y < h ==> PixelAt(Picture(w, h, f), x, y) == f(x, y)
  {
    forall x, y | 0 <= x < w && 0 <= y < h ensures PixelAt(Picture(w, h, f), x, y) == f(x, y) {
      OffsetDecompose(w, x, y, 0);
      OffsetDecompose(w, x, y, 1);
      OffsetDecompose(w, x, y, 2);
      OffsetDecompose(w, x, y, 3);
    }
  }

  lemma MulAtLeast(a: int, w: int)
    requires a >= 1 && w >= 0
    ensures a * w >= w
  {
  }

  /** Every pixel of a w-by-h picture owns four bytes inside its buffer. */
  lemma OffsetInRange(w: nat, h: nat, x: int, y: int)
    requires 0 <= x < w && 0 <= y < h
    ensures 0 <= Offset(w, x, y) && Offset(w, x, y) + 4 <= Mul(w, h) * 4
  {
    MulIsProduct(y, w);
    MulIsProduct(w, h);
    assert y * w + x < (y + 1) * w;
    MulAtLeast(h - y, w);
    assert (h - y) * w + y * w == h * w;
  }

  /** Row-major position p = y * w + x splits back into its column and row. */
  lemma DivModRow(w: int, x: int, y: int)
    requires 0 <= x < w && 0 <= y
    ensures (y * w + x) / w == y && (y * w + x) % w == x
  {
    var p := y * w + x;
    var q, r := p / w, p % w;
    assert p == q * w + r;
    assert (q - y) * w == x - r by {
      assert q * w - y * w == (q - y) * w;
    }
    if q > y {
      MulAtLeast(q - y, w);
    } else if q < y {
      MulAtLeast(y - q, w);
    }
  }

  /** Byte Offset(w, x, y) + c of a buffer is channel c of pixel (x, y). */
  lemma OffsetDecompose(w: int, x: int, y: int, c: int)
    requires 0 <= x < w && 0 <= y && 0 <= c < 4
    ensures (Offset(w, x, y) + c) % 4 == c
    ensures (Offset(w, x, y) + c) / 4 == Mul(y, w) + x
    ensures (Mul(y, w) + x) % w == x && (Mul(y, w) + x) / w == y
  {
    MulIsProduct(y, w);
    DivModRow(4, c, y * w + x);
    DivModRow(w, x, y);
  }

  /** Byte i of a w * h * 4 buffer splits into pixel (p % w, p / w), p = i / 4, and channel i % 4. */
  lemma IndexSplit(w: nat, h: nat, i: int)
    requires 0 <= i < w * h * 4
    ensures w > 0 && 0 <= i / 4 % w < w && 0 <= i / 4 / w < h
    ensures (i / 4 / w * w + i / 4 % w) * 4 + i % 4 == i
  {
    var p := i / 4;
    assert p < w * h;
    var x, y := p % w, p / w;
    assert p == y * w + x;
    if y >= h {
      MulAtLeast(y - h + 1, w);
    }
  }

  /** Pixel position (i / 4 % w, i / 4 / w) of byte i lies inside the picture. */
  lemma IndexInPicture(w: nat, h: nat, i: int)
    requires 0 <= i < Mul(w, h) * 4
    ensures w > 0 && 0 <= i / 4 % w < w && 0 <= i / 4 / w < h
    ensures Offset(w, i / 4 % w, i / 4 / w) + i % 4 == i
  {
    MulIsProduct(w, h);
    IndexSplit(w, h, i);
    MulIsProduct(i / 4 / w, w);
  }
}
