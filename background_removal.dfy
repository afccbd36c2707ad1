/**
 * The "remove white background" chroma key: a single pass over an RGBA
 * buffer that lowers the alpha of near-white pixels and never touches their
 * colour.
 */
module BackgroundRemoval {
  import opened Raster

  /** Channels above this value count as white. */
  const Threshold: int := 235

  /** Width of the soft band below Threshold. */
  const Tolerance: int := 15

  /** Every channel of (r, g, b) is above the level. */
  predicate AllAbove(r: byte, g: byte, b: byte, level: int) {
    r > level && g > level && b > level
  }

  /** The larger of two reals, as Math.max. */
  function RealMax(a: real, b: real): real {
    if a >= b then a else b
  }

  /**
   * Three times the soft-band opacity max(0, 255 - (avg - 220) * 10), where
   * avg = s / 3 and s = r + g + b; scaling by three keeps it an integer.
   */
  function SoftOpacity3(s: int): (o: nat)
    ensures o as real == 3.0 * RealMax(0.0, 255.0 - ((s as real) / 3.0 - (Threshold - Tolerance) as real) * 10.0)
    ensures s <= 736 ==> o == 7365 - 10 * s
    ensures s >= 737 ==> o == 0
  {
    if 7365 - 10 * s > 0 then 7365 - 10 * s else 0
  }

  /** The integer v is the one nearest to n / 3 (closer than one half). */
  predicate NearestToThird(v: int, n: int) {
    -3 < 6 * v - 2 * n < 3
  }

  /**
   * The alpha stored by `data[i + 3] = Math.min(alpha, opacity)` for a pixel
   * of channel sum s: the Uint8ClampedArray store rounds to the nearest
   * integer, and opacity = SoftOpacity3(s) / 3 is never halfway between two.
   */
  function SoftAlpha(s: int, a: byte): (na: byte)
    ensures na <= a
    ensures 3 * a <= SoftOpacity3(s) ==> na == a
    ensures 3 * a > SoftOpacity3(s) ==> NearestToThird(na, SoftOpacity3(s))
  {
    var rounded := (SoftOpacity3(s) + 1) / 3;
    if a <= rounded then a else rounded
  }

  /**
   * The new alpha of pixel (r, g, b, a). Pure white-ish pixels lose their
   * alpha, pixels in the soft band keep at most the soft opacity, all others
   * are left as they are.
   */
  function KeyAlpha(r: byte, g: byte, b: byte, a: byte): (na: byte)
    ensures na <= a
    ensures AllAbove(r, g, b, Threshold) ==> na == 0
    ensures !AllAbove(r, g, b, Threshold - Tolerance) ==> na == a
    ensures AllAbove(r, g, b, Threshold - Tolerance) && !AllAbove(r, g, b, Threshold) ==>
              (3 * a <= SoftOpacity3(r + g + b) ==> na == a) &&
              (3 * a > SoftOpacity3(r + g + b) ==> NearestToThird(na, SoftOpacity3(r + g + b)))
  {
    // avg > Threshold, with avg = (r + g + b) / 3 exactly
    if AllAbove(r, g, b, Threshold) && r + g + b > 3 * Threshold then 0
    else if AllAbove(r, g, b, Threshold - Tolerance) && !AllAbove(r, g, b, Threshold) then SoftAlpha(r + g + b, a)
    else a
  }

  /** The keyed buffer: every fourth byte, the alpha, replaced by KeyAlpha of its pixel. */
  function Keyed(s: seq<byte>): (k: seq<byte>)
    requires |s| % 4 == 0
  {
    seq(|s|, i requires 0 <= i < |s| =>
      if i % 4 == 3 then KeyAlpha(s[i - 3], s[i - 2], s[i - 1], s[i]) else s[i])
  }

  /** Keying keeps the buffer's length and the red, green and blue byte of every pixel. */
  lemma KeyedKeepsColour(s: seq<byte>)
    requires |s| % 4 == 0
    ensures |Keyed(s)| == |s|
    ensures forall i :: 0 <= i < |s| && i % 4 != 3 ==> Keyed(s)[i] == s[i]
  {
  }

  /** The new alpha never exceeds the old one, byte by byte over the whole buffer. */
  lemma KeyedNeverRaises(s: seq<byte>)
    requires |s| % 4 == 0
    ensures forall i :: 0 <= i < |s| ==> Keyed(s)[i] <= s[i]
  {
  }

  lemma KeyAlphaIdempotent(r: byte, g: byte, b: byte, a: byte)
    ensures KeyAlpha(r, g, b, KeyAlpha(r, g, b, a)) == KeyAlpha(r, g, b, a)
  {
  }

  /** Keying an already keyed buffer changes nothing. */
  lemma KeyedIdempotent(s: seq<byte>)
    requires |s| % 4 == 0
    ensures Keyed(Keyed(s)) == Keyed(s)
  {
    var k := Keyed(s);
    forall i | 0 <= i < |s| ensures Keyed(k)[i] == k[i] {
      KeyedIdempotentAt(s, i);
    }
  }

  /** Keying twice leaves byte i as keying once did. */
  lemma KeyedIdempotentAt(s: seq<byte>, i: int)
    requires |s| % 4 == 0 && 0 <= i < |s|
    ensures Keyed(Keyed(s))[i] == Keyed(s)[i]
  {
    var p := i - i % 4;
    KeyedPixel(s, p);
    KeyedPixel(Keyed(s), p);
    KeyAlphaIdempotent(s[p], s[p + 1], s[p + 2], s[p + 3]);
  }

  /**
   * The state of the pass once the pixels before byte i are done: those bytes
   * are keyed, the rest are still as in `original`.
   */
  ghost predicate KeyedUpTo(cur: seq<byte>, original: seq<byte>, i: int)
    requires |original| % 4 == 0
  {
    && |cur| == |original|
    && (forall j :: 0 <= j < i && j < |cur| ==> cur[j] == Keyed(original)[j])
    && (forall j :: i <= j < |cur| && 0 <= j ==> cur[j] == original[j])
  }

  /** Keying the pixel at byte i extends the keyed prefix by four bytes. */
  lemma KeyedStep(cur: seq<byte>, original: seq<byte>, i: int)
    requires |original| % 4 == 0 && 0 <= i && i + 4 <= |original| && i % 4 == 0
    requires KeyedUpTo(cur, original, i)
    ensures KeyedUpTo(cur[i + 3 := KeyAlpha(cur[i], cur[i + 1], cur[i + 2], cur[i + 3])], original, i + 4)
  {
    var next := cur[i + 3 := KeyAlpha(cur[i], cur[i + 1], cur[i + 2], cur[i + 3])];
    KeyedPixel(original, i);
    assert next[i] == Keyed(original)[i] && next[i + 1] == Keyed(original)[i + 1];
    assert next[i + 2] == Keyed(original)[i + 2] && next[i + 3] == Keyed(original)[i + 3];
  }

  /** The four bytes of the pixel at byte i of the keyed buffer. */
  lemma KeyedPixel(s: seq<byte>, i: int)
    requires |s| % 4 == 0 && 0 <= i && i + 4 <= |s| && i % 4 == 0
    ensures Keyed(s)[i] == s[i] && Keyed(s)[i + 1] == s[i + 1] && Keyed(s)[i + 2] == s[i + 2]
    ensures Keyed(s)[i + 3] == KeyAlpha(s[i], s[i + 1], s[i + 2], s[i + 3])
  {
    assert (i + 1) % 4 == 1 && (i + 2) % 4 == 2 && (i + 3) % 4 == 3;
  }

  /**
   * The pass over `data`: four bytes per step, only the alpha byte of a pixel
   * is ever written.
   */
  method RemoveWhiteBackground(data: array<byte>)
    requires data.Length % 4 == 0
    modifies data
    ensures data[..] == Keyed(old(data[..]))
  {
    ghost var original := data[..];
    var i := 0;
    while i < data.Length
      invariant 0 <= i <= data.Length && i % 4 == 0
      invariant KeyedUpTo(data[..], original, i)
    {
      KeyedStep(data[..], original, i);
      KeyPixel(data, i);
      i := i + 4;
    }
    assert data[..] == Keyed(original);
  }

  /** The pixel whose red byte is data[i]: its alpha byte keyed, every other byte kept. */
  method KeyPixel(data: array<byte>, i: int)
    requires 0 <= i && i + 4 <= data.Length
    modifies data
    ensures data[..] == old(data[..])[i + 3 := KeyAlpha(old(data[i]), old(data[i + 1]), old(data[i + 2]), old(data[i + 3]))]
  {
    var r, g, b := data[i], data[i + 1], data[i + 2];
    if AllAbove(r, g, b, Threshold) {
      if r + g + b > 3 * Threshold {
        data[i + 3] := 0;
      }
    } else if AllAbove(r, g, b, Threshold - Tolerance) {
      data[i + 3] := SoftAlpha(r + g + b, data[i + 3]);
    }
  }

  /** The hard cut-out's inner average test never fails once all channels exceed the threshold. */
  lemma HardCutAverageHolds(r: byte, g: byte, b: byte)
    requires AllAbove(r, g, b, Threshold)
    ensures r + g + b > 3 * Threshold
  {
  }
}
