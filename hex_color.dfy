/**
 * Colour strings as the colour picker hands them to the sticker renderer:
 * an optional '#' and six hexadecimal digits, in either case. Anything else
 * reads as white.
 */
module HexColor {
  import opened Raster

  /** The colour a malformed string falls back to. */
  const White: Rgb := Rgb(255, 255, 255)

  /** One character of the class [a-f\d] under case-insensitive matching. */
  predicate IsHexDigit(c: char) {
    '0' <= c <= '9' || 'a' <= c <= 'f' || 'A' <= c <= 'F'
  }

  /** The value of one hexadecimal digit. */
  function DigitValue(c: char): (v: nat)
    requires IsHexDigit(c)
    ensures v < 16
    ensures '0' <= c <= '9' ==> v == c as int - '0' as int
    ensures 'a' <= c <= 'f' ==> v == 10 + (c as int - 'a' as int)
    ensures 'A' <= c <= 'F' ==> v == 10 + (c as int - 'A' as int)
  {
    if '0' <= c <= '9' then c as int - '0' as int
    else if 'a' <= c <= 'f' then c as int - 'a' as int + 10
    else c as int - 'A' as int + 10
  }

  /** parseInt of a two-digit hexadecimal string. */
  function PairValue(hi: char, lo: char): byte
    requires IsHexDigit(hi) && IsHexDigit(lo)
  {
    16 * DigitValue(hi) + DigitValue(lo)
  }

  /** Six hexadecimal digits from position `from` on, and nothing after them. */
  predicate SixDigitsFrom(s: string, from: nat) {
    |s| == from + 6 && forall i :: from <= i < |s| ==> IsHexDigit(s[i])
  }

  /** The string is matched by /^#?([a-f\d]{2})([a-f\d]{2})([a-f\d]{2})$/i. */
  predicate MatchesColorPattern(s: string) {
    SixDigitsFrom(s, 0) || (|s| > 0 && s[0] == '#' && SixDigitsFrom(s, 1))
  }

  /**
   * hexToRgb: the three two-digit groups after an optional '#', or white for
   * any string that is not of that form.
   */
  function HexToRgb(hex: string): (c: Rgb)
    ensures MatchesColorPattern(hex) ==>
              var k := |hex| - 6;
              c == Rgb(PairValue(hex[k], hex[k + 1]), PairValue(hex[k + 2], hex[k + 3]),
                       PairValue(hex[k + 4], hex[k + 5]))
    ensures !MatchesColorPattern(hex) ==> c == White
  {
    var digits := if |hex| > 0 && hex[0] == '#' then hex[1..] else hex;
    if |digits| == 6 && forall i :: 0 <= i < 6 ==> IsHexDigit(digits[i]) then
      Rgb(PairValue(digits[0], digits[1]), PairValue(digits[2], digits[3]), PairValue(digits[4], digits[5]))
    else
      White
  }

  /** The lower-case hexadecimal digit of a value below 16. */
  function HexDigit(v: nat): (c: char)
    requires v < 16
    ensures IsHexDigit(c) && DigitValue(c) == v
  {
    if v < 10 then ('0' as int + v) as char else ('a' as int + v - 10) as char
  }

  /** The two digits of a byte, high digit first. */
  function ByteToHex(v: byte): (s: string)
    ensures |s| == 2 && IsHexDigit(s[0]) && IsHexDigit(s[1]) && PairValue(s[0], s[1]) == v
  {
    [HexDigit(v / 16), HexDigit(v % 16)]
  }

  /** The `#rrggbb` form in which a colour picker reports a colour. */
  function ToHex(c: Rgb): (s: string)
    ensures |s| == 7 && s[0] == '#'
  {
    "#" + ByteToHex(c.r) + ByteToHex(c.g) + ByteToHex(c.b)
  }

  /** Every colour survives being written as `#rrggbb` and parsed back. */
  lemma HexRoundTrip(c: Rgb)
    ensures MatchesColorPattern(ToHex(c))
    ensures HexToRgb(ToHex(c)) == c
  {
    var s := ToHex(c);
    var r, g, b := ByteToHex(c.r), ByteToHex(c.g), ByteToHex(c.b);
    assert s[1..3] == r && s[3..5] == g && s[5..7] == b;
    assert SixDigitsFrom(s, 1);
  }

  /** The leading '#' is optional: six characters read the same with or without it. */
  lemma HashIsOptional(digits: string)
    requires |digits| == 6
    ensures HexToRgb("#" + digits) == HexToRgb(digits)
  {
    var s := "#" + digits;
    assert s[1..] == digits;
    if SixDigitsFrom(digits, 0) {
      assert SixDigitsFrom(s, 1);
    }
  }

  /** ASCII upper-casing of one character. */
  function UpperChar(c: char): char {
    if 'a' <= c <= 'z' then (c as int - 32) as char else c
  }

  function Upper(s: string): (u: string)
    ensures |u| == |s| && forall i :: 0 <= i < |s| ==> u[i] == UpperChar(s[i])
  {
    seq(|s|, i requires 0 <= i < |s| => UpperChar(s[i]))
  }

  lemma UpperDigit(c: char)
    ensures IsHexDigit(UpperChar(c)) == IsHexDigit(c)
    ensures IsHexDigit(c) ==> DigitValue(UpperChar(c)) == DigitValue(c)
  {
  }

  /** Matching ignores case: an upper-cased string names the same colour. */
  lemma CaseInsensitive(hex: string)
    ensures HexToRgb(Upper(hex)) == HexToRgb(hex)
  {
    var u := Upper(hex);
    forall i | 0 <= i < |hex| ensures IsHexDigit(u[i]) == IsHexDigit(hex[i]) {
      UpperDigit(hex[i]);
    }
    assert MatchesColorPattern(u) == MatchesColorPattern(hex);
    if MatchesColorPattern(hex) {
      var k := |hex| - 6;
      forall i | k <= i < |hex| ensures DigitValue(u[i]) == DigitValue(hex[i]) {
        UpperDigit(hex[i]);
      }
    }
  }
}
