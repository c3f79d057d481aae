/**
 * The plain PPM ("P3") text `main` writes to standard output: a header of three lines (the
 * magic number, the width and height, the maximum channel value) and then one line
 * "r g b" per pixel, each integer written in decimal as `std::ostream <<` writes an int.
 * The text is modelled as its sequence of lines, without the line feeds.
 */
module Ppm {

  import opened Image

  /** The rgb triple write_color appends for one pixel (color.h is not part of this model). */
  datatype Rgb = Rgb(r: int, g: int, b: int)

  predicate IsDigit(c: char) {
    '0' <= c <= '9'
  }

  function DigitChar(d: int): (c: char)
    requires 0 <= d < 10
    ensures IsDigit(c) && c as int - '0' as int == d
  {
    ('0' as int + d) as char
  }

  /** The decimal digits of n, most significant first, without leading zeros. */
  function NatToString(n: nat): (s: string)
    ensures |s| >= 1
    ensures forall k :: 0 <= k < |s| ==> IsDigit(s[k])
    decreases n
  {
    if n < 10 then [DigitChar(n)] else NatToString(n / 10) + [DigitChar(n % 10)]
  }

  /** `<<` on an int: a minus sign before the digits of a negative number. */
  function IntToString(i: int): (s: string)
    ensures |s| >= 1 && (s[0] == '-' <==> i < 0)
  {
    if i < 0 then "-" + NatToString(-i) else NatToString(i)
  }

  lemma IntToStringHasNoSpace(i: int)
    ensures ' ' !in IntToString(i)
  {
    var s := IntToString(i);
    assert forall k :: 0 <= k < |s| ==> s[k] != ' ';
  }

  /** The value of a string of decimal digits. */
  function DigitsValue(s: string): int
    requires forall k :: 0 <= k < |s| ==> IsDigit(s[k])
  {
    if |s| == 0 then 0
    else 10 * DigitsValue(s[..|s| - 1]) + (s[|s| - 1] as int - '0' as int)
  }

  /** Reading an int back: an optional minus sign, then digits. */
  function ParseInt(s: string): int {
    if |s| > 0 && s[0] == '-' && forall k :: 1 <= k < |s| ==> IsDigit(s[k]) then -DigitsValue(s[1..])
    else if forall k :: 0 <= k < |s| ==> IsDigit(s[k]) then DigitsValue(s)
    else 0
  }

  /** One pixel line: "r g b". */
  function PixelLine(c: Rgb): string {
    IntToString(c.r) + " " + IntToString(c.g) + " " + IntToString(c.b)
  }

  /** The text up to the first space and the text after it (all of it and nothing when there
      is no space). */
  function SplitAtSpace(s: string): (string, string) {
    if |s| == 0 then ("", "")
    else if s[0] == ' ' then ("", s[1..])
    else var rest := SplitAtSpace(s[1..]); ([s[0]] + rest.0, rest.1)
  }

  /** Reading a pixel line back: three space-separated integers. */
  function ParsePixelLine(line: string): Rgb {
    var first := SplitAtSpace(line);
    var second := SplitAtSpace(first.1);
    Rgb(ParseInt(first.0), ParseInt(second.0), ParseInt(second.1))
  }

  /** The header: "P3", then "IMAGE_WIDTH IMAGE_HEIGHT", then "255". */
  function Header(): (h: seq<string>)
    ensures |h| == 3
  {
    ["P3", IntToString(ImageWidth) + " " + IntToString(ImageHeight), "255"]
  }

  /** One line per pixel, in order. */
  function PixelLines(pixels: seq<Rgb>): (lines: seq<string>)
    ensures |lines| == |pixels|
  {
    seq(|pixels|, k requires 0 <= k < |pixels| => PixelLine(pixels[k]))
  }

  /** The whole output for the pixels in the order they are written. */
  function PpmText(pixels: seq<Rgb>): seq<string> {
    Header() + PixelLines(pixels)
  }

  // ---------------------------------------------------------------------------------------
  // Properties

  /** Decimal writing is read back exactly. */
  lemma {:induction false} NatRoundTrip(n: nat)
    ensures DigitsValue(NatToString(n)) == n
    decreases n
  {
    var s := NatToString(n);
    if n >= 10 {
      NatRoundTrip(n / 10);
      assert s[..|s| - 1] == NatToString(n / 10);
    }
  }

  lemma IntRoundTrip(i: int)
    ensures ParseInt(IntToString(i)) == i
  {
    var s := IntToString(i);
    if i < 0 {
      assert s[1..] == NatToString(-i);
      NatRoundTrip(-i);
    } else {
      assert IsDigit(s[0]);
      NatRoundTrip(i);
    }
  }

  lemma {:induction false} SplitAtFirstSpace(a: string, b: string)
    requires ' ' !in a
    ensures SplitAtSpace(a + " " + b) == (a, b)
    decreases |a|
  {
    if |a| == 0 {
      assert a + " " + b == [' '] + b;
    } else {
      var s := a + " " + b;
      assert s[0] == a[0] && a[0] != ' ';
      assert s[1..] == a[1..] + " " + b;
      assert ' ' !in a[1..];
      SplitAtFirstSpace(a[1..], b);
      assert [a[0]] + a[1..] == a;
    }
  }

  /** Every pixel line reads back as the pixel it was written from. */
  lemma PixelLineRoundTrip(c: Rgb)
    ensures ParsePixelLine(PixelLine(c)) == c
  {
    var r := IntToString(c.r);
    var g := IntToString(c.g);
    var b := IntToString(c.b);
    assert PixelLine(c) == r + " " + (g + " " + b);
    IntToStringHasNoSpace(c.r);
    IntToStringHasNoSpace(c.g);
    SplitAtFirstSpace(r, g + " " + b);
    SplitAtFirstSpace(g, b);
    IntRoundTrip(c.r);
    IntRoundTrip(c.g);
    IntRoundTrip(c.b);
  }

  /** The header reads "P3", "1920 1080", "255". */
  lemma HeaderText()
    ensures Header() == ["P3", "1920 1080", "255"]
  {
    assert NatToString(1) == "1";
    assert NatToString(19) == "19";
    assert NatToString(192) == "192";
    assert NatToString(1920) == "1920";
    assert NatToString(10) == "10";
    assert NatToString(108) == "108";
    assert NatToString(1080) == "1080";
    assert IntToString(ImageWidth) + " " + IntToString(ImageHeight) == "1920 1080";
  }

  /** The output has the three header lines and then, at line 3 + k, the k-th pixel. */
  lemma PpmTextLayout(pixels: seq<Rgb>)
    ensures |PpmText(pixels)| == 3 + |pixels|
    ensures forall k :: 0 <= k < |pixels| ==> PpmText(pixels)[3 + k] == PixelLine(pixels[k])
  {
    forall k | 0 <= k < |pixels| ensures PpmText(pixels)[3 + k] == PixelLine(pixels[k]) {
      LineAfterHeader(Header(), pixels, k);
    }
  }

  /** After a header of three lines, line 3 + k is the line of the k-th pixel. */
  lemma LineAfterHeader(header: seq<string>, pixels: seq<Rgb>, k: int)
    requires |header| == 3 && 0 <= k < |pixels|
    ensures (header + PixelLines(pixels))[3 + k] == PixelLine(pixels[k])
  {
    var lines := PixelLines(pixels);
    assert (header + lines)[3 + k] == lines[k];
    PixelLineAt(pixels, k);
  }

  lemma PixelLineAt(pixels: seq<Rgb>, k: int)
    requires 0 <= k < |pixels|
    ensures PixelLines(pixels)[k] == PixelLine(pixels[k])
  {
  }

  /** Writing two runs of pixels one after the other writes their lines one after the other. */
  lemma PixelLinesConcat(a: seq<Rgb>, b: seq<Rgb>)
    ensures PixelLines(a + b) == PixelLines(a) + PixelLines(b)
  {
    var lines := PixelLines(a + b);
    var parts := PixelLines(a) + PixelLines(b);
    forall k | 0 <= k < |lines| ensures lines[k] == parts[k] {
      if k < |a| {
        assert (a + b)[k] == a[k];
      } else {
        assert (a + b)[k] == b[k - |a|];
      }
    }
  }
}
