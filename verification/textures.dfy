/**
 * Textures: solid_color, checker_texture and image_texture (src/texture/). A texture maps a
 * surface coordinate (u, v) and a point p to a colour. Textures are immutable after
 * construction and shared by many materials, so they are values here.
 */
module Textures {

  import opened Vectors
  import opened Options

  newtype byte = x: int | 0 <= x < 256

  /** image_texture::bytes_per_pixel */
  const BytesPerPixel: int := 3

  datatype Texture =
    | SolidColor(colorValue: Vec3)
    | Checker(odd: Texture, even: Texture)
    /** `data` is None when the decoder failed or for the default constructor (a null pointer). */
    | Image(data: Option<seq<byte>>, width: int, height: int, bytesPerScanline: int)

  /** What a successful decode hands over: three bytes per pixel, row by row. */
  datatype Decoded = Decoded(pixels: seq<byte>, width: int, height: int)

  predicate DecodedValid(d: Decoded) {
    1 <= d.width && 1 <= d.height && |d.pixels| == d.width * d.height * BytesPerPixel
  }

  /** The state every texture constructor establishes. */
  predicate WellFormed(t: Texture) {
    match t
    case SolidColor(_) => true
    case Checker(odd, even) => WellFormed(odd) && WellFormed(even)
    case Image(data, width, height, bps) =>
      data.Some? ==>
        1 <= width && 1 <= height && bps == BytesPerPixel * width &&
        |data.value| == width * height * BytesPerPixel
  }

  // ---------------------------------------------------------------------------------------
  // Constructors

  /** solid_color(): the colour is a default vec3, i.e. zero. */
  function SolidColorDefault(): (t: Texture)
    ensures WellFormed(t)
    ensures forall u, v, p, sin :: TextureValue(t, u, v, p, sin) == Zero
  {
    SolidColor(Zero)
  }

  /** solid_color(red, blue, green): the arguments are stored in order, so the parameter the
      source names `blue` becomes the second (y) component. */
  function SolidColorRgb(red: real, blue: real, green: real): (t: Texture)
    ensures WellFormed(t)
    ensures forall u, v, p, sin :: TextureValue(t, u, v, p, sin) == Vec3(red, blue, green)
  {
    SolidColor(Vec3(red, blue, green))
  }

  /** checker_texture(c1, c2): odd is a solid c1 and even a solid c2, so the texture only
      ever returns one of the two colours. */
  function CheckerOfColors(c1: Vec3, c2: Vec3): (t: Texture)
    ensures WellFormed(t)
    ensures forall u, v, p, sin :: TextureValue(t, u, v, p, sin) == c1 || TextureValue(t, u, v, p, sin) == c2
  {
    Checker(SolidColor(c1), SolidColor(c2))
  }

  /** image_texture(): null data and all sizes zero. */
  function ImageTextureDefault(): (t: Texture)
    ensures WellFormed(t)
    ensures forall u, v, p, sin :: TextureValue(t, u, v, p, sin) == Vec3(1.0, 0.0, 0.0)
  {
    Image(None, 0, 0, 0)
  }

  /** image_texture(filename), given what the decoder returned for the file (None: failure).
      On failure width and height are reset to zero; bytes_per_scanline is 3 * width. */
  function ImageTextureLoad(decoded: Option<Decoded>): (t: Texture)
    requires decoded.Some? ==> DecodedValid(decoded.value)
    ensures WellFormed(t)
    ensures decoded.None? ==> t == ImageTextureDefault()
    ensures decoded.Some? ==> t.Image? && t.data == Some(decoded.value.pixels) &&
                              t.width == decoded.value.width && t.height == decoded.value.height
    ensures t.Image? && t.bytesPerScanline == BytesPerPixel * t.width
  {
    match decoded
    case None => Image(None, 0, 0, BytesPerPixel * 0)
    case Some(d) => Image(Some(d.pixels), d.width, d.height, BytesPerPixel * d.width)
  }

  // ---------------------------------------------------------------------------------------
  // value

  /** The product of sines whose sign picks the checker square. */
  function CheckerSines(p: Vec3, sin: real -> real): real {
    sin(10.0 * p.x) * sin(10.0 * p.y) * sin(10.0 * p.z)
  }

  /** clamp(x, min, max) */
  function Clamp(x: real, lo: real, hi: real): real {
    if x < lo then lo else if x > hi then hi else x
  }

  /** static_cast<int> of a double: truncation toward zero. */
  function TruncateToInt(x: real): int {
    if x >= 0.0 then x.Floor else -((-x).Floor)
  }

  /** The column i and row j that image_texture::value reads: u and v are clamped to [0, 1],
      v is flipped, the products with the size are truncated and then clamped to the last
      column and row. */
  function ImagePixel(u: real, v: real, width: int, height: int): (ij: (int, int))
    requires 1 <= width && 1 <= height
    ensures 0 <= ij.0 <= width - 1 && 0 <= ij.1 <= height - 1
  {
    var u := Clamp(u, 0.0, 1.0);
    var v := 1.0 - Clamp(v, 0.0, 1.0);
    MulNonNegative(u, width as real);
    MulNonNegative(v, height as real);
    var i := TruncateToInt(u * width as real);
    var j := TruncateToInt(v * height as real);
    var i := if i >= width then width - 1 else i;
    var j := if j >= height then height - 1 else j;
    (i, j)
  }

  lemma MulNonNegative(a: real, b: real)
    requires 0.0 <= a && 0.0 <= b
    ensures 0.0 <= a * b
  {
  }

  /** The last byte read for pixel (i, j) lies inside the decoded buffer. */
  lemma PixelOffsetInBounds(i: int, j: int, width: int, height: int)
    requires 0 <= i <= width - 1 && 0 <= j <= height - 1
    ensures 0 <= j * (BytesPerPixel * width) + i * BytesPerPixel
    ensures j * (BytesPerPixel * width) + i * BytesPerPixel + 2 < width * height * BytesPerPixel
  {
    assert j * (BytesPerPixel * width) <= (height - 1) * (BytesPerPixel * width);
    assert (height - 1) * (BytesPerPixel * width) == width * height * BytesPerPixel - 3 * width;
  }

  function ColorScale(b: byte): real {
    (1.0 / 255.0) * b as real
  }

  function TextureValue(t: Texture, u: real, v: real, p: Vec3, sin: real -> real): (c: Vec3)
    requires WellFormed(t)
    decreases t
  {
    match t
    case SolidColor(c) => c
    case Checker(odd, even) =>
      if CheckerSines(p, sin) < 0.0 then TextureValue(odd, u, v, p, sin)
      else TextureValue(even, u, v, p, sin)
    case Image(data, width, height, bps) =>
      if data.None? then Vec3(1.0, 0.0, 0.0)
      else
        var (i, j) := ImagePixel(u, v, width, height);
        PixelOffsetInBounds(i, j, width, height);
        var offset := j * bps + i * BytesPerPixel;
        var pixel := data.value;
        Vec3(ColorScale(pixel[offset]), ColorScale(pixel[offset + 1]), ColorScale(pixel[offset + 2]))
  }

  // ---------------------------------------------------------------------------------------
  // Properties

  predicate InUnitCube(c: Vec3) {
    0.0 <= c.x <= 1.0 && 0.0 <= c.y <= 1.0 && 0.0 <= c.z <= 1.0
  }

  /** solid_color::value returns the stored colour whatever u, v and p are. */
  lemma SolidColorIgnoresCoordinates(c: Vec3, u: real, v: real, p: Vec3, sin: real -> real)
    ensures TextureValue(SolidColor(c), u, v, p, sin) == c
  {
  }

  /** checker_texture::value evaluates `odd` exactly when the sine product is negative (so a
      zero product picks `even`), hands the child the same (u, v, p), and the choice does not
      depend on u or v. */
  lemma CheckerSelectsBySign(odd: Texture, even: Texture, u: real, v: real, u2: real, v2: real,
                             p: Vec3, sin: real -> real)
    requires WellFormed(odd) && WellFormed(even)
    ensures CheckerSines(p, sin) < 0.0 ==>
              TextureValue(Checker(odd, even), u, v, p, sin) == TextureValue(odd, u, v, p, sin)
    ensures CheckerSines(p, sin) >= 0.0 ==>
              TextureValue(Checker(odd, even), u, v, p, sin) == TextureValue(even, u, v, p, sin)
    ensures (TextureValue(Checker(odd, even), u, v, p, sin) == TextureValue(odd, u, v, p, sin)) ||
            (TextureValue(Checker(odd, even), u, v, p, sin) == TextureValue(even, u, v, p, sin))
    ensures CheckerSines(p, sin) < 0.0 ==>
              TextureValue(Checker(odd, even), u2, v2, p, sin) == TextureValue(odd, u2, v2, p, sin)
  {
  }

  /** A checker built from two colours only ever returns one of them. */
  lemma CheckerOfColorsValue(c1: Vec3, c2: Vec3, u: real, v: real, p: Vec3, sin: real -> real)
    ensures TextureValue(CheckerOfColors(c1, c2), u, v, p, sin) ==
            (if CheckerSines(p, sin) < 0.0 then c1 else c2)
  {
  }

  /** Every channel an image texture returns is a byte divided by 255, so lies in [0, 1]; a
      texture with no image data returns the sentinel (1, 0, 0). */
  lemma ImageValueInUnitCube(t: Texture, u: real, v: real, p: Vec3, sin: real -> real)
    requires t.Image? && WellFormed(t)
    ensures InUnitCube(TextureValue(t, u, v, p, sin))
    ensures t.data.None? ==> TextureValue(t, u, v, p, sin) == Vec3(1.0, 0.0, 0.0)
  {
    if t.data.Some? {
      var (i, j) := ImagePixel(u, v, t.width, t.height);
      PixelOffsetInBounds(i, j, t.width, t.height);
      var offset := j * t.bytesPerScanline + i * BytesPerPixel;
      var pixel := t.data.value;
      ByteScaleInUnit(pixel[offset]);
      ByteScaleInUnit(pixel[offset + 1]);
      ByteScaleInUnit(pixel[offset + 2]);
    }
  }

  lemma ByteScaleInUnit(b: byte)
    ensures 0.0 <= ColorScale(b) <= 1.0
  {
    assert 0.0 <= b as real <= 255.0;
  }

  /** The pixel read for u = 0, v = 0 is the first pixel of the last row (v is flipped), and the
      pixel read for u = 1, v = 1 is the last pixel of the first row (clamped indices). */
  lemma ImagePixelCorners(width: int, height: int)
    requires 1 <= width && 1 <= height
    ensures ImagePixel(0.0, 0.0, width, height) == (0, height - 1)
    ensures ImagePixel(1.0, 1.0, width, height) == (width - 1, 0)
  {
  }
}
