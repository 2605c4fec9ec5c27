/**
  Pixel buffers as the service sees them through `BufferedImage.getRGB` and
  `setRGB`: a grid of opaque RGB pixels, each channel an integer 0..255, read
  and written as packed 32-bit `int` values.
 */
module Pixels {

  import opened JavaLang

  /** One colour channel. */
  type Channel = x: int | 0 <= x <= 255

  /** A Java `int`. */
  type Int32 = x: int | -0x8000_0000 <= x <= 0x7FFF_FFFF

  datatype Pixel = Pixel(r: Channel, g: Channel, b: Channel)

  /** Row-major raster: `img[y][x]` is the pixel in column x of row y. */
  type Image = seq<seq<Pixel>>

  function Width(img: Image): nat {
    if |img| == 0 then 0 else |img[0]|
  }

  function Height(img: Image): nat {
    |img|
  }

  /** Every row has exactly w pixels and there are h rows. */
  predicate IsGrid(img: Image, w: nat, h: nat) {
    |img| == h && forall y :: 0 <= y < h ==> |img[y]| == w
  }

  /** What `ImageIO.read` hands back: a non-empty rectangular raster. */
  predicate ValidImage(img: Image) {
    Height(img) > 0 && Width(img) > 0 && IsGrid(img, Width(img), Height(img))
  }

  predicate SameShape(a: Image, b: Image) {
    |a| == |b| && forall y :: 0 <= y < |a| ==> |a[y]| == |b[y]|
  }

  /** Applies a per-pixel colour map over the whole grid, as the service's
      nested `for (y ...) for (x ...)` loops do. */
  function MapPixels(img: Image, f: Pixel -> Pixel): (r: Image)
    ensures SameShape(img, r)
    ensures forall y, x :: 0 <= y < |img| && 0 <= x < |img[y]| ==> r[y][x] == f(img[y][x])
  {
    seq(|img|, y requires 0 <= y < |img| =>
      seq(|img[y]|, x requires 0 <= x < |img[y]| => f(img[y][x])))
  }

  /** The value `getRGB` returns for a pixel with the given alpha: the bit
      pattern `alpha << 24 | r << 16 | g << 8 | b` read as a signed Java `int`,
      so every alpha of 128 or more gives a negative number. */
  function Argb(alpha: Channel, p: Pixel): Int32 {
    var bits := alpha * 0x100_0000 + p.r * 0x1_0000 + p.g * 0x100 + p.b;
    if bits >= 0x8000_0000 then bits - 0x1_0000_0000 else bits
  }

  /** The value the filters hand to `setRGB`: `r << 16 | g << 8 | b`. The three
      fields occupy disjoint bits, so the `|` is a sum. */
  function PackRgb(p: Pixel): (v: Int32)
    ensures 0 <= v < 0x100_0000
  {
    p.r * 0x1_0000 + p.g * 0x100 + p.b
  }

  /** The channel extraction `(rgb >> 16) & 0xFF`, `(rgb >> 8) & 0xFF`,
      `rgb & 0xFF`. Java's `>>` shifts arithmetically, which is division by a
      power of two rounded toward minus infinity, i.e. Dafny's `/` by a
      positive constant; `& 0xFF` keeps the low eight bits, i.e. Dafny's
      non-negative `% 256`. */
  function Unpack(rgb: Int32): (p: Pixel)
    ensures PackRgb(p) == rgb % 0x100_0000
  {
    LowBytes(rgb);
    Pixel((rgb / 0x1_0000) % 0x100, (rgb / 0x100) % 0x100, rgb % 0x100)
  }

  /** The three low bytes of an integer, read off with shifts and masks, put
      back together give its low 24 bits. */
  lemma LowBytes(v: int)
    ensures (v / 0x1_0000) % 0x100 * 0x1_0000 + (v / 0x100) % 0x100 * 0x100 + v % 0x100
            == v % 0x100_0000
  {
    var b := v % 0x100;
    var t := v / 0x100;
    var g := t % 0x100;
    var u := t / 0x100;
    var r := u % 0x100;
    var a := u / 0x100;
    assert v == t * 0x100 + b;
    assert t == u * 0x100 + g;
    assert u == a * 0x100 + r;
    assert v == u * 0x1_0000 + (g * 0x100 + b);
    Field(u, g * 0x100 + b, 0x1_0000);
    assert v == a * 0x100_0000 + (r * 0x1_0000 + g * 0x100 + b);
    Field(a, r * 0x1_0000 + g * 0x100 + b, 0x100_0000);
  }

  /** Reading the channels back out of a `getRGB` value yields exactly the
      pixel's channels whatever its alpha, negative values included. */
  lemma UnpackArgb(alpha: Channel, p: Pixel)
    ensures Unpack(Argb(alpha, p)) == p
  {
    // a is alpha as it sits in the signed top byte: alpha itself, or
    // alpha - 256 when bit 31 is set
    var a := if alpha >= 0x80 then alpha - 0x100 else alpha;
    var v := Argb(alpha, p);
    assert v == ((a * 0x100 + p.r) * 0x100 + p.g) * 0x100 + p.b;
    Field(((a * 0x100 + p.r) * 0x100 + p.g), p.b, 0x100);
    Field(a * 0x100 + p.r, p.g, 0x100);
    Field(a, p.r, 0x100);
    assert v == (a * 0x100 + p.r) * 0x1_0000 + (p.g * 0x100 + p.b);
    Field(a * 0x100 + p.r, p.g * 0x100 + p.b, 0x1_0000);
  }

  /** Packing with `setRGB` and unpacking again is the identity on pixels. */
  lemma UnpackPackRgb(p: Pixel)
    ensures Unpack(PackRgb(p)) == p
  {
    UnpackArgb(0, p);
  }
}
