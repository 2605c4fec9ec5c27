/**
  The filters of `applyFilter`: the case-insensitive dispatch on the filter
  name, the pointwise grayscale and sepia colour maps, and the edge policy of
  the 3x3 blur and sharpen convolutions.

  The colour coefficients are doubles in the source and the weighted sum is
  truncated with `(int)`. Here each coefficient is an exact per-mille integer
  and the sum is divided by 1000, rounding down; the model abstracts away the
  rounding of the double arithmetic.
 */
module Filters {

  import opened JavaLang
  import opened Pixels

  function Min3(a: int, b: int, c: int): int {
    if a <= b && a <= c then a else if b <= c then b else c
  }

  function Max3(a: int, b: int, c: int): int {
    if a >= b && a >= c then a else if b >= c then b else c
  }

  predicate IsGray(p: Pixel) {
    p.r == p.g == p.b
  }

  /** Weighted luminance 0.299 R + 0.587 G + 0.114 B, truncated. The weights
      sum to one, so the value lies between the darkest and brightest channel,
      and a gray pixel keeps its level. */
  function Luminance(p: Pixel): (v: Channel)
    ensures Min3(p.r, p.g, p.b) <= v <= Max3(p.r, p.g, p.b)
    ensures IsGray(p) ==> v == p.r
  {
    var m := Min3(p.r, p.g, p.b);
    var n := Max3(p.r, p.g, p.b);
    var sum := 299 * p.r + 587 * p.g + 114 * p.b;
    assert 1000 * m <= sum <= 1000 * n;
    sum / 1000
  }

  /** The grayscale step for one pixel: the luminance in all three channels. */
  function GrayPixel(p: Pixel): (q: Pixel)
    ensures IsGray(q)
    ensures Min3(p.r, p.g, p.b) <= q.r <= Max3(p.r, p.g, p.b)
  {
    var v := Luminance(p);
    Pixel(v, v, v)
  }

  /** Upper clamp `Math.min(255, v)` of a non-negative channel value. */
  function Clamp(v: nat): (c: Channel)
    ensures c <= v
    ensures c == 255 || c == v
  {
    if v < 255 then v else 255
  }

  /** The three sepia weighted sums, each truncated. */
  function SepiaRed(p: Pixel): nat { (393 * p.r + 769 * p.g + 189 * p.b) / 1000 }
  function SepiaGreen(p: Pixel): nat { (349 * p.r + 686 * p.g + 168 * p.b) / 1000 }
  function SepiaBlue(p: Pixel): nat { (272 * p.r + 534 * p.g + 131 * p.b) / 1000 }

  /** The sepia step for one pixel. Every red weight exceeds the matching green
      weight, which exceeds the matching blue weight, so the tone is warm:
      red >= green >= blue. A channel saturates exactly when its truncated
      weighted sum reaches 255. */
  function SepiaPixel(p: Pixel): (q: Pixel)
    ensures q.r >= q.g >= q.b
    ensures q.r == 255 <==> SepiaRed(p) >= 255
    ensures q.g == 255 <==> SepiaGreen(p) >= 255
    ensures q.b == 255 <==> SepiaBlue(p) >= 255
    ensures q.r < 255 ==> q.r == SepiaRed(p)
    ensures q.g < 255 ==> q.g == SepiaGreen(p)
    ensures q.b < 255 ==> q.b == SepiaBlue(p)
  {
    assert SepiaRed(p) >= SepiaGreen(p) >= SepiaBlue(p);
    Pixel(Clamp(SepiaRed(p)), Clamp(SepiaGreen(p)), Clamp(SepiaBlue(p)))
  }

  /** The loop bodies as the source writes them, on the packed values of
      `getRGB` and `setRGB`: unpack the channels, recolour, pack again. */
  function GrayscaleRgb(rgb: Int32): Int32 {
    PackRgb(GrayPixel(Unpack(rgb)))
  }

  function SepiaRgb(rgb: Int32): Int32 {
    PackRgb(SepiaPixel(Unpack(rgb)))
  }

  /** On any pixel as `getRGB` reports it, whatever its alpha, the packed loop
      bodies store exactly the recoloured pixel, so the filters can be stated
      on pixels. */
  lemma RgbStepsMatchPixelMaps(alpha: Channel, p: Pixel)
    ensures Unpack(GrayscaleRgb(Argb(alpha, p))) == GrayPixel(p)
    ensures Unpack(SepiaRgb(Argb(alpha, p))) == SepiaPixel(p)
  {
    UnpackArgb(alpha, p);
    UnpackPackRgb(GrayPixel(p));
    UnpackPackRgb(SepiaPixel(p));
  }

  /** `applyGrayscaleFilter`. */
  function ApplyGrayscale(img: Image): (r: Image)
    requires ValidImage(img)
    ensures IsGrid(r, Width(img), Height(img))
    ensures forall y, x :: 0 <= y < |r| && 0 <= x < |r[y]| ==> IsGray(r[y][x])
    ensures forall y, x :: 0 <= y < |r| && 0 <= x < |r[y]| ==> r[y][x].r == Luminance(img[y][x])
  {
    MapPixels(img, GrayPixel)
  }

  /** `applySepiaFilter`. */
  function ApplySepia(img: Image): (r: Image)
    requires ValidImage(img)
    ensures IsGrid(r, Width(img), Height(img))
    ensures forall y, x :: 0 <= y < |r| && 0 <= x < |r[y]| ==> r[y][x] == SepiaPixel(img[y][x])
  {
    MapPixels(img, SepiaPixel)
  }

  /** Grayscale applied to an already gray image changes nothing. */
  lemma GrayscaleFixesGray(img: Image)
    requires ValidImage(img)
    requires forall y, x :: 0 <= y < |img| && 0 <= x < |img[y]| ==> IsGray(img[y][x])
    ensures ApplyGrayscale(img) == img
  {
    var r := ApplyGrayscale(img);
    forall y | 0 <= y < |img|
      ensures r[y] == img[y]
    {
      forall x | 0 <= x < |img[y]|
        ensures r[y][x] == img[y][x]
      {
        assert Luminance(img[y][x]) == img[y][x].r;
      }
    }
  }

  /** Grayscale is idempotent. */
  lemma GrayscaleIdempotent(img: Image)
    requires ValidImage(img)
    ensures ApplyGrayscale(ApplyGrayscale(img)) == ApplyGrayscale(img)
  {
    GrayscaleFixesGray(ApplyGrayscale(img));
  }

  /** Sepia maps black to black and saturates white to (255, 255, 238). */
  lemma SepiaExtremes()
    ensures SepiaPixel(Pixel(0, 0, 0)) == Pixel(0, 0, 0)
    ensures SepiaPixel(Pixel(255, 255, 255)) == Pixel(255, 255, 238)
  {
  }

  /** A 3x3 convolution kernel, row-major; cell i weighs weights[i] / divisor. */
  datatype Kernel = Kernel(weights: seq<int>, divisor: nat)

  /** The box blur: nine cells of 1/9. */
  const BoxBlur := Kernel([1, 1, 1, 1, 1, 1, 1, 1, 1], 9)

  /** The sharpen kernel [[0,-1,0],[-1,5,-1],[0,-1,0]]. */
  const SharpenKernel := Kernel([0, -1, 0, -1, 5, -1, 0, -1, 0], 1)

  /** A 3x3 kernel centred on (1, 1) reaches one pixel beyond its centre, so
      it does not fit over a pixel in the outermost row or column. */
  predicate OnEdge(x: int, y: int, width: int, height: int) {
    x < 1 || y < 1 || x >= width - 1 || y >= height - 1
  }

  /** `ConvolveOp` with `EDGE_NO_OP`: where the kernel fits, the destination
      pixel is whatever the convolution computes, supplied here by `interior`;
      on the edge band the source pixel is copied unchanged. */
  function ConvolveEdgeNoOp(img: Image, k: Kernel, interior: (Kernel, Image, nat, nat) -> Pixel): (r: Image)
    requires ValidImage(img)
    ensures IsGrid(r, Width(img), Height(img))
    ensures forall y, x :: 0 <= y < |r| && 0 <= x < |r[y]| && OnEdge(x, y, Width(img), Height(img)) ==>
              r[y][x] == img[y][x]
    ensures forall y, x :: 0 <= y < |r| && 0 <= x < |r[y]| && !OnEdge(x, y, Width(img), Height(img)) ==>
              r[y][x] == interior(k, img, x, y)
  {
    var w := Width(img);
    seq(|img|, y requires 0 <= y < |img| =>
      seq(w, x requires 0 <= x < w =>
        if OnEdge(x, y, w, Height(img)) then img[y][x] else interior(k, img, x, y)))
  }

  /** The four corner pixels pass through every edge-no-op convolution. */
  lemma ConvolveKeepsCorners(img: Image, k: Kernel, interior: (Kernel, Image, nat, nat) -> Pixel)
    requires ValidImage(img)
    ensures var r := ConvolveEdgeNoOp(img, k, interior);
      var w := Width(img);
      var h := Height(img);
      && r[0][0] == img[0][0]
      && r[0][w - 1] == img[0][w - 1]
      && r[h - 1][0] == img[h - 1][0]
      && r[h - 1][w - 1] == img[h - 1][w - 1]
  {
  }

  /** An image one or two pixels wide or tall is all edge, so the
      convolution returns it unchanged. */
  lemma ConvolveSmallIsIdentity(img: Image, k: Kernel, interior: (Kernel, Image, nat, nat) -> Pixel)
    requires ValidImage(img)
    requires Width(img) <= 2 || Height(img) <= 2
    ensures ConvolveEdgeNoOp(img, k, interior) == img
  {
    var r := ConvolveEdgeNoOp(img, k, interior);
    forall y | 0 <= y < |img|
      ensures r[y] == img[y]
    {
      assert |r[y]| == |img[y]|;
      forall x | 0 <= x < |img[y]|
        ensures r[y][x] == img[y][x]
      {
        assert OnEdge(x, y, Width(img), Height(img));
      }
    }
  }

  datatype FilterKind = Grayscale | Sepia | Blur | Sharpen

  /** The filter switch: the name is lower-cased and matched against the four
      filter names; anything else falls back to grayscale (with a logged
      warning, not modelled). */
  function ParseFilter(filterType: string): (k: FilterKind)
    ensures k == Sepia <==> ToLower(filterType) == "sepia"
    ensures k == Blur <==> ToLower(filterType) == "blur"
    ensures k == Sharpen <==> ToLower(filterType) == "sharpen"
    ensures k == Grayscale <==>
              ToLower(filterType) == "grayscale" || !IsFilterName(ToLower(filterType))
  {
    var f := ToLower(filterType);
    if f == "grayscale" then Grayscale
    else if f == "sepia" then Sepia
    else if f == "blur" then Blur
    else if f == "sharpen" then Sharpen
    else Grayscale
  }

  predicate IsFilterName(s: string) {
    s == "grayscale" || s == "sepia" || s == "blur" || s == "sharpen"
  }

  /** `applyFilter`; `interior` stands for `ConvolveOp`'s arithmetic inside the
      edge band. */
  function ApplyFilter(img: Image, filterType: string, interior: (Kernel, Image, nat, nat) -> Pixel): (r: Image)
    requires ValidImage(img)
    ensures IsGrid(r, Width(img), Height(img))
  {
    match ParseFilter(filterType)
    case Grayscale => ApplyGrayscale(img)
    case Sepia => ApplySepia(img)
    case Blur => ConvolveEdgeNoOp(img, BoxBlur, interior)
    case Sharpen => ConvolveEdgeNoOp(img, SharpenKernel, interior)
  }

  /** The filter depends on the name only through its lower-cased form. */
  lemma ParseFilterIgnoresCase(filterType: string)
    ensures ParseFilter(filterType) == ParseFilter(ToLower(filterType))
  {
    ToLowerIdempotent(filterType);
  }

  /** An unrecognised filter name produces exactly the grayscale output. */
  lemma UnknownFilterIsGrayscale(img: Image, filterType: string, interior: (Kernel, Image, nat, nat) -> Pixel)
    requires ValidImage(img)
    requires !IsFilterName(ToLower(filterType))
    ensures ApplyFilter(img, filterType, interior) == ApplyGrayscale(img)
  {
  }

  /** Every edge pixel of a blurred or sharpened image is the original one. */
  lemma ConvolutionFiltersKeepEdges(img: Image, filterType: string, interior: (Kernel, Image, nat, nat) -> Pixel)
    requires ValidImage(img)
    requires ParseFilter(filterType) == Blur || ParseFilter(filterType) == Sharpen
    ensures var r := ApplyFilter(img, filterType, interior);
      forall y, x :: 0 <= y < Height(img) && 0 <= x < Width(img) && OnEdge(x, y, Width(img), Height(img)) ==>
        r[y][x] == img[y][x]
  {
  }
}
