/**
  The target geometry of `resizeImageInternal`: the output dimensions that
  keep the original aspect ratio and fit the configured box
  `image.resize.width` x `image.resize.height`. The pixel resampling itself
  (Scalr, QUALITY method, FIT_EXACT mode) is not modelled.

  The source compares the two aspect ratios as doubles and truncates a double
  product or quotient with `(int)`. Here the comparison `ow/oh > tw/th` is
  made exact by cross-multiplying, `ow * th > tw * oh`, and the truncated
  side is the exact proportional value rounded down, which on these positive
  quantities is what `(int)` does.
 */
module Resize {

  import opened JavaLang

  datatype Dims = Dims(width: int, height: int)

  /** The original is relatively wider than the box, so the width is the
      binding constraint. */
  predicate WidthConstrained(ow: int, oh: int, tw: int, th: int) {
    ow * th > tw * oh
  }

  /** Output dimensions for an ow x oh original and a tw x th box. The pinned
      side equals the box; the other side is the proportional value rounded
      down, so the aspect ratio is kept up to the truncation. */
  function TargetDims(ow: int, oh: int, tw: int, th: int): (d: Dims)
    requires ow > 0 && oh > 0 && tw > 0 && th > 0
    ensures 0 <= d.width <= tw && 0 <= d.height <= th
    ensures WidthConstrained(ow, oh, tw, th) ==>
              d.width == tw && d.height < th
              && d.height * ow <= tw * oh < (d.height + 1) * ow
    ensures !WidthConstrained(ow, oh, tw, th) ==>
              d.height == th
              && d.width * oh <= th * ow < (d.width + 1) * oh
  {
    if WidthConstrained(ow, oh, tw, th) then
      var h := ProportionalSide(tw * oh, ow, th);
      Dims(tw, h)
    else
      var w := ProportionalSide(th * ow, oh, tw + 1);
      Dims(w, th)
  }

  /** The proportional side n / d rounded down, as `(int)` truncates a
      positive double, with its bracketing window. */
  function ProportionalSide(n: nat, d: int, k: int): (q: int)
    requires d > 0
    requires n < k * d
    ensures 0 <= q < k
    ensures q * d <= n < (q + 1) * d
  {
    FloorBelow(n, d, k);
    n / d
  }

  /** The floor of n / d lies in its window, and stays below any bound k with
      n < k * d. */
  lemma FloorBelow(n: nat, d: int, k: int)
    requires d > 0
    ensures 0 <= n / d
    ensures (n / d) * d <= n < (n / d + 1) * d
    ensures n < k * d ==> n / d < k
  {
    var q := n / d;
    assert n == q * d + n % d;
    assert (q + 1) * d == q * d + d;
    if n < k * d && q >= k {
      assert q * d - k * d == (q - k) * d;
      if q > k {
        MulAtLeast(q - k, d);
      }
    }
  }

  /** A box of the original's own proportions is filled exactly. */
  lemma EqualAspectFillsBox(ow: int, oh: int, tw: int, th: int)
    requires ow > 0 && oh > 0 && tw > 0 && th > 0
    requires ow * th == tw * oh
    ensures TargetDims(ow, oh, tw, th) == Dims(tw, th)
  {
    var d := TargetDims(ow, oh, tw, th);
    assert !WidthConstrained(ow, oh, tw, th);
    assert d.width * oh <= tw * oh < (d.width + 1) * oh;
    if d.width < tw {
      assert (tw - d.width) * oh == tw * oh - d.width * oh;
      MulAtLeast(tw - d.width, oh);
    }
  }

  /** A 200 x 100 image fitted into a 100 x 100 box comes out 100 x 50. */
  lemma WideImageIntoSquareBox()
    ensures TargetDims(200, 100, 100, 100) == Dims(100, 50)
  {
  }

  /** One side always reaches the box, so an image smaller than the box in
      both directions is enlarged rather than left as it is. */
  lemma SmallImagesAreEnlarged(ow: int, oh: int, tw: int, th: int)
    requires ow > 0 && oh > 0 && tw > 0 && th > 0
    requires ow < tw && oh < th
    ensures var d := TargetDims(ow, oh, tw, th);
      d.width > ow || d.height > oh
  {
  }

  /** The height truncates to zero exactly when the original's aspect ratio
      ow / oh exceeds the box width tw, so a very wide image produces a
      degenerate target for the resampler. */
  lemma ZeroHeightIff(ow: int, oh: int, tw: int, th: int)
    requires ow > 0 && oh > 0 && tw > 0 && th > 0
    ensures TargetDims(ow, oh, tw, th).height == 0 <==> tw * oh < ow
  {
    var d := TargetDims(ow, oh, tw, th);
    if tw * oh < ow {
      assert ow <= ow * th by { MulAtLeast(th, ow); assert th * ow == ow * th; }
      assert WidthConstrained(ow, oh, tw, th);
      assert d.height * ow <= tw * oh;
      if d.height > 0 {
        MulAtLeast(d.height, ow);
      }
    }
  }

  /** Symmetrically, the width truncates to zero exactly when the inverse
      ratio oh / ow exceeds the box height th. */
  lemma ZeroWidthIff(ow: int, oh: int, tw: int, th: int)
    requires ow > 0 && oh > 0 && tw > 0 && th > 0
    ensures TargetDims(ow, oh, tw, th).width == 0 <==> th * ow < oh
  {
    var d := TargetDims(ow, oh, tw, th);
    if th * ow < oh {
      assert oh <= oh * tw by { MulAtLeast(tw, oh); assert tw * oh == oh * tw; }
      assert !WidthConstrained(ow, oh, tw, th);
      assert d.width * oh <= th * ow;
      if d.width > 0 {
        MulAtLeast(d.width, oh);
      }
    } else if WidthConstrained(ow, oh, tw, th) {
      assert d.width == tw;
    }
  }
}
