/**
  The layout decisions of `addWatermark`: the font size, the anchor chosen
  from the position string, the text origin with its 10px margins, and the
  two text layers (a shadow, then the text itself) drawn over a copy of the
  original. Glyph rendering and font metrics belong to AWT; the measured
  text extent is supplied by a `measure` function standing for
  `FontMetrics.stringWidth` and `FontMetrics.getHeight`.

  `drawString` takes the text's baseline origin, and the source treats the
  text as occupying `textWidth` to the right of x and `textHeight` above y;
  the gap lemmas below use that reading of the text box.
 */
module Watermark {

  import opened JavaLang
  import opened Pixels

  datatype Anchor = TopLeft | TopRight | BottomLeft | BottomRight | Center

  /** The position switch: the string is lower-cased and matched against the
      five anchor names; anything else, `bottom-right` included, selects the
      bottom-right corner. */
  function ParseAnchor(position: string): (a: Anchor)
    ensures a == TopLeft <==> ToLower(position) == "top-left"
    ensures a == TopRight <==> ToLower(position) == "top-right"
    ensures a == BottomLeft <==> ToLower(position) == "bottom-left"
    ensures a == Center <==> ToLower(position) == "center"
    ensures a == BottomRight <==>
              ToLower(position) == "bottom-right" || !IsAnchorName(ToLower(position))
  {
    var p := ToLower(position);
    if p == "top-left" then TopLeft
    else if p == "top-right" then TopRight
    else if p == "bottom-left" then BottomLeft
    else if p == "center" then Center
    else BottomRight
  }

  predicate IsAnchorName(s: string) {
    s == "top-left" || s == "top-right" || s == "bottom-left"
    || s == "bottom-right" || s == "center"
  }

  /** Distance kept from each anchored edge. */
  const Margin := 10

  datatype Point = Point(x: int, y: int)

  /** The text origin for an anchor, in Java `int` arithmetic. Nothing is
      clamped: text wider or taller than the image yields negative
      coordinates. */
  function Place(a: Anchor, width: int, height: int, textWidth: int, textHeight: int): (p: Point)
    ensures a == TopLeft ==> p.x == Margin && p.y == textHeight + Margin
    ensures a == TopRight ==> p.x + textWidth + Margin == width && p.y == textHeight + Margin
    ensures a == BottomLeft ==> p.x == Margin && p.y + Margin == height
    ensures a == BottomRight ==> p.x + textWidth + Margin == width && p.y + Margin == height
    ensures a == Center ==>
              (width - textWidth >= 0 ==> 0 <= (width - textWidth) - 2 * p.x <= 1)
              && (width - textWidth < 0 ==> -1 <= (width - textWidth) - 2 * p.x <= 0)
              && (height + textHeight >= 0 ==> 0 <= (height + textHeight) - 2 * p.y <= 1)
              && (height + textHeight < 0 ==> -1 <= (height + textHeight) - 2 * p.y <= 0)
  {
    match a
    case TopLeft => Point(Margin, textHeight + Margin)
    case TopRight => Point(width - textWidth - Margin, textHeight + Margin)
    case BottomLeft => Point(Margin, height - Margin)
    case Center => Point(Quot(width - textWidth, 2), Quot(height + textHeight, 2))
    case BottomRight => Point(width - textWidth - Margin, height - Margin)
  }

  /** Gaps between the text box at p and the four image edges. */
  function LeftGap(p: Point): int { p.x }
  function RightGap(p: Point, width: int, textWidth: int): int { width - (p.x + textWidth) }
  function TopGap(p: Point, textHeight: int): int { p.y - textHeight }
  function BottomGap(p: Point, height: int): int { height - p.y }

  /** Each corner anchor keeps the margin from its two edges; the centre
      anchor balances opposite gaps up to one pixel of truncation. */
  lemma PlaceMargins(a: Anchor, width: int, height: int, textWidth: int, textHeight: int)
    ensures var p := Place(a, width, height, textWidth, textHeight);
      && ((a == TopLeft || a == BottomLeft) ==> LeftGap(p) == Margin)
      && ((a == TopRight || a == BottomRight) ==> RightGap(p, width, textWidth) == Margin)
      && ((a == TopLeft || a == TopRight) ==> TopGap(p, textHeight) == Margin)
      && ((a == BottomLeft || a == BottomRight) ==> BottomGap(p, height) == Margin)
      && (a == Center ==>
            -1 <= LeftGap(p) - RightGap(p, width, textWidth) <= 1
            && -1 <= TopGap(p, textHeight) - BottomGap(p, height) <= 1)
  {
  }

  /** The centre anchor divides with Java's truncation toward zero: when the
      text fits across, the odd pixel goes to the right gap, and when it is
      wider than the image, the odd pixel goes to the left gap (a floor
      division would put it on the right in both cases). */
  lemma CenterRoundsTowardZero(width: int, height: int, textWidth: int, textHeight: int)
    ensures var p := Place(Center, width, height, textWidth, textHeight);
      && (width - textWidth >= 0 ==> LeftGap(p) <= RightGap(p, width, textWidth))
      && (width - textWidth < 0 ==> LeftGap(p) >= RightGap(p, width, textWidth))
      && (height + textHeight >= 0 ==> TopGap(p, textHeight) <= BottomGap(p, height))
  {
  }

  /** When the text fits inside the image with a margin on both sides, every
      anchor keeps the text box at least the margin away from all four edges. */
  lemma PlaceInsideWhenFits(a: Anchor, width: int, height: int, textWidth: int, textHeight: int)
    requires textWidth >= 0 && textHeight >= 0
    requires textWidth + 2 * Margin <= width && textHeight + 2 * Margin <= height
    ensures var p := Place(a, width, height, textWidth, textHeight);
      && LeftGap(p) >= Margin && RightGap(p, width, textWidth) >= Margin
      && TopGap(p, textHeight) >= Margin && BottomGap(p, height) >= Margin
  {
    if a == Center {
      var p := Place(a, width, height, textWidth, textHeight);
      assert 2 * p.x <= width - textWidth < 2 * p.x + 2;
      assert 2 * p.y <= height + textHeight < 2 * p.y + 2;
    }
  }

  /** The bottom-right anchor on a 200 x 100 image puts the text's right
      edge at 190 and its baseline at 90. */
  lemma BottomRightOn200By100(textWidth: int, textHeight: int)
    ensures var p := Place(BottomRight, 200, 100, textWidth, textHeight);
      p.x + textWidth == 190 && p.y == 90
  {
  }

  /** The anchor depends on the position string only through its lower-cased
      form. */
  lemma ParseAnchorIgnoresCase(position: string)
    ensures ParseAnchor(position) == ParseAnchor(ToLower(position))
  {
    ToLowerIdempotent(position);
  }

  /** Text wider than the image less one margin starts left of the image when
      right-anchored: the coordinates are not clamped. */
  lemma WideTextIsNotClamped(width: int, height: int, textWidth: int, textHeight: int)
    requires textWidth > width - Margin
    ensures Place(TopRight, width, height, textWidth, textHeight).x < 0
    ensures Place(BottomRight, width, height, textWidth, textHeight).x < 0
  {
  }

  /** Bold font size, scaled with the image: the larger dimension divided by
      20, rounded down. */
  function FontSize(width: int, height: int): (size: int)
    requires width > 0 && height > 0
    ensures size >= 0
    ensures size * 20 <= Max(width, height) < (size + 1) * 20
  {
    Quot(Max(width, height), 20)
  }

  datatype Rgba = Rgba(r: Channel, g: Channel, b: Channel, alpha: Channel)

  datatype Font = Font(family: string, bold: bool, size: int)

  /** What the font metrics report for a string. */
  datatype Extent = Extent(width: nat, height: nat)

  /** One `drawString` call: the text, its baseline origin and its colour. */
  datatype TextLayer = TextLayer(text: string, origin: Point, color: Rgba)

  /** The watermarked image: a copy of the original raster with text layers
      composited over it in list order. */
  datatype Watermarked = Watermarked(canvas: Image, font: Font, layers: seq<TextLayer>)

  const ShadowOffset := 2
  const ShadowColor := Rgba(0, 0, 0, 128)
  const TextColor := Rgba(255, 255, 255, 180)

  function AddWatermark(img: Image, text: string, position: string, measure: (Font, string) -> Extent): (w: Watermarked)
    requires ValidImage(img)
    ensures w.canvas == img
    ensures IsGrid(w.canvas, Width(img), Height(img))
    ensures w.font.bold && w.font.size == FontSize(Width(img), Height(img))
    ensures |w.layers| == 2
    ensures w.layers[0].text == text && w.layers[1].text == text
    ensures w.layers[0].color == ShadowColor && w.layers[1].color == TextColor
    ensures w.layers[0].origin.x == w.layers[1].origin.x + ShadowOffset
    ensures w.layers[0].origin.y == w.layers[1].origin.y + ShadowOffset
    ensures var e := measure(w.font, text);
      w.layers[1].origin == Place(ParseAnchor(position), Width(img), Height(img), e.width, e.height)
  {
    var width := Width(img);
    var height := Height(img);
    var font := Font("Arial", true, FontSize(width, height));
    var extent := measure(font, text);
    var p := Place(ParseAnchor(position), width, height, extent.width, extent.height);
    var shadow := TextLayer(text, Point(p.x + ShadowOffset, p.y + ShadowOffset), ShadowColor);
    var fore := TextLayer(text, p, TextColor);
    Watermarked(img, font, [shadow, fore])
  }
}
