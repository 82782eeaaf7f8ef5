/** The word-box geometry of `createTextSelectionOverlay` (content.js):
    Tesseract reports each word's bounding box in the natural pixels of the
    image, and the overlay places a span over it in the displayed image's
    CSS pixels. Coordinates are exact reals. */
module Geometry {

  /** A word's `bbox` as Tesseract reports it. */
  datatype Box = Box(x0: real, y0: real, x1: real, y1: real)

  /** A width/height pair: the OCR result's `imageSize`, or the element's `offsetWidth`/`offsetHeight`. */
  datatype Size = Size(width: real, height: real)

  /** The `left`, `top`, `width` and `height` given to a word's span. */
  datatype Placement = Placement(left: real, top: real, width: real, height: real)

  predicate Positive(s: Size) {
    s.width > 0.0 && s.height > 0.0
  }

  /** A box that lies within an image of the given natural size. */
  predicate Inside(b: Box, image: Size) {
    0.0 <= b.x0 <= b.x1 <= image.width && 0.0 <= b.y0 <= b.y1 <= image.height
  }

  /** The span for one word: the box scaled by `offsetWidth / naturalWidth` across
      and `offsetHeight / naturalHeight` down. Each edge keeps its fraction of the
      image: an edge at `x` natural pixels lands at `x * display.width / image.width`. */
  function Place(b: Box, display: Size, image: Size): (p: Placement)
    requires Positive(image)
    ensures p.left * image.width == b.x0 * display.width
    ensures p.top * image.height == b.y0 * display.height
    ensures (p.left + p.width) * image.width == b.x1 * display.width
    ensures (p.top + p.height) * image.height == b.y1 * display.height
  {
    var sx := display.width / image.width;
    var sy := display.height / image.height;
    Placement(b.x0 * sx, b.y0 * sy, (b.x1 - b.x0) * sx, (b.y1 - b.y0) * sy)
  }

  /** The inverse mapping, from a span back to natural pixels. */
  function Unplace(p: Placement, display: Size, image: Size): (b: Box)
    requires Positive(display)
  {
    var ux := image.width / display.width;
    var uy := image.height / display.height;
    Box(p.left * ux, p.top * uy, (p.left + p.width) * ux, (p.top + p.height) * uy)
  }

  /** Placing a word and mapping its span back recovers the box exactly. */
  lemma PlaceRoundTrip(b: Box, display: Size, image: Size)
    requires Positive(image) && Positive(display)
    ensures Unplace(Place(b, display, image), display, image) == b
  {
    var p := Place(b, display, image);
    var q := Unplace(p, display, image);
    Recover(b.x0, p.left, display.width, image.width);
    Recover(b.y0, p.top, display.height, image.height);
    Recover(b.x1, p.left + p.width, display.width, image.width);
    Recover(b.y1, p.top + p.height, display.height, image.height);
  }

  lemma Recover(x: real, y: real, d: real, n: real)
    requires d > 0.0 && n > 0.0
    requires y * n == x * d
    ensures y * (n / d) == x
  {
    calc {
      y * (n / d);
      (y * n) / d;
      (x * d) / d;
      x;
    }
  }

  /** An image shown at its natural size places every word at its own box. */
  lemma NaturalSizeIsIdentity(b: Box, image: Size)
    requires Positive(image)
    ensures Place(b, image, image) == Placement(b.x0, b.y0, b.x1 - b.x0, b.y1 - b.y0)
  {
    assert image.width / image.width == 1.0;
    assert image.height / image.height == 1.0;
  }

  /** A box inside the image gives a span inside the displayed element, with
      a non-negative width and height. */
  lemma PlacedInsideDisplay(b: Box, display: Size, image: Size)
    requires Positive(image) && Positive(display) && Inside(b, image)
    ensures var p := Place(b, display, image);
      && 0.0 <= p.left && 0.0 <= p.width && p.left + p.width <= display.width
      && 0.0 <= p.top && 0.0 <= p.height && p.top + p.height <= display.height
  {
    var p := Place(b, display, image);
    Within(b.x0, b.x1, p.left, p.left + p.width, display.width, image.width);
    Within(b.y0, b.y1, p.top, p.top + p.height, display.height, image.height);
  }

  lemma Within(x0: real, x1: real, l: real, r: real, d: real, n: real)
    requires d > 0.0 && n > 0.0 && 0.0 <= x0 <= x1 <= n
    requires l * n == x0 * d && r * n == x1 * d
    ensures 0.0 <= l <= r <= d
  {
    assert l * n >= 0.0;
    assert r * n - l * n == (x1 - x0) * d >= 0.0;
    assert (r - l) * n >= 0.0;
    assert d * n - r * n == (n - x1) * d >= 0.0;
    assert (d - r) * n >= 0.0;
  }

  /** Scaling keeps reading order: a word that ends left of where another
      begins still does so on screen, and likewise vertically. */
  lemma PlaceKeepsOrder(b: Box, c: Box, display: Size, image: Size)
    requires Positive(image) && Positive(display)
    ensures var p := Place(b, display, image);
      var q := Place(c, display, image);
      && (b.x1 <= c.x0 ==> p.left + p.width <= q.left)
      && (b.y1 <= c.y0 ==> p.top + p.height <= q.top)
  {
    var p := Place(b, display, image);
    var q := Place(c, display, image);
    if b.x1 <= c.x0 {
      Ordered(p.left + p.width, q.left, b.x1, c.x0, display.width, image.width);
    }
    if b.y1 <= c.y0 {
      Ordered(p.top + p.height, q.top, b.y1, c.y0, display.height, image.height);
    }
  }

  lemma Ordered(u: real, v: real, x: real, y: real, d: real, n: real)
    requires d > 0.0 && n > 0.0 && x <= y
    requires u * n == x * d && v * n == y * d
    ensures u <= v
  {
    assert (v - u) * n == (y - x) * d >= 0.0;
  }
}
